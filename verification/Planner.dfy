/**
 From a WHERE clause to a read request (BuildCursorForSelect, BuildDataSkippingFilter): the key
 comparisons among the conjuncts become a point or a range, the comparisons of numeric columns a
 data-skipping filter. The key column is column 0.
 */
module Planner {
  import opened Seqs
  import opened Storage
  import opened Expressions

  // ---------- Recognising `column op literal` ----------

  datatype Comparison = Comparison(column: nat, op: BinaryOp, literal: Cell, columnOnLeft: bool) {
    /** The operator read with the column on its left side. */
    function Oriented(): BinaryOp { if columnOnLeft then op else Reverse(op) }
  }

  function Reverse(op: BinaryOp): BinaryOp {
    match op
    case Less => Greater
    case LessEqual => GreaterEqual
    case Greater => Less
    case GreaterEqual => LessEqual
    case other => other
  }

  function AsComparison(e: Expr): Option<Comparison> {
    match e
    case Binary(op, Column(c), Literal(v)) => Some(Comparison(c, op, v, true))
    case Binary(op, Literal(v), Column(c)) => Some(Comparison(c, op, v, false))
    case _ => None
  }

  // ---------- The key predicate ----------

  /** `point`, `from` and `to` as found so far; a range predicate may leave both bounds open. */
  datatype Bounds = Bounds(point: Option<Key>, from: Option<Key>, to: Option<Key>, ranged: bool)

  datatype Narrowing = Narrowed(bounds: Bounds) | NoRow | BadKeyLiteral

  function RaiseFrom(b: Bounds, key: Key): Bounds {
    b.(from := if b.from.None? || key > b.from.value then Some(key) else b.from, ranged := true)
  }

  function LowerTo(b: Bounds, key: Key): Bounds {
    b.(to := if b.to.None? || key < b.to.value then Some(key) else b.to, ranged := true)
  }

  /** What `key op literal` does to the bounds. */
  function NarrowKey(b: Bounds, op: BinaryOp, key: Key): Narrowing {
    match op
    case Equal =>
      if b.point.None? then Narrowed(b.(point := Some(key)))
      else if b.point.value != key then NoRow
      else Narrowed(b)
    case Greater => if key == INT64_MAX then NoRow else Narrowed(RaiseFrom(b, key + 1))
    case GreaterEqual => Narrowed(RaiseFrom(b, key))
    case Less => Narrowed(LowerTo(b, key))
    case LessEqual => if key == INT64_MAX then Narrowed(b.(ranged := true)) else Narrowed(LowerTo(b, key + 1))
    case _ => Narrowed(b)
  }

  /** One iteration of the conjunct loop. */
  function Narrow(b: Bounds, conjunct: Expr): Narrowing {
    match AsComparison(conjunct)
    case None => Narrowed(b)
    case Some(c) =>
      if c.column != 0 then Narrowed(b)
      else if c.literal.None? then NoRow
      else if !c.literal.value.Int? then BadKeyLiteral
      else NarrowKey(b, c.Oriented(), c.literal.value.n)
  }

  function NarrowAll(b: Bounds, conjuncts: seq<Expr>): Narrowing
    decreases conjuncts
  {
    if conjuncts == [] then Narrowed(b)
    else
      match Narrow(b, conjuncts[0])
      case Narrowed(next) => NarrowAll(next, conjuncts[1..])
      case stop => stop
  }

  /** What the executor asks of the storage engine. */
  datatype Plan = EmptyPlan | PointPlan(key: Key) | ScanPlan(range: KeyRange)

  function Finish(b: Bounds): (plan: Plan)
    ensures plan.ScanPlan? ==> plan.range.Ordered()
  {
    if b.point.Some? then PointPlan(b.point.value)
    else if b.ranged then
      if b.from.Some? && b.to.Some? && b.from.value >= b.to.value then EmptyPlan
      else ScanPlan(KeyRange(b.from, b.to))
    else ScanPlan(FULL_RANGE)
  }

  const UNBOUNDED := Bounds(None, None, None, false)

  function ConditionConjuncts(condition: Option<Expr>): seq<Expr> {
    if condition.None? then [] else Conjuncts(condition.value)
  }

  function PlanOf(condition: Option<Expr>): (plan: Result<Plan>)
    ensures plan.Ok? && plan.value.ScanPlan? ==> plan.value.range.Ordered()
  {
    match NarrowAll(UNBOUNDED, ConditionConjuncts(condition))
    case Narrowed(b) => Ok(Finish(b))
    case NoRow => Ok(EmptyPlan)
    case BadKeyLiteral => Err
  }

  /** The switch in the loop of BuildCursorForSelect, on the loop's local variables. */
  method ApplyKeyTest(op: BinaryOp, columnOnLeft: bool, key: Key, point: Option<Key>, from: Option<Key>,
                      to: Option<Key>, ranged: bool)
    returns (point': Option<Key>, from': Option<Key>, to': Option<Key>, ranged': bool, empty: bool)
    ensures NarrowKey(Bounds(point, from, to, ranged), if columnOnLeft then op else Reverse(op), key)
            == if empty then NoRow else Narrowed(Bounds(point', from', to', ranged'))
  {
    point', from', to', ranged', empty := point, from, to, ranged, false;
    match op {
      case Equal =>
        if point.None? { point' := Some(key); } else if point.value != key { empty := true; }
      case Greater =>
        ranged' := true;
        if columnOnLeft {
          if key == INT64_MAX { empty := true; }
          else if from.None? || key + 1 > from.value { from' := Some(key + 1); }
        } else {
          if to.None? || key < to.value { to' := Some(key); }
        }
      case GreaterEqual =>
        ranged' := true;
        if columnOnLeft {
          if from.None? || key > from.value { from' := Some(key); }
        } else if key != INT64_MAX {
          if to.None? || key + 1 < to.value { to' := Some(key + 1); }
        }
      case Less =>
        ranged' := true;
        if columnOnLeft {
          if to.None? || key < to.value { to' := Some(key); }
        } else {
          if key == INT64_MAX { empty := true; }
          else if from.None? || key + 1 > from.value { from' := Some(key + 1); }
        }
      case LessEqual =>
        ranged' := true;
        if columnOnLeft {
          if key != INT64_MAX {
            if to.None? || key + 1 < to.value { to' := Some(key + 1); }
          }
        } else {
          if from.None? || key > from.value { from' := Some(key); }
        }
      case _ =>
    }
  }

  /** BuildCursorForSelect, up to the call of the storage engine. */
  method BuildPlan(condition: Option<Expr>) returns (plan: Result<Plan>)
    ensures plan == PlanOf(condition)
  {
    var conjuncts := [];
    if condition.Some? {
      conjuncts := CollectConjuncts(condition.value, conjuncts);
    }
    assert conjuncts == ConditionConjuncts(condition);
    var point: Option<Key>, from: Option<Key>, to: Option<Key> := None, None, None;
    var ranged := false;
    for i := 0 to |conjuncts|
      invariant NarrowAll(UNBOUNDED, conjuncts) == NarrowAll(Bounds(point, from, to, ranged), conjuncts[i..])
    {
      assert conjuncts[i..][1..] == conjuncts[i + 1..];
      var c := AsComparison(conjuncts[i]);
      if c.None? || c.value.column != 0 { continue; }
      if c.value.literal.None? { return Ok(EmptyPlan); }
      if !c.value.literal.value.Int? { return Err; }
      var empty;
      point, from, to, ranged, empty := ApplyKeyTest(c.value.op, c.value.columnOnLeft, c.value.literal.value.n,
                                                     point, from, to, ranged);
      if empty { return Ok(EmptyPlan); }
    }
    if point.Some? { return Ok(PointPlan(point.value)); }
    if ranged {
      if from.Some? && to.Some? && from.value >= to.value { return Ok(EmptyPlan); }
      return Ok(ScanPlan(KeyRange(from, to)));
    }
    return Ok(ScanPlan(FULL_RANGE));
  }

  // ---------- What a plan means ----------

  /** A conjunct that compares the key with an integer literal. */
  predicate IsKeyTest(e: Expr) {
    var c := AsComparison(e);
    c.Some? && c.value.column == 0 && c.value.literal.Some? && c.value.literal.value.Int? && c.value.op.IsComparison()
  }

  predicate KeyTest(e: Expr, key: Key)
    requires IsKeyTest(e)
  {
    var c := AsComparison(e).value;
    c.Oriented().Admits(CompareInts(key, c.literal.value.n))
  }

  /** A key test bounds the key from one side, or pins it. */
  predicate IsBoundTest(e: Expr) {
    IsKeyTest(e) && !AsComparison(e).value.op.NotEqual? && !AsComparison(e).value.op.Equal?
  }

  predicate IsPointTest(e: Expr) { IsKeyTest(e) && AsComparison(e).value.op.Equal? }

  /** The key against a literal, on either side of the operator. */
  ghost predicate IsKeyConjunct(e: Expr, op: BinaryOp, literal: Cell) {
    e == Binary(op, Column(0), Literal(literal)) || e == Binary(op, Literal(literal), Column(0))
  }

  /** Which conjuncts the planner acts on: those that have the key on one side and a literal on the other. */
  lemma {:induction false} KeyConjuncts(e: Expr, op: BinaryOp, literal: Cell)
    ensures IsKeyConjunct(e, op, literal) ==>
              && (IsNullKeyTest(e) <==> literal == None)
              && (IsBadKeyTest(e) <==> literal.Some? && (literal.value.Double? || literal.value.Str?))
              && (IsKeyTest(e) <==> literal.Some? && literal.value.Int? && op != And && op != Or)
    ensures IsNullKeyTest(e) || IsBadKeyTest(e) || IsKeyTest(e) ==>
              exists o: BinaryOp, l: Cell :: IsKeyConjunct(e, o, l)
  {
    if IsNullKeyTest(e) || IsBadKeyTest(e) || IsKeyTest(e) {
      var c := AsComparison(e).value;
      assert IsKeyConjunct(e, c.op, c.literal);
    }
  }

  /** Evaluating a key test compares the row's key with the literal. */
  lemma {:induction false} KeyTestMeaning(e: Expr, row: Row)
    requires IsKeyTest(e)
    ensures Evaluate(e, row) == Ok(Some(Bool(KeyTest(e, row.key))))
  {
    var c := AsComparison(e).value;
    assert row.Column(0) == Some(Int(row.key));
    if c.columnOnLeft {
      assert e == Binary(c.op, Column(0), Literal(c.literal));
    } else {
      assert e == Binary(c.op, Literal(c.literal), Column(0));
    }
  }

  ghost predicate PassesBounds(conjuncts: seq<Expr>, key: Key) {
    forall e :: e in conjuncts && IsBoundTest(e) ==> KeyTest(e, key)
  }

  ghost predicate PassesPoints(conjuncts: seq<Expr>, key: Key) {
    forall e :: e in conjuncts && IsPointTest(e) ==> KeyTest(e, key)
  }

  /** A comparison of the key with NULL, which no row satisfies. */
  predicate IsNullKeyTest(e: Expr) {
    var c := AsComparison(e);
    c.Some? && c.value.column == 0 && c.value.literal.None?
  }

  /** A conjunct on which the planner throws: `std::get<int64_t>` on another literal. */
  predicate IsBadKeyTest(e: Expr) {
    var c := AsComparison(e);
    c.Some? && c.value.column == 0 && c.value.literal.Some? && !c.value.literal.value.Int?
  }

  predicate InBounds(b: Bounds, key: Key) { KeyRange(b.from, b.to).Contains(key) }
  predicate AtPoint(b: Bounds, key: Key) { b.point.Some? ==> b.point.value == key }

  predicate ShapeOk(b: Bounds) { !b.ranged ==> b.from.None? && b.to.None? }

  /** No row satisfies a key test against NULL: a comparison yields NULL, and AND and OR throw. */
  lemma {:induction false} NullKeyTestNeverTrue(e: Expr, row: Row)
    requires IsNullKeyTest(e)
    ensures Evaluate(e, row) != TRUE
  {
    var c := AsComparison(e).value;
    assert row.Column(0) == Some(Int(row.key));
    if c.columnOnLeft {
      assert e == Binary(c.op, Column(0), Literal(c.literal));
    } else {
      assert e == Binary(c.op, Literal(c.literal), Column(0));
    }
  }

  /** The bounds after `key op literal` admit exactly the old keys that satisfy it. */
  lemma {:induction false} NarrowKeyExact(b: Bounds, op: BinaryOp, literal: Key)
    requires ShapeOk(b) && op.IsComparison()
    ensures NarrowKey(b, op, literal).NoRow? ==>
      || (op.Greater? && forall k: Key :: !op.Admits(CompareInts(k, literal)))
      || (op.Equal? && forall k: Key :: AtPoint(b, k) ==> !op.Admits(CompareInts(k, literal)))
    ensures NarrowKey(b, op, literal).Narrowed? ==>
      var b', bound := NarrowKey(b, op, literal).bounds, !op.Equal? && !op.NotEqual?;
      && ShapeOk(b')
      && (forall k: Key :: InBounds(b', k) <==> InBounds(b, k) && (bound ==> op.Admits(CompareInts(k, literal))))
      && (forall k: Key :: AtPoint(b', k) <==> AtPoint(b, k) && (op.Equal? ==> op.Admits(CompareInts(k, literal))))
      && (b'.point.Some? <==> b.point.Some? || op.Equal?)
    ensures !NarrowKey(b, op, literal).BadKeyLiteral?
  {
  }

  lemma {:induction false} NarrowExact(b: Bounds, e: Expr)
    requires ShapeOk(b)
    ensures IsBadKeyTest(e) <==> Narrow(b, e).BadKeyLiteral?
    ensures Narrow(b, e).NoRow? ==>
      || IsNullKeyTest(e)
      || (IsBoundTest(e) && forall k: Key :: !KeyTest(e, k))
      || (IsPointTest(e) && forall k: Key :: AtPoint(b, k) ==> !KeyTest(e, k))
    ensures Narrow(b, e).Narrowed? ==>
      var b' := Narrow(b, e).bounds;
      && ShapeOk(b') && !IsNullKeyTest(e)
      && (forall k: Key :: InBounds(b', k) <==> InBounds(b, k) && (IsBoundTest(e) ==> KeyTest(e, k)))
      && (forall k: Key :: AtPoint(b', k) <==> AtPoint(b, k) && (IsPointTest(e) ==> KeyTest(e, k)))
      && (b'.point.Some? <==> b.point.Some? || IsPointTest(e))
  {
    if IsKeyTest(e) {
      var c := AsComparison(e).value;
      NarrowKeyExact(b, c.Oriented(), c.literal.value.n);
      assert forall k: Key :: KeyTest(e, k) == c.Oriented().Admits(CompareInts(k, c.literal.value.n));
    }
  }

  /** The loop computes exactly the conjunction of the key tests. */
  lemma {:induction false} NarrowAllExact(b: Bounds, conjuncts: seq<Expr>)
    requires ShapeOk(b)
    ensures NarrowAll(b, conjuncts).BadKeyLiteral? ==> exists e :: e in conjuncts && IsBadKeyTest(e)
    ensures NarrowAll(b, conjuncts).NoRow? ==>
      || (exists e :: e in conjuncts && IsNullKeyTest(e))
      || (forall k: Key :: !(AtPoint(b, k) && PassesBounds(conjuncts, k) && PassesPoints(conjuncts, k)))
    ensures NarrowAll(b, conjuncts).Narrowed? ==>
      var r := NarrowAll(b, conjuncts).bounds;
      && ShapeOk(r)
      && (forall e :: e in conjuncts ==> !IsNullKeyTest(e) && !IsBadKeyTest(e))
      && (forall k: Key :: InBounds(r, k) <==> InBounds(b, k) && PassesBounds(conjuncts, k))
      && (forall k: Key :: AtPoint(r, k) <==> AtPoint(b, k) && PassesPoints(conjuncts, k))
      && (r.point.Some? <==> b.point.Some? || exists e :: e in conjuncts && IsPointTest(e))
    decreases conjuncts
  {
    if conjuncts != [] {
      var e, rest := conjuncts[0], conjuncts[1..];
      assert conjuncts == [e] + rest;
      NarrowExact(b, e);
      match Narrow(b, e)
      case Narrowed(next) => NarrowAllExact(next, rest);
      case _ =>
    }
  }

  // ---------- The plan preserves the answer ----------

  /** The key range handed to storage; `get` reads [key, key + 1), or [key, oo) for the last key. */
  function PlanRange(plan: Plan): KeyRange
    requires !plan.EmptyPlan?
  {
    match plan
    case PointPlan(key) => KeyRange(Some(key), if key == INT64_MAX then None else Some(key + 1))
    case ScanPlan(range) => range
  }

  function PlannedRows(plan: Plan, rows: seq<Row>): seq<Row> {
    if plan.EmptyPlan? then [] else Filter(rows, PlanRange(plan).Has())
  }

  lemma {:induction false} AcceptedPassesKeyTests(condition: Expr, row: Row)
    requires EvaluatePredicate(condition, row) == Ok(true)
    ensures forall e :: e in Conjuncts(condition) ==> !IsNullKeyTest(e)
    ensures PassesBounds(Conjuncts(condition), row.key) && PassesPoints(Conjuncts(condition), row.key)
  {
    hide Evaluate, IsNullKeyTest;
    ConjunctsDecide(condition, row);
    forall e | e in Conjuncts(condition) ensures !IsNullKeyTest(e) && (IsKeyTest(e) ==> KeyTest(e, row.key)) {
      if IsNullKeyTest(e) { NullKeyTestNeverTrue(e, row); }
      if IsKeyTest(e) { KeyTestMeaning(e, row); }
    }
  }

  lemma {:induction false} AcceptedIsPlanned(condition: Expr, row: Row)
    requires PlanOf(Some(condition)).Ok? && EvaluatePredicate(condition, row) == Ok(true)
    ensures var plan := PlanOf(Some(condition)).value;
            !plan.EmptyPlan? && PlanRange(plan).Contains(row.key)
  {
    AcceptedPassesKeyTests(condition, row);
    NarrowAllExact(UNBOUNDED, Conjuncts(condition));
    assert AtPoint(UNBOUNDED, row.key) && InBounds(UNBOUNDED, row.key);
    var b := NarrowAll(UNBOUNDED, Conjuncts(condition));
    assert b.Narrowed? && InBounds(b.bounds, row.key) && AtPoint(b.bounds, row.key);
  }

  /** Reading only the planned range and filtering gives what filtering the whole table gives. */
  lemma {:induction false} PlanPreservesAnswer(condition: Option<Expr>, rows: seq<Row>)
    requires PlanOf(condition).Ok?
    ensures Filter(PlannedRows(PlanOf(condition).value, rows), Accepts(condition)) == Filter(rows, Accepts(condition))
  {
    var plan := PlanOf(condition).value;
    if condition.Some? {
      forall r | r in rows && Accepts(condition)(r)
        ensures !plan.EmptyPlan? && PlanRange(plan).Contains(r.key)
      {
        AcceptedIsPlanned(condition.value, r);
      }
    }
    if plan.EmptyPlan? {
      assert condition.Some?;
      FilterNone(rows, Accepts(condition));
    } else {
      FilterAbsorb(rows, PlanRange(plan).Has(), Accepts(condition));
    }
  }

  /** The plan is as narrow as the key tests allow, and a bounded range is never empty. */
  lemma {:induction false} PlanIsExact(condition: Option<Expr>)
    requires PlanOf(condition).Ok?
    ensures var plan, tests := PlanOf(condition).value, ConditionConjuncts(condition);
            match plan
            case EmptyPlan => (exists e :: e in tests && IsNullKeyTest(e))
                              || forall k: Key :: !(PassesBounds(tests, k) && PassesPoints(tests, k))
            case PointPlan(key) => (exists e :: e in tests && IsPointTest(e))
                                   && forall k: Key :: PassesPoints(tests, k) <==> k == key
            case ScanPlan(range) => (forall k: Key :: range.Contains(k) <==> PassesBounds(tests, k))
                                    && (forall e :: e in tests ==> !IsPointTest(e) && !IsNullKeyTest(e))
                                    && (range.from.Some? && range.to.Some? ==> range.from.value < range.to.value)
  {
    var tests := ConditionConjuncts(condition);
    NarrowAllExact(UNBOUNDED, tests);
    match NarrowAll(UNBOUNDED, tests) {
      case Narrowed(b) =>
        assert forall k: Key :: InBounds(UNBOUNDED, k) && AtPoint(UNBOUNDED, k);
        if b.point.Some? {
          assert forall k: Key :: PassesPoints(tests, k) <==> AtPoint(b, k);
        } else if PlanOf(condition).value.EmptyPlan? {
          assert forall k: Key :: !InBounds(b, k);
        } else {
          assert KeyRange(b.from, b.to) == PlanOf(condition).value.range || !b.ranged;
          assert forall k: Key :: InBounds(b, k) <==> PassesBounds(tests, k);
        }
      case NoRow =>
        assert forall k: Key :: AtPoint(UNBOUNDED, k);
      case BadKeyLiteral =>
    }
  }

  /** A test that no key passes: `key > 2^63 - 1`. */
  predicate IsHopeless(e: Expr) {
    IsKeyTest(e) && AsComparison(e).value.Oriented().Greater? && AsComparison(e).value.literal.value.n == INT64_MAX
  }

  function PinnedKey(e: Expr): Key
    requires IsPointTest(e)
  {
    AsComparison(e).value.literal.value.n
  }

  /** Nothing in these conjuncts stops the loop: no NULL, no bad literal, no hopeless test, no two pinned keys. */
  ghost predicate Passable(b: Bounds, conjuncts: seq<Expr>) {
    && (forall e :: e in conjuncts ==> !IsNullKeyTest(e) && !IsBadKeyTest(e) && !IsHopeless(e))
    && (forall e :: e in conjuncts && IsPointTest(e) ==> AtPoint(b, PinnedKey(e)))
    && (forall e, f ::
          e in conjuncts && f in conjuncts && IsPointTest(e) && IsPointTest(f) ==> PinnedKey(e) == PinnedKey(f))
  }

  lemma {:induction false} NarrowStep(b: Bounds, e: Expr)
    ensures Narrow(b, e).BadKeyLiteral? <==> IsBadKeyTest(e)
    ensures Narrow(b, e).Narrowed? <==>
            !IsNullKeyTest(e) && !IsBadKeyTest(e) && !IsHopeless(e) && (IsPointTest(e) ==> AtPoint(b, PinnedKey(e)))
    ensures Narrow(b, e).Narrowed? ==>
              Narrow(b, e).bounds.point == if IsPointTest(e) then Some(PinnedKey(e)) else b.point
  {
  }

  /** The loop runs through exactly when nothing stops it. */
  lemma {:induction false} NarrowsExactly(b: Bounds, conjuncts: seq<Expr>)
    ensures NarrowAll(b, conjuncts).Narrowed? <==> Passable(b, conjuncts)
    decreases conjuncts
  {
    hide Narrow, IsNullKeyTest, IsBadKeyTest, IsHopeless, IsPointTest, PinnedKey;
    if conjuncts != [] {
      var e, rest := conjuncts[0], conjuncts[1..];
      assert conjuncts == [e] + rest && forall x :: x in conjuncts <==> x == e || x in rest;
      NarrowStep(b, e);
      match Narrow(b, e)
      case Narrowed(next) => NarrowsExactly(next, rest);
      case _ => assert e in conjuncts;
    }
  }

  /** Planning throws exactly on a key comparison with a non-integer literal that nothing in front of it stops. */
  lemma {:induction false} BadLiteralReached(b: Bounds, conjuncts: seq<Expr>)
    ensures NarrowAll(b, conjuncts).BadKeyLiteral? <==>
            exists i :: 0 <= i < |conjuncts| && IsBadKeyTest(conjuncts[i]) && Passable(b, conjuncts[..i])
    decreases conjuncts
  {
    hide Narrow, IsBadKeyTest, Passable;
    if conjuncts != [] {
      var e, rest := conjuncts[0], conjuncts[1..];
      NarrowStep(b, e);
      forall i | 0 <= i <= |conjuncts| ensures NarrowAll(b, conjuncts[..i]).Narrowed? <==> Passable(b, conjuncts[..i]) {
        NarrowsExactly(b, conjuncts[..i]);
      }
      forall i | 0 < i <= |conjuncts| ensures conjuncts[..i][0] == e && conjuncts[..i][1..] == rest[..i - 1] {}
      match Narrow(b, e)
      case Narrowed(next) =>
        BadLiteralReached(next, rest);
        forall i | 0 < i < |conjuncts|
          ensures conjuncts[i] == rest[i - 1] && (Passable(b, conjuncts[..i]) <==> Passable(next, rest[..i - 1]))
        {
          NarrowsExactly(next, rest[..i - 1]);
        }
        if NarrowAll(next, rest).BadKeyLiteral? {
          var i :| 0 <= i < |rest| && IsBadKeyTest(rest[i]) && Passable(next, rest[..i]);
          assert conjuncts[i + 1] == rest[i] && Passable(b, conjuncts[..i + 1]);
        }
      case NoRow =>
        forall i | 0 < i < |conjuncts| ensures !Passable(b, conjuncts[..i]) {}
      case BadKeyLiteral =>
        assert Passable(b, conjuncts[..0]) && IsBadKeyTest(conjuncts[0]);
    }
  }

  /** `key > 1.5` evaluates on every row, yet the planner throws on it. */
  lemma {:induction false} DoubleKeyLiteralThrows(bits: U64, row: Row)
    ensures var condition := Binary(Greater, Column(0), Literal(Some(Double(bits))));
            PlanOf(Some(condition)).Err? && EvaluatePredicate(condition, row).Ok?
  {
    var condition := Binary(Greater, Column(0), Literal(Some(Double(bits))));
    assert Conjuncts(condition) == [condition];
    assert Narrow(UNBOUNDED, condition) == BadKeyLiteral;
    assert Evaluate(Column(0), row) == Ok(Some(Data(Int(row.key))));
    assert Evaluate(Literal(Some(Double(bits))), row) == Ok(Some(Data(Double(bits))));
  }

  // ---------- The data-skipping filter ----------

  type NumericValue = v: Value | v.Int? || v.Double? witness Int(0)

  predicate IsSkippable(op: BinaryOp) { op.IsComparison() && !op.NotEqual? }

  type SkipOp = op: BinaryOp | IsSkippable(op) witness Equal

  datatype NumericPredicate = NumericPredicate(column: nat, op: SkipOp, value: NumericValue)

  predicate PredicateFits(p: NumericPredicate, schema: Schema) {
    0 < p.column <= |schema| && !schema[p.column - 1].STRING?
  }

  function PredicateOf(e: Expr, schema: Schema): (p: Option<NumericPredicate>)
    ensures p.Some? ==> PredicateFits(p.value, schema)
  {
    match AsComparison(e)
    case None => None
    case Some(c) =>
      if IsSkippable(c.op) && c.literal.Some? && !c.literal.value.Str?
         && 0 < c.column <= |schema| && !schema[c.column - 1].STRING?
      then Some(NumericPredicate(c.column, c.Oriented(), c.literal.value))
      else None
  }

  /** A conjunct gives a predicate iff it compares a column of numbers with a number, on either side, not by `!=`. */
  lemma {:induction false} PredicateOfExactly(e: Expr, schema: Schema, p: NumericPredicate)
    ensures PredicateOf(e, schema) == Some(p) <==>
            && 0 < p.column <= |schema| && (schema[p.column - 1] == INT64 || schema[p.column - 1] == DOUBLE)
            && (|| e == Binary(p.op, Column(p.column), Literal(Some(p.value)))
                || e == Binary(Reverse(p.op), Literal(Some(p.value)), Column(p.column)))
  {
  }

  function FilterOf(conjuncts: seq<Expr>, schema: Schema): (filter: seq<NumericPredicate>)
    ensures forall p :: p in filter ==> PredicateFits(p, schema)
  {
    if conjuncts == [] then []
    else
      var rest := FilterOf(conjuncts[1..], schema);
      var first := PredicateOf(conjuncts[0], schema);
      if first.Some? then [first.value] + rest else rest
  }

  lemma {:induction false} InFilterOf(conjuncts: seq<Expr>, schema: Schema, p: NumericPredicate)
    ensures p in FilterOf(conjuncts, schema) <==> exists e :: e in conjuncts && PredicateOf(e, schema) == Some(p)
  {
    hide PredicateOf;
    if conjuncts != [] {
      InFilterOf(conjuncts[1..], schema, p);
      assert forall e :: e in conjuncts <==> e == conjuncts[0] || e in conjuncts[1..];
    }
  }

  /** BuildDataSkippingFilter: one pass over the conjuncts, appending to the filter. */
  method BuildDataSkippingFilter(condition: Option<Expr>, schema: Schema) returns (filter: seq<NumericPredicate>)
    ensures filter == FilterOf(ConditionConjuncts(condition), schema)
  {
    hide PredicateOf, PredicateFits;
    filter := [];
    if condition.None? { return; }
    var conjuncts := CollectConjuncts(condition.value, []);
    for i := 0 to |conjuncts|
      invariant filter + FilterOf(conjuncts[i..], schema) == FilterOf(conjuncts, schema)
    {
      assert conjuncts[i..][1..] == conjuncts[i + 1..];
      var p := PredicateOf(conjuncts[i], schema);
      if p.Some? { filter := filter + [p.value]; }
    }
  }

  /** A predicate of the filter on one row: NULL satisfies none. */
  predicate PredicateHolds(p: NumericPredicate, row: Row) {
    && row.HasColumn(p.column) && row.Column(p.column).Some?
    && CompareValues(row.Column(p.column).value, p.value).Ok?
    && p.op.Admits(CompareValues(row.Column(p.column).value, p.value).value)
  }

  lemma {:induction false} CompareReversed(a: NumericValue, b: NumericValue)
    ensures CompareValues(a, b).Ok? && CompareValues(b, a) == Ok(-CompareValues(a, b).value)
  {
  }

  /** The filter's predicate is true of a row exactly when the conjunct it came from is. */
  lemma {:induction false} PredicateMeaning(e: Expr, schema: Schema, row: Row)
    requires PredicateOf(e, schema).Some? && RowFits(row, schema)
    ensures Evaluate(e, row) == TRUE <==> PredicateHolds(PredicateOf(e, schema).value, row)
  {
    var c := AsComparison(e).value;
    var cell := row.Column(c.column);
    assert CellFits(row.cells[c.column - 1], schema[c.column - 1]);
    if cell.Some? { CompareReversed(cell.value, c.literal.value); }
    if c.columnOnLeft {
      assert e == Binary(c.op, Column(c.column), Literal(c.literal));
    } else {
      assert e == Binary(c.op, Literal(c.literal), Column(c.column));
    }
  }

  lemma {:induction false} AcceptedConjunct(condition: Expr, row: Row, e: Expr)
    requires EvaluatePredicate(condition, row) == Ok(true) && e in Conjuncts(condition)
    ensures Evaluate(e, row) == TRUE
  {
    ConjunctsDecide(condition, row);
  }

  /** An accepted row satisfies every predicate of the filter. */
  lemma {:induction false} AcceptedPassesFilter(condition: Option<Expr>, schema: Schema, row: Row)
    requires RowFits(row, schema) && Accepts(condition)(row)
    ensures forall p :: p in FilterOf(ConditionConjuncts(condition), schema) ==> PredicateHolds(p, row)
  {
    var conjuncts := ConditionConjuncts(condition);
    forall p | p in FilterOf(conjuncts, schema)
      ensures PredicateHolds(p, row)
    {
      InFilterOf(conjuncts, schema, p);
      var e :| e in conjuncts && PredicateOf(e, schema) == Some(p);
      assert Evaluate(e, row) == TRUE by { AcceptedConjunct(condition.value, row, e); }
      PredicateMeaning(e, schema, row);
    }
  }
}
