/**
 What the operators of expressions mean, in plain terms: three-valued logic for the connectives, the usual relations
 on integers, numbers, texts and truth values for the comparisons.
 */
module Meaning {
  import opened Storage
  import opened Doubles
  import opened Expressions

  // ---------- Leaves ----------

  /** Column 0 is the key, the others are the cells; a column that the row does not have throws. */
  lemma {:induction false} LeavesMean(literal: Cell, index: nat, row: Row)
    ensures Evaluate(Literal(literal), row).Ok? && (Evaluate(Literal(literal), row).value.None? <==> literal.None?)
    ensures literal.Some? ==> Evaluate(Literal(literal), row) == Ok(Some(Data(literal.value)))
    ensures Evaluate(Column(0), row) == Ok(Some(Data(Int(row.key))))
    ensures index > |row.cells| ==> Evaluate(Column(index), row).Err?
    ensures 0 < index <= |row.cells| && row.cells[index - 1].None? ==> Evaluate(Column(index), row) == Ok(None)
    ensures 0 < index <= |row.cells| && row.cells[index - 1].Some?
            ==> Evaluate(Column(index), row) == Ok(Some(Data(row.cells[index - 1].value)))
  {
  }

  // ---------- Logic with NULL ----------

  const YES: Nullable := Some(Bool(true))
  const NO: Nullable := Some(Bool(false))

  /** TRUE, FALSE or NULL. */
  predicate IsTruth(v: Nullable) { v == YES || v == NO || v == None }

  /** OR is TRUE iff an operand is, FALSE iff both are, and NULL otherwise; AND the other way round. */
  lemma {:induction false} ConnectivesMean(x: Expr, y: Expr, row: Row, a: Nullable, b: Nullable)
    requires Evaluate(x, row) == Ok(a) && Evaluate(y, row) == Ok(b) && IsTruth(a) && IsTruth(b)
    ensures var either := Evaluate(Binary(Or, x, y), row);
            && either.Ok? && IsTruth(either.value)
            && (either.value == YES <==> a == YES || b == YES) && (either.value == NO <==> a == NO && b == NO)
    ensures var both := Evaluate(Binary(And, x, y), row);
            && both.Ok? && IsTruth(both.value)
            && (both.value == YES <==> a == YES && b == YES) && (both.value == NO <==> a == NO || b == NO)
  {
  }

  /**
   Both operands are evaluated first; then a left operand that is no truth value throws, and a right one unless
   the left one decides.
   */
  lemma {:induction false} ConnectivesThrow(x: Expr, y: Expr, row: Row)
    ensures Evaluate(Binary(Or, x, y), row).Err?
            <==> var a, b := Evaluate(x, row), Evaluate(y, row);
            || a.Err? || b.Err? || !IsTruth(a.value) || (a.value != YES && !IsTruth(b.value))
    ensures Evaluate(Binary(And, x, y), row).Err?
            <==> var a, b := Evaluate(x, row), Evaluate(y, row);
            || a.Err? || b.Err? || !IsTruth(a.value) || (a.value != NO && !IsTruth(b.value))
  {
  }

  /** NOT swaps TRUE and FALSE, keeps NULL, and throws on anything else. */
  lemma {:induction false} NotMeans(x: Expr, row: Row)
    ensures Evaluate(Expr.Not(x), row) == Ok(YES) <==> Evaluate(x, row) == Ok(NO)
    ensures Evaluate(Expr.Not(x), row) == Ok(NO) <==> Evaluate(x, row) == Ok(YES)
    ensures Evaluate(Expr.Not(x), row) == Ok(None) <==> Evaluate(x, row) == Ok(None)
    ensures Evaluate(Expr.Not(x), row).Ok? ==> IsTruth(Evaluate(Expr.Not(x), row).value)
  {
  }

  lemma {:induction false} IsNullMeans(x: Expr, row: Row)
    ensures Evaluate(x, row).Err? ==> Evaluate(IsNull(x, false), row).Err? && Evaluate(IsNull(x, true), row).Err?
    ensures Evaluate(x, row) == Ok(None)
            ==> Evaluate(IsNull(x, false), row) == Ok(YES) && Evaluate(IsNull(x, true), row) == Ok(NO)
    ensures Evaluate(x, row).Ok? && Evaluate(x, row).value.Some?
            ==> Evaluate(IsNull(x, false), row) == Ok(NO) && Evaluate(IsNull(x, true), row) == Ok(YES)
  {
  }

  /** WHERE keeps the rows on which the condition is TRUE: neither FALSE nor NULL. */
  lemma {:induction false} AcceptsMeans(condition: Option<Expr>, row: Row)
    ensures Accepts(condition)(row) <==> condition == None || Evaluate(condition.value, row) == Ok(YES)
    ensures condition.Some? ==>
              (EvaluatePredicate(condition.value, row).Ok?
               <==> Evaluate(condition.value, row).Ok? && IsTruth(Evaluate(condition.value, row).value))
    ensures condition.Some? && EvaluatePredicate(condition.value, row).Ok? ==>
              (EvaluatePredicate(condition.value, row).value <==> Evaluate(condition.value, row) == Ok(YES))
  {
  }

  // ---------- Comparisons ----------

  /** What the six comparisons of x and y say, given which relations hold between their values. */
  ghost predicate Compared(x: Expr, y: Expr, row: Row, below: bool, same: bool, above: bool) {
    && Evaluate(Binary(Less, x, y), row) == Ok(Some(Bool(below)))
    && Evaluate(Binary(Greater, x, y), row) == Ok(Some(Bool(above)))
    && Evaluate(Binary(Equal, x, y), row) == Ok(Some(Bool(same)))
    && Evaluate(Binary(NotEqual, x, y), row) == Ok(Some(Bool(!same)))
    && Evaluate(Binary(LessEqual, x, y), row) == Ok(Some(Bool(below || same)))
    && Evaluate(Binary(GreaterEqual, x, y), row) == Ok(Some(Bool(above || same)))
  }

  /** A comparison looks at the sign of the three-way comparison only. */
  lemma {:induction false} ComparedBy(x: Expr, y: Expr, row: Row, a: ResultValue, b: ResultValue, sign: int)
    requires Evaluate(x, row) == Ok(Some(a)) && Evaluate(y, row) == Ok(Some(b)) && Compare(a, b) == Ok(sign)
    ensures Compared(x, y, row, sign < 0, sign == 0, sign > 0)
  {
    hide Compare;
  }

  lemma {:induction false} IntegersCompare(x: Expr, y: Expr, row: Row, a: Key, b: Key)
    requires Evaluate(x, row) == Ok(Some(Data(Int(a)))) && Evaluate(y, row) == Ok(Some(Data(Int(b))))
    ensures Compared(x, y, row, a < b, a == b, a > b)
  {
    hide Compared, Evaluate;
    ComparedBy(x, y, row, Data(Int(a)), Data(Int(b)), CompareInts(a, b));
  }

  /** The pattern of a double or, for an integer, of the double that it converts to. */
  function AsDouble(v: Value): U64
    requires !v.Str?
  {
    if v.Int? then FromInt(v.n) else v.bits
  }

  /**
   As soon as one side is a double, the numbers that the doubles stand for are compared; a NaN compares equal
   to all of them.
   */
  lemma {:induction false} DoublesCompare(x: Expr, y: Expr, row: Row, a: Value, b: Value)
    requires Evaluate(x, row) == Ok(Some(Data(a))) && Evaluate(y, row) == Ok(Some(Data(b)))
    requires !a.Str? && !b.Str? && (a.Double? || b.Double?)
    ensures !IsNaN(AsDouble(a)) && !IsNaN(AsDouble(b)) ==>
              var p, q := Number(AsDouble(a)), Number(AsDouble(b));
              Compared(x, y, row, p < q, p == q, p > q)
    ensures IsNaN(AsDouble(a)) || IsNaN(AsDouble(b)) ==> Compared(x, y, row, false, true, false)
  {
    hide Compared, Evaluate, FromInt, IsNaN, Doubles.Order, Number;
    OrderIsNumeric(AsDouble(a), AsDouble(b));
    OrderIsNumeric(AsDouble(b), AsDouble(a));
    ComparedBy(x, y, row, Data(a), Data(b), CompareDoubles(AsDouble(a), AsDouble(b)));
  }

  /** A proper prefix, or a smaller byte at the first difference. */
  ghost predicate Precedes(a: seq<Byte>, b: seq<Byte>) { exists k :: PrecedesAt(a, b, k) }

  predicate PrecedesAt(a: seq<Byte>, b: seq<Byte>, k: nat) {
    k <= |a| && k < |b| && a[..k] == b[..k] && (k < |a| ==> a[k] < b[k])
  }

  /** Where the texts part, which decides how they compare. */
  lemma {:induction false} FirstDifference(a: seq<Byte>, b: seq<Byte>) returns (k: nat)
    ensures k <= |a| && k <= |b| && a[..k] == b[..k] && (k == |a| || k == |b| || a[k] != b[k])
    ensures CompareBytes(a, b) < 0 <==> k < |b| && (k < |a| ==> a[k] < b[k])
    ensures CompareBytes(a, b) == 0 <==> k == |a| && k == |b|
    ensures CompareBytes(a, b) > 0 <==> k < |a| && (k < |b| ==> b[k] < a[k])
  {
    k := 0;
    if a != [] && b != [] && a[0] == b[0] {
      var tail := FirstDifference(a[1..], b[1..]);
      k := tail + 1;
      assert a[..k] == [a[0]] + a[1..][..tail] && b[..k] == [b[0]] + b[1..][..tail];
    }
  }

  /** No place before or behind the first difference can decide. */
  lemma {:induction false} PrecedesThere(a: seq<Byte>, b: seq<Byte>, k: nat, other: nat)
    requires k <= |a| && k <= |b| && a[..k] == b[..k] && (k == |a| || k == |b| || a[k] != b[k])
    requires PrecedesAt(a, b, other)
    ensures other == k
  {
    assert forall i :: 0 <= i < k ==> a[..k][i] == b[..k][i];
    assert forall i :: 0 <= i < other ==> a[..other][i] == b[..other][i];
  }

  lemma {:induction false} BytesMean(a: seq<Byte>, b: seq<Byte>)
    ensures CompareBytes(a, b) < 0 <==> Precedes(a, b)
    ensures CompareBytes(a, b) == 0 <==> a == b
    ensures CompareBytes(a, b) > 0 <==> Precedes(b, a)
  {
    hide CompareBytes;
    var k := FirstDifference(a, b);
    assert k == |a| && k == |b| ==> a[..k] == a && b[..k] == b;
    if CompareBytes(a, b) < 0 { assert PrecedesAt(a, b, k); }
    if CompareBytes(a, b) > 0 { assert PrecedesAt(b, a, k); }
    if Precedes(a, b) {
      var other :| PrecedesAt(a, b, other);
      PrecedesThere(a, b, k, other);
    }
    if Precedes(b, a) {
      var other :| PrecedesAt(b, a, other);
      PrecedesThere(b, a, k, other);
    }
  }

  lemma {:induction false} TextsCompare(x: Expr, y: Expr, row: Row, a: seq<Byte>, b: seq<Byte>)
    requires Evaluate(x, row) == Ok(Some(Data(Str(a)))) && Evaluate(y, row) == Ok(Some(Data(Str(b))))
    ensures Compared(x, y, row, Precedes(a, b), a == b, Precedes(b, a))
  {
    hide CompareBytes, Precedes, Compared, Evaluate;
    BytesMean(a, b);
    ComparedBy(x, y, row, Data(Str(a)), Data(Str(b)), CompareBytes(a, b));
  }

  /** FALSE is below TRUE. */
  lemma {:induction false} TruthsCompare(x: Expr, y: Expr, row: Row, a: bool, b: bool)
    requires Evaluate(x, row) == Ok(Some(Bool(a))) && Evaluate(y, row) == Ok(Some(Bool(b)))
    ensures Compared(x, y, row, !a && b, a == b, a && !b)
  {
    hide Compared, Evaluate;
    ComparedBy(x, y, row, Bool(a), Bool(b), if a == b then 0 else if a then 1 else -1);
  }

  /** A comparison with NULL is NULL; one across texts, numbers and truth values throws. */
  lemma {:induction false} OthersCompare(op: BinaryOp, x: Expr, y: Expr, row: Row)
    requires op != And && op != Or
    ensures Evaluate(x, row).Err? || Evaluate(y, row).Err? ==> Evaluate(Binary(op, x, y), row).Err?
    ensures Evaluate(x, row).Ok? && Evaluate(y, row).Ok? ==>
              var a, b := Evaluate(x, row).value, Evaluate(y, row).value;
              && (a.None? || b.None? ==> Evaluate(Binary(op, x, y), row) == Ok(None))
              && (a.Some? && b.Some? ==>
                    (Evaluate(Binary(op, x, y), row).Ok? <==> Comparable(a.value, b.value)))
  {
  }

  /** Two truth values, two texts, or two numbers. */
  predicate Comparable(a: ResultValue, b: ResultValue) {
    || (a.Bool? && b.Bool?)
    || (a.Data? && b.Data? && (a.value.Str? <==> b.value.Str?))
  }

  // ---------- One relation for all values ----------

  /** A smaller integer or number, an earlier text; nothing is below or above a NaN. */
  ghost predicate BelowValue(v: Value, w: Value) {
    if v.Str? then w.Str? && Precedes(v.bytes, w.bytes)
    else if v.Int? && w.Int? then v.n < w.n
    else if w.Str? then false
    else
      var d, e := AsDouble(v), AsDouble(w);
      !IsNaN(d) && !IsNaN(e) && Number(d) < Number(e)
  }

  /** The same integer or text, or doubles of the same number; a NaN is the same as every number. */
  ghost predicate SameValue(v: Value, w: Value) {
    if v.Str? || w.Str? || (v.Int? && w.Int?) then v == w
    else
      var d, e := AsDouble(v), AsDouble(w);
      IsNaN(d) || IsNaN(e) || Number(d) == Number(e)
  }

  /** FALSE is below TRUE. */
  ghost predicate Below(a: ResultValue, b: ResultValue) {
    if a.Data? then b.Data? && BelowValue(a.value, b.value) else b.Bool? && !a.b && b.b
  }

  ghost predicate Same(a: ResultValue, b: ResultValue) {
    if a.Data? && b.Data? then SameValue(a.value, b.value) else a == b
  }

  lemma {:induction false} NumbersMean(v: Value, w: Value)
    requires !v.Str? && !w.Str? && (v.Double? || w.Double?)
    ensures BelowValue(v, w) <==> CompareDoubles(AsDouble(v), AsDouble(w)) < 0
    ensures SameValue(v, w) <==> CompareDoubles(AsDouble(v), AsDouble(w)) == 0
  {
    hide FromInt, IsNaN, Doubles.Order, AsDouble, Number;
    OrderIsNumeric(AsDouble(v), AsDouble(w));
    OrderIsNumeric(AsDouble(w), AsDouble(v));
  }

  lemma {:induction false} ValuesMean(v: Value, w: Value)
    requires v.Str? <==> w.Str?
    ensures CompareValues(v, w).Ok?
    ensures CompareValues(v, w).value < 0 <==> BelowValue(v, w)
    ensures CompareValues(v, w).value == 0 <==> SameValue(v, w)
    ensures CompareValues(v, w).value > 0 <==> BelowValue(w, v)
  {
    hide CompareBytes, Precedes, FromInt, IsNaN, Number, CompareDoubles;
    if v.Str? {
      BytesMean(v.bytes, w.bytes);
    } else if v.Double? || w.Double? {
      NumbersMean(v, w);
      NumbersMean(w, v);
      DoublesReverse(AsDouble(v), AsDouble(w));
    }
  }

  lemma {:induction false} DoublesReverse(a: U64, b: U64)
    ensures CompareDoubles(a, b) == -CompareDoubles(b, a)
  {
  }

  lemma {:induction false} CompareMeans(a: ResultValue, b: ResultValue)
    requires Comparable(a, b)
    ensures Compare(a, b).Ok?
    ensures Compare(a, b).value < 0 <==> Below(a, b)
    ensures Compare(a, b).value == 0 <==> Same(a, b)
    ensures Compare(a, b).value > 0 <==> Below(b, a)
  {
    hide CompareBytes, Precedes, FromInt, IsNaN, Number, CompareDoubles;
    if a.Data? {
      ValuesMean(a.value, b.value);
    }
  }

  /** Every comparison of two values that can be compared holds iff the relation on the values does. */
  lemma {:induction false} ComparisonsMean(x: Expr, y: Expr, row: Row, a: ResultValue, b: ResultValue)
    requires Evaluate(x, row) == Ok(Some(a)) && Evaluate(y, row) == Ok(Some(b)) && Comparable(a, b)
    ensures Compared(x, y, row, Below(a, b), Same(a, b), Below(b, a))
  {
    hide Compared, Evaluate, Below, Same, Compare;
    CompareMeans(a, b);
    ComparedBy(x, y, row, a, b, Compare(a, b).value);
  }
}
