/** SELECT with GROUP BY: the validation of its items, the group map, and what the output depends on. */
module Grouping {
  import opened Seqs
  import opened Storage
  import opened Doubles
  import opened Expressions
  import opened Ordering
  import opened PlainSelect
  import opened Aggregates

  datatype SelectItem = Plain(e: Expr) | Aggregated(a: Aggregate, e: Expr)

  datatype GroupedQuery =
    GroupedQuery(condition: Option<Expr>, items: seq<SelectItem>, groupBy: seq<Expr>, order: seq<OrderItem>,
                 limit: Option<nat>)

  // ---------- Validation ----------

  /** Equality of literal values: doubles by `==`. */
  predicate EqualLiterals(a: Cell, b: Cell) {
    if a.Some? && b.Some? && a.value.Double? && b.value.Double?
    then !IsNaN(a.value.bits) && !IsNaN(b.value.bits) && Order(a.value.bits) == Order(b.value.bits)
    else a == b
  }

  /** AreEquivalentExpressions. */
  predicate AreEquivalent(l: Expr, r: Expr) {
    match (l, r)
    case (Literal(a), Literal(b)) => EqualLiterals(a, b)
    case (Column(i), Column(j)) => i == j
    case (Not(a), Not(b)) => AreEquivalent(a, b)
    case (Binary(o, a, b), Binary(p, c, d)) => o == p && AreEquivalent(a, c) && AreEquivalent(b, d)
    case (IsNull(a, m), IsNull(b, n)) => m == n && AreEquivalent(a, b)
    case _ => false
  }

  /** The same tree with positive zeros for negative ones. */
  function WithoutNegativeZeros(e: Expr): Expr {
    match e
    case Literal(Some(Double(bits))) => if bits == SIGN_BIT then Literal(Some(Double(0))) else e
    case Literal(_) => e
    case Column(_) => e
    case Not(operand) => Not(WithoutNegativeZeros(operand))
    case Binary(op, left, right) => Binary(op, WithoutNegativeZeros(left), WithoutNegativeZeros(right))
    case IsNull(operand, negated) => IsNull(WithoutNegativeZeros(operand), negated)
  }

  predicate HasNaNLiteral(e: Expr) {
    match e
    case Literal(literal) => literal.Some? && literal.value.Double? && IsNaN(literal.value.bits)
    case Column(_) => false
    case Not(operand) => HasNaNLiteral(operand)
    case Binary(_, left, right) => HasNaNLiteral(left) || HasNaNLiteral(right)
    case IsNull(operand, _) => HasNaNLiteral(operand)
  }

  /** The binder's equivalence: the same tree but for the signs of zeros, and without NaN literals. */
  lemma {:induction false} EquivalentExactly(l: Expr, r: Expr)
    ensures AreEquivalent(l, r) <==> WithoutNegativeZeros(l) == WithoutNegativeZeros(r) && !HasNaNLiteral(l)
  {
    match (l, r) {
      case (Literal(a), Literal(b)) => LiteralsExactly(a, b);
      case (Not(a), Not(b)) => EquivalentExactly(a, b);
      case (Binary(_, a, b), Binary(_, c, d)) =>
        EquivalentExactly(a, c);
        EquivalentExactly(b, d);
      case (IsNull(a, _), IsNull(b, _)) => EquivalentExactly(a, b);
      case _ =>
    }
  }

  lemma {:induction false} LiteralsExactly(a: Cell, b: Cell)
    ensures EqualLiterals(a, b) <==> WithoutNegativeZeros(Literal(a)) == WithoutNegativeZeros(Literal(b))
                                     && !HasNaNLiteral(Literal(a))
  {
  }

  predicate AllAggregated(q: GroupedQuery) { forall i :: 0 <= i < |q.items| ==> q.items[i].Aggregated? }
  predicate AllPlain(q: GroupedQuery) { forall i :: 0 <= i < |q.items| ==> q.items[i].Plain? }

  predicate InGroupBy(q: GroupedQuery, e: Expr) { exists j :: 0 <= j < |q.groupBy| && AreEquivalent(e, q.groupBy[j]) }

  /** A statement with GROUP BY every plain item of which is equivalent to a grouping item. */
  predicate Validated(q: GroupedQuery) {
    q.groupBy != [] && forall i :: 0 <= i < |q.items| && q.items[i].Plain? ==> InGroupBy(q, q.items[i].e)
  }

  /** An item that is the same tree as a GROUP BY item, but for the signs of zeros, and without NaN literals. */
  ghost predicate StandsInGroupBy(q: GroupedQuery, e: Expr) {
    !HasNaNLiteral(e) && exists g :: g in q.groupBy && WithoutNegativeZeros(g) == WithoutNegativeZeros(e)
  }

  /** What the validation of a statement with GROUP BY asks of its plain items. */
  lemma {:induction false} ValidatedExactly(q: GroupedQuery)
    ensures Validated(q) <==>
            q.groupBy != [] && forall i :: 0 <= i < |q.items| && q.items[i].Plain? ==> StandsInGroupBy(q, q.items[i].e)
    ensures q.groupBy != [] && (forall i :: 0 <= i < |q.items| && q.items[i].Plain? ==>
                                  q.items[i].e in q.groupBy && !HasNaNLiteral(q.items[i].e))
            ==> Validated(q)
  {
    hide AreEquivalent, WithoutNegativeZeros, HasNaNLiteral;
    forall e ensures InGroupBy(q, e) <==> StandsInGroupBy(q, e) {
      forall j | 0 <= j < |q.groupBy|
        ensures AreEquivalent(e, q.groupBy[j])
                <==> WithoutNegativeZeros(q.groupBy[j]) == WithoutNegativeZeros(e) && !HasNaNLiteral(e)
      {
        EquivalentExactly(e, q.groupBy[j]);
      }
      if StandsInGroupBy(q, e) {
        var g :| g in q.groupBy && WithoutNegativeZeros(g) == WithoutNegativeZeros(e);
        var j :| 0 <= j < |q.groupBy| && q.groupBy[j] == g;
        assert AreEquivalent(e, q.groupBy[j]);
      }
    }
    forall i | 0 <= i < |q.items| && q.items[i].e in q.groupBy && !HasNaNLiteral(q.items[i].e)
      ensures StandsInGroupBy(q, q.items[i].e)
    {
    }
  }

  method HasAggregates(q: GroupedQuery) returns (has: bool)
    ensures has <==> !AllPlain(q)
  {
    for i := 0 to |q.items|
      invariant forall k :: 0 <= k < i ==> q.items[k].Plain?
    {
      if q.items[i].Aggregated? { return true; }
    }
    return false;
  }

  /** ValidateGroupedSelect: without GROUP BY, either no item is an aggregate or every item is. */
  method ValidateGroupedSelect(q: GroupedQuery) returns (ok: bool)
    ensures ok <==> Validated(q) || (q.groupBy == [] && (AllPlain(q) || AllAggregated(q)))
  {
    var has := HasAggregates(q);
    if !has && q.groupBy == [] { return true; }
    if has && q.groupBy == [] {
      for i := 0 to |q.items|
        invariant forall k :: 0 <= k < i ==> q.items[k].Aggregated?
      {
        if q.items[i].Plain? { return false; }
      }
      return true;
    }
    for i := 0 to |q.items|
      invariant forall k :: 0 <= k < i && q.items[k].Plain? ==> InGroupBy(q, q.items[k].e)
    {
      if q.items[i].Aggregated? { continue; }
      var found := false;
      for j := 0 to |q.groupBy|
        invariant !found && forall k :: 0 <= k < j ==> !AreEquivalent(q.items[i].e, q.groupBy[k])
      {
        if AreEquivalent(q.items[i].e, q.groupBy[j]) {
          found := true;
          break;
        }
      }
      if !found { return false; }
    }
    return true;
  }

  /** Both zeros as the positive one. */
  function Canon(v: Nullable): Nullable { if IsDouble(v) && BitsOf(v) == SIGN_BIT then Some(Data(Double(0))) else v }

  /** The same value, or the two zeros. */
  predicate Alike(a: Nullable, b: Nullable) { Canon(a) == Canon(b) }

  lemma {:induction false} AlikeCompare(a: ResultValue, b: ResultValue, c: ResultValue, d: ResultValue)
    requires Alike(Some(a), Some(c)) && Alike(Some(b), Some(d))
    ensures Compare(a, b) == Compare(c, d)
  {
  }

  /** Equivalent expressions evaluate alike on every row, and throw together. */
  lemma {:induction false} EquivalentEvaluate(l: Expr, r: Expr, row: Row)
    requires AreEquivalent(l, r)
    ensures Evaluate(l, row).Ok? <==> Evaluate(r, row).Ok?
    ensures Evaluate(l, row).Ok? ==> Alike(Evaluate(l, row).value, Evaluate(r, row).value)
  {
    hide Compare;
    match (l, r) {
      case (Literal(_), Literal(_)) =>
      case (Column(_), Column(_)) =>
      case (Not(a), Not(b)) => EquivalentEvaluate(a, b, row);
      case (Binary(o, a, b), Binary(_, c, d)) =>
        EquivalentEvaluate(a, c, row);
        EquivalentEvaluate(b, d, row);
        var x, y := Evaluate(a, row), Evaluate(b, row);
        if x.Ok? && y.Ok? && x.value.Some? && y.value.Some? {
          AlikeCompare(x.value.value, y.value.value, Evaluate(c, row).value.value, Evaluate(d, row).value.value);
        }
      case (IsNull(a, _), IsNull(b, _)) => EquivalentEvaluate(a, b, row);
      case _ =>
    }
  }

  // ---------- Groups ----------

  /** The values that stand for all group keys which the group map's comparator cannot tell apart. */
  function CanonKeys(keys: Keys): (canon: Keys)
    ensures |canon| == |keys| && forall i :: 0 <= i < |keys| ==> canon[i] == Canon(keys[i])
  {
    seq(|keys|, i requires 0 <= i < |keys| => Canon(keys[i]))
  }

  function KeyOf(q: GroupedQuery, row: Row): Keys { CanonKeys(ValuesOf(q.groupBy, row)) }

  function InGroup(q: GroupedQuery, key: Keys): Row -> bool {
    (row: Row) => KeyOf(q, row) == key
  }

  function Members(q: GroupedQuery, rows: seq<Row>, key: Keys): seq<Row> { Filter(rows, InGroup(q, key)) }

  function Evaluated(e: Expr): Row -> Nullable {
    (row: Row) => ValueOf(e, row)
  }

  /** The aggregate state of one item over the members of a group; plain items keep the initial state. */
  function StateOf(item: SelectItem, members: seq<Row>): AggregateState {
    if item.Plain? then EMPTY_STATE else Fold(item.a, Map(members, Evaluated(item.e)))
  }

  function StatesOf(items: seq<SelectItem>, members: seq<Row>): (states: seq<AggregateState>)
    ensures |states| == |items| && forall i :: 0 <= i < |items| ==> states[i] == StateOf(items[i], members)
  {
    seq(|items|, i requires 0 <= i < |items| => StateOf(items[i], members))
  }

  /** Values of the plain items; aggregates hold NULL here. */
  function PlainValues(items: seq<SelectItem>, row: Row): (values: Keys)
    ensures |values| == |items|
  {
    seq(|items|, i requires 0 <= i < |items| => if items[i].Plain? then ValueOf(items[i].e, row) else None)
  }

  function OrderValues(q: GroupedQuery, row: Row): Keys { ValuesOf(Map(q.order, (o: OrderItem) => o.e), row) }

  datatype GroupState = GroupState(values: Keys, orderValues: Keys, states: seq<AggregateState>)

  /** The state of a group: plain and ORDER BY values of its first row, aggregates of all of them. */
  function GroupOf(q: GroupedQuery, members: seq<Row>): GroupState
    requires members != []
  {
    GroupState(PlainValues(q.items, members[0]), OrderValues(q, members[0]), StatesOf(q.items, members))
  }

  ghost predicate GroupsAre(q: GroupedQuery, rows: seq<Row>, groups: map<Keys, GroupState>) {
    && (forall row :: row in rows ==> KeyOf(q, row) in groups)
    && (forall key :: key in groups ==> Members(q, rows, key) != [] && groups[key] == GroupOf(q, Members(q, rows, key)))
  }

  lemma {:induction false} MembersSnoc(q: GroupedQuery, rows: seq<Row>, row: Row, key: Keys)
    ensures Members(q, rows + [row], key) == Members(q, rows, key) + if KeyOf(q, row) == key then [row] else []
  {
    hide Filter, ValuesOf;
    FilterSnoc(rows, row, InGroup(q, key));
  }

  /** One more member: the first row stays, every aggregate takes in one value. */
  lemma {:induction false} GroupSnoc(q: GroupedQuery, members: seq<Row>, row: Row)
    requires members != []
    ensures GroupOf(q, members + [row])
            == GroupOf(q, members).(states := TakeInto(q.items, GroupOf(q, members).states, row))
  {
    hide Fold, Absorb, ValueOf;
    forall i | 0 <= i < |q.items|
      ensures StateOf(q.items[i], members + [row]) == TakeOne(q.items[i], StateOf(q.items[i], members), row)
    {
      StateSnoc(q.items[i], members, row);
    }
  }

  lemma {:induction false} StateSnoc(item: SelectItem, members: seq<Row>, row: Row)
    ensures StateOf(item, members + [row]) == TakeOne(item, StateOf(item, members), row)
  {
    hide Fold, Absorb, ValueOf;
    if item.Aggregated? {
      MapSnoc(members, row, Evaluated(item.e));
      FoldSnoc(item.a, Map(members, Evaluated(item.e)), Evaluated(item.e)(row));
    }
  }

  function TakeOne(item: SelectItem, s: AggregateState, row: Row): AggregateState {
    if item.Plain? then s else Absorb(item.a, s, ValueOf(item.e, row))
  }

  function TakeInto(items: seq<SelectItem>, states: seq<AggregateState>, row: Row): (after: seq<AggregateState>)
    requires |states| == |items|
    ensures |after| == |items|
  {
    seq(|items|, i requires 0 <= i < |items| => TakeOne(items[i], states[i], row))
  }

  // ---------- Well-typed grouped queries ----------

  predicate AggregateFits(item: SelectItem, schema: Schema) {
    && KindOf(item.e, schema).Some?
    && match item
       case Plain(_) => true
       case Aggregated(Count, _) => true
       case Aggregated(a, e) => TagOfExpr(e, schema) == if a.MinDouble? || a.MaxDouble? then DoubleTag else IntTag
  }

  predicate GroupedWellTyped(q: GroupedQuery, schema: Schema) {
    && (q.condition.Some? ==> IsCondition(q.condition.value, schema))
    && (forall i :: 0 <= i < |q.items| ==> AggregateFits(q.items[i], schema))
    && (forall j :: 0 <= j < |q.groupBy| ==> KindOf(q.groupBy[j], schema).Some?)
    && (forall k :: 0 <= k < |q.order| ==> KindOf(q.order[k].e, schema).Some?)
  }

  function GroupTags(q: GroupedQuery, schema: Schema): (tags: seq<Tag>)
    ensures |tags| == |q.groupBy|
  {
    Map(q.groupBy, (e: Expr) => TagOfExpr(e, schema))
  }

  ghost predicate IsGroupKey(q: GroupedQuery, schema: Schema, key: Keys) {
    KeysRanked(key, GroupTags(q, schema))
  }

  /** No grouping value of these rows is a NaN: the group map has no order for it. */
  ghost predicate NoNaNKeys(q: GroupedQuery, rows: seq<Row>) {
    forall row, j :: row in rows && 0 <= j < |q.groupBy| ==> !IsNaNCell(ValueOf(q.groupBy[j], row))
  }

  lemma {:induction false} GroupKeyRanked(q: GroupedQuery, schema: Schema, row: Row)
    requires GroupedWellTyped(q, schema) && RowFits(row, schema) && NoNaNKeys(q, [row])
    ensures KeysRanked(ValuesOf(q.groupBy, row), GroupTags(q, schema)) && IsGroupKey(q, schema, KeyOf(q, row))
  {
    hide Evaluate, KindOf;
    var values := ValuesOf(q.groupBy, row);
    forall j | 0 <= j < |q.groupBy| ensures Ranked(values[j], GroupTags(q, schema)[j]) {
      assert row in [row];
      EvaluatedTag(q.groupBy[j], schema, row);
    }
    CanonRanked(values, GroupTags(q, schema));
  }

  lemma {:induction false} CanonRanked(keys: Keys, tags: seq<Tag>)
    requires KeysRanked(keys, tags)
    ensures KeysRanked(CanonKeys(keys), tags)
  {
  }

  function Upwards(n: nat): (ds: seq<bool>)
    ensures |ds| == n && forall i :: 0 <= i < n ==> !ds[i]
  {
    seq(n, i => false)
  }

  /** Keys that the group map's comparator cannot tell apart are exactly those that one canonical key stands for. */
  lemma {:induction false} EqualKeys(x: Keys, y: Keys, tags: seq<Tag>)
    requires KeysRanked(x, tags) && KeysRanked(y, tags)
    ensures CompareKeys(x, y, Upwards(|tags|)) == 0 <==> CanonKeys(x) == CanonKeys(y)
    decreases |x|
  {
    if x != [] {
      assert Upwards(|tags|)[1..] == Upwards(|tags| - 1);
      EqualKeys(x[1..], y[1..], tags[1..]);
      CompareReverse(x[0], y[0], tags[0]);
      EqualValues(x[0], y[0], tags[0]);
      CanonCons(x);
      CanonCons(y);
    } else {
      assert CanonKeys(x) == CanonKeys(y);
    }
  }

  lemma {:induction false} CanonCons(x: Keys)
    requires x != []
    ensures CanonKeys(x) == [Canon(x[0])] + CanonKeys(x[1..])
  {
  }

  lemma {:induction false} CanonTwice(x: Keys)
    ensures CanonKeys(CanonKeys(x)) == CanonKeys(x)
  {
  }

  lemma {:induction false} EqualValues(a: Nullable, b: Nullable, tag: Tag)
    requires Ranked(a, tag) && Ranked(b, tag)
    ensures CompareNullable(a, b) == Ok(0) <==> Alike(a, b)
  {
    if a.Some? && b.Some? && tag.TextTag? { BytesReverse(a.value.value.bytes, b.value.value.bytes); }
  }

  /** The comparator sees the same in values and in what stands for them. */
  lemma {:induction false} CompareAlike(x: Keys, y: Keys, x': Keys, y': Keys, descending: seq<bool>)
    requires CanonKeys(x) == CanonKeys(x') && CanonKeys(y) == CanonKeys(y')
    ensures CompareKeys(x, y, descending) == CompareKeys(x', y', descending)
    decreases |x|
  {
    hide Compare, Canon;
    assert |x| == |x'| && |y| == |y'| by {
      assert |CanonKeys(x)| == |CanonKeys(x')| && |CanonKeys(y)| == |CanonKeys(y')|;
    }
    if x != [] && y != [] && descending != [] {
      CanonCons(x);
      CanonCons(x');
      CanonCons(y);
      CanonCons(y');
      AlikeNullable(x[0], y[0], x'[0], y'[0]);
      CompareAlike(x[1..], y[1..], x'[1..], y'[1..], descending[1..]);
    }
  }

  lemma {:induction false} AlikeNullable(a: Nullable, b: Nullable, c: Nullable, d: Nullable)
    requires Alike(a, c) && Alike(b, d)
    ensures CompareNullable(a, b) == CompareNullable(c, d)
  {
    if a.Some? && b.Some? { AlikeCompare(a.value, b.value, c.value, d.value); }
  }

  // ---------- The group map ----------

  /** No ORDER BY value of these rows is a NaN. */
  ghost predicate NoNaNOrder(q: GroupedQuery, rows: seq<Row>) {
    forall row, k :: row in rows && 0 <= k < |q.order| ==> !IsNaNCell(ValueOf(q.order[k].e, row))
  }

  /** A well-typed query over rows that the group map and the sort can order. */
  ghost predicate Orderable(q: GroupedQuery, schema: Schema, rows: seq<Row>) {
    GroupedWellTyped(q, schema) && RowsFit(rows, schema) && NoNaNKeys(q, rows) && NoNaNOrder(q, rows)
  }

  /** A well-typed query, and accepted rows that the group map and the sort can order. */
  ghost predicate GroupSelectable(q: GroupedQuery, schema: Schema, scanned: seq<Row>) {
    var rows := Filter(scanned, Accepts(q.condition));
    GroupedWellTyped(q, schema) && RowsFit(scanned, schema) && NoNaNKeys(q, rows) && NoNaNOrder(q, rows)
  }

  /** UpdateGlobalAggregateState for every aggregate item. */
  method TakeRow(q: GroupedQuery, schema: Schema, states: seq<AggregateState>, row: Row)
    returns (r: Result<seq<AggregateState>>)
    requires GroupedWellTyped(q, schema) && RowFits(row, schema) && |states| == |q.items|
    ensures r == Ok(TakeInto(q.items, states, row))
  {
    hide Evaluate, KindOf, Absorb, TagOfExpr;
    var after := [];
    for i := 0 to |q.items|
      invariant |after| == i && forall k :: 0 <= k < i ==> after[k] == TakeOne(q.items[k], states[k], row)
    {
      var item := q.items[i];
      if item.Plain? {
        after := after + [states[i]];
      } else {
        AggregateTakes(item, schema, states[i], row);
        var v := Evaluate(item.e, row);
        if v.Err? { return Err; }
        var next := Update(item.a, states[i], v.value);
        if next.Err? { return Err; }
        after := after + [next.value];
      }
    }
    assert after == TakeInto(q.items, states, row);
    return Ok(after);
  }

  lemma {:induction false} AggregateTakes(item: SelectItem, schema: Schema, s: AggregateState, row: Row)
    requires item.Aggregated? && AggregateFits(item, schema) && RowFits(row, schema)
    ensures Evaluate(item.e, row).Ok? && Update(item.a, s, Evaluate(item.e, row).value) == Ok(TakeOne(item, s, row))
  {
    hide KindOf, Evaluate;
    EvaluatedTag(item.e, schema, row);
  }

  lemma {:induction false} GroupedEvaluates(q: GroupedQuery, schema: Schema, row: Row)
    requires GroupedWellTyped(q, schema) && RowFits(row, schema)
    ensures q.condition.Some? ==> EvaluatePredicate(q.condition.value, row).Ok?
    ensures forall e :: e in q.groupBy ==> Evaluate(e, row).Ok?
  {
    hide Evaluate, KindOf;
    if q.condition.Some? { WellTypedEvaluates(q.condition.value, schema, row); }
    forall e | e in q.groupBy ensures Evaluate(e, row).Ok? { WellTypedEvaluates(e, schema, row); }
  }

  /** A row enters its group, or opens it. */
  method Enter(q: GroupedQuery, schema: Schema, groups: map<Keys, GroupState>, row: Row, ghost rows: seq<Row>)
    returns (r: Result<map<Keys, GroupState>>)
    requires GroupedWellTyped(q, schema) && RowFits(row, schema) && GroupsAre(q, rows, groups)
    ensures r.Ok? && GroupsAre(q, rows + [row], r.value)
  {
    hide Evaluate, KindOf, GroupsAre, GroupOf, ValuesOf, TakeInto, GroupedWellTyped;
    GroupedEvaluates(q, schema, row);
    var key := EvaluateAll(q.groupBy, row);
    if key.Err? { return Err; }
    var canon := CanonKeys(key.value);
    StateWidth(q, rows, groups, canon);
    var group := if canon in groups then groups[canon] else Opened(q, row);
    var states := TakeRow(q, schema, group.states, row);
    if states.Err? { return Err; }
    Entered(q, rows, groups, row);
    return Ok(groups[canon := group.(states := states.value)]);
  }

  /** A new group, before its first row is taken into the aggregates. */
  function Opened(q: GroupedQuery, row: Row): (g: GroupState)
    ensures |g.states| == |q.items|
  {
    GroupState(PlainValues(q.items, row), OrderValues(q, row), seq(|q.items|, i => EMPTY_STATE))
  }

  lemma {:induction false} StateWidth(q: GroupedQuery, rows: seq<Row>, groups: map<Keys, GroupState>, key: Keys)
    requires GroupsAre(q, rows, groups)
    ensures key in groups ==> |groups[key].states| == |q.items|
  {
  }

  lemma {:induction false} OpenedGroup(q: GroupedQuery, row: Row)
    ensures Opened(q, row).(states := TakeInto(q.items, Opened(q, row).states, row)) == GroupOf(q, [row])
  {
    hide Absorb, ValueOf;
    forall i | 0 <= i < |q.items| ensures TakeOne(q.items[i], EMPTY_STATE, row) == StateOf(q.items[i], [row]) {
      StateSnoc(q.items[i], [], row);
      assert [] + [row] == [row];
      assert Map([], Evaluated(q.items[i].e)) == [];
    }
  }

  lemma {:induction false} Entered(q: GroupedQuery, rows: seq<Row>, groups: map<Keys, GroupState>, row: Row)
    requires GroupsAre(q, rows, groups)
    ensures var key := KeyOf(q, row);
            && (key in groups ==> |groups[key].states| == |q.items|)
            && var group := if key in groups then groups[key] else Opened(q, row);
            GroupsAre(q, rows + [row], groups[key := group.(states := TakeInto(q.items, group.states, row))])
  {
    hide GroupOf, TakeInto, Opened, Filter, ValuesOf, Members;
    StateWidth(q, rows, groups, KeyOf(q, row));
    var key := KeyOf(q, row);
    forall k ensures k != key ==> Members(q, rows + [row], k) == Members(q, rows, k) { MembersSnoc(q, rows, row, k); }
    MembersSnoc(q, rows, row, key);
    if key in groups {
      GroupSnoc(q, Members(q, rows, key), row);
    } else {
      NotYet(q, rows, groups, key);
      OpenedGroup(q, row);
      assert Members(q, rows + [row], key) == [row];
    }
    var group := if key in groups then groups[key] else Opened(q, row);
    StillGroups(q, rows, groups, row, group.(states := TakeInto(q.items, group.states, row)));
  }

  /** Only the row's own group changes. */
  lemma {:induction false} StillGroups(q: GroupedQuery, rows: seq<Row>, groups: map<Keys, GroupState>, row: Row,
                                       group: GroupState)
    requires GroupsAre(q, rows, groups)
    requires Members(q, rows + [row], KeyOf(q, row)) != []
             && group == GroupOf(q, Members(q, rows + [row], KeyOf(q, row)))
    requires forall k :: k != KeyOf(q, row) ==> Members(q, rows + [row], k) == Members(q, rows, k)
    ensures GroupsAre(q, rows + [row], groups[KeyOf(q, row) := group])
  {
    hide GroupOf, Members, KeyOf;
  }

  lemma {:induction false} NotYet(q: GroupedQuery, rows: seq<Row>, groups: map<Keys, GroupState>, key: Keys)
    requires GroupsAre(q, rows, groups) && key !in groups
    ensures Members(q, rows, key) == []
  {
    FilterNone(rows, InGroup(q, key));
  }

  /** The loop over the cursor. */
  method CollectGroups(q: GroupedQuery, schema: Schema, scanned: seq<Row>) returns (r: Result<map<Keys, GroupState>>)
    requires GroupedWellTyped(q, schema) && RowsFit(scanned, schema)
    ensures r.Ok? && GroupsAre(q, Filter(scanned, Accepts(q.condition)), r.value)
  {
    hide Evaluate, KindOf, GroupsAre, GroupedWellTyped, Filter, Accepts, RowFits;
    var groups: map<Keys, GroupState> := map[];
    NoGroups(q, Accepts(q.condition));
    for i := 0 to |scanned|
      invariant GroupsAre(q, Filter(scanned[..i], Accepts(q.condition)), groups)
    {
      var row := scanned[i];
      assert row in scanned && scanned[..i + 1] == scanned[..i] + [row];
      FilterSnoc(scanned[..i], row, Accepts(q.condition));
      GroupedEvaluates(q, schema, row);
      var holds := true;
      if q.condition.Some? {
        var v := EvaluatePredicate(q.condition.value, row);
        if v.Err? { return Err; }
        holds := v.value;
      }
      AcceptedIs(q.condition, row);
      if !holds {
        assert Filter(scanned[..i + 1], Accepts(q.condition)) == Filter(scanned[..i], Accepts(q.condition));
        continue;
      }
      var next := Enter(q, schema, groups, row, Filter(scanned[..i], Accepts(q.condition)));
      if next.Err? { return Err; }
      groups := next.value;
    }
    assert scanned[..|scanned|] == scanned;
    return Ok(groups);
  }

  lemma {:induction false} NoGroups(q: GroupedQuery, p: Row -> bool)
    ensures GroupsAre(q, Filter([], p), map[])
  {
  }

  lemma {:induction false} AcceptedIs(condition: Option<Expr>, row: Row)
    ensures Accepts(condition)(row) <==> condition.None? || EvaluatePredicate(condition.value, row) == Ok(true)
  {
  }

  // ---------- The output ----------

  datatype OutCell = Cell(v: Nullable) | Total(f: Final)

  function RowOfGroup(q: GroupedQuery, g: GroupState): (row: seq<OutCell>)
    requires |g.values| == |g.states| == |q.items|
    ensures |row| == |q.items|
  {
    seq(|q.items|, i requires 0 <= i < |q.items| =>
      if q.items[i].Plain? then Cell(g.values[i]) else Total(Finalize(q.items[i].a, g.states[i])))
  }

  /** The output row of a group key. */
  function OutputFor(q: GroupedQuery, rows: seq<Row>): Keys -> seq<OutCell> {
    (key: Keys) => if Members(q, rows, key) == [] then [] else RowOfGroup(q, GroupOf(q, Members(q, rows, key)))
  }

  function OrderValuesFor(q: GroupedQuery, rows: seq<Row>, key: Keys): Keys {
    if Members(q, rows, key) == [] then [] else GroupOf(q, Members(q, rows, key)).orderValues
  }

  ghost predicate StrictKeys(keys: seq<Keys>, n: nat) {
    forall i, j :: 0 <= i < j < |keys| ==> CompareKeys(keys[i], keys[j], Upwards(n)) < 0
  }

  ghost predicate HasGroup(q: GroupedQuery, rows: seq<Row>, key: Keys) {
    exists row :: row in rows && KeyOf(q, row) == key
  }

  /** The distinct group keys of these rows, in the order of the map. */
  ghost predicate ListsGroups(q: GroupedQuery, rows: seq<Row>, keys: seq<Keys>) {
    StrictKeys(keys, |q.groupBy|) && forall key :: key in keys <==> HasGroup(q, rows, key)
  }

  ghost predicate GroupsSorted(q: GroupedQuery, rows: seq<Row>, keys: seq<Keys>) {
    forall i, j :: 0 <= i < j < |keys| ==>
      CompareKeys(OrderValuesFor(q, rows, keys[i]), OrderValuesFor(q, rows, keys[j]), Directions(q.order)) <= 0
  }

  /** Without ORDER BY the groups come in key order; with it, in some order that it allows. */
  ghost predicate Arrangement(q: GroupedQuery, rows: seq<Row>, keys: seq<Keys>, p: seq<Keys>) {
    ListsGroups(q, rows, keys) && multiset(p) == multiset(keys)
    && if q.order == [] then p == keys else GroupsSorted(q, rows, p)
  }

  ghost predicate GroupedAnswer(q: GroupedQuery, rows: seq<Row>, result: seq<seq<OutCell>>) {
    exists keys, p :: Arrangement(q, rows, keys, p) && result == Limited(q.limit, Map(p, OutputFor(q, rows)))
  }

  ghost predicate LeastAmong(keys: set<Keys>, key: Keys, n: nat) {
    key in keys && forall k :: k in keys ==> CompareKeys(key, k, Upwards(n)) <= 0
  }

  lemma {:induction false} LeastGroup(keys: set<Keys>, tags: seq<Tag>)
    requires keys != {} && forall k :: k in keys ==> KeysRanked(k, tags)
    ensures exists key :: LeastAmong(keys, key, |tags|)
    decreases |keys|
  {
    hide CompareKeys, KeysRanked;
    var some :| some in keys;
    var others := keys - {some};
    KeysReverse(some, some, Upwards(|tags|), tags);
    if others == {} {
      forall k | k in keys ensures k == some { assert k !in others; }
      assert LeastAmong(keys, some, |tags|);
    } else {
      LeastGroup(others, tags);
      var least :| LeastAmong(others, least, |tags|);
      KeysReverse(some, least, Upwards(|tags|), tags);
      var key := if CompareKeys(some, least, Upwards(|tags|)) <= 0 then some else least;
      forall k | k in keys ensures CompareKeys(key, k, Upwards(|tags|)) <= 0 {
        if k in others {
          if key == some { KeysTransitive(some, least, k, Upwards(|tags|), tags); }
        } else {
          assert k == some;
        }
      }
      assert LeastAmong(keys, key, |tags|);
    }
  }

  ghost predicate GroupKeys(q: GroupedQuery, schema: Schema, keys: set<Keys>) {
    forall k :: k in keys ==> IsGroupKey(q, schema, k) && CanonKeys(k) == k
  }

  /** Walking the map: its keys in ascending order. */
  method InKeyOrder(q: GroupedQuery, schema: Schema, all: set<Keys>) returns (keys: seq<Keys>)
    requires GroupedWellTyped(q, schema) && GroupKeys(q, schema, all)
    ensures StrictKeys(keys, |q.groupBy|) && forall k :: k in keys <==> k in all
  {
    hide CompareKeys, KeysRanked, GroupedWellTyped;
    keys := [];
    var rest := all;
    while rest != {}
      invariant rest <= all && StrictKeys(keys, |q.groupBy|)
      invariant forall k :: k in all <==> k in keys || k in rest
      invariant forall k, j :: k in keys && j in rest ==> CompareKeys(k, j, Upwards(|q.groupBy|)) < 0
      decreases |rest|
    {
      LeastGroup(rest, GroupTags(q, schema));
      var key :| key in rest && forall k :: k in rest ==> CompareKeys(key, k, Upwards(|q.groupBy|)) <= 0;
      forall k | k in rest && k != key
        ensures CompareKeys(key, k, Upwards(|q.groupBy|)) < 0
      {
        DifferentKeys(q, schema, key, k);
      }
      keys := keys + [key];
      rest := rest - {key};
    }
  }

  lemma {:induction false} DifferentKeys(q: GroupedQuery, schema: Schema, x: Keys, y: Keys)
    requires IsGroupKey(q, schema, x) && IsGroupKey(q, schema, y) && CanonKeys(x) == x && CanonKeys(y) == y && x != y
    ensures CompareKeys(x, y, Upwards(|q.groupBy|)) != 0
  {
    EqualKeys(x, y, GroupTags(q, schema));
  }

  lemma {:induction false} GroupsListed(q: GroupedQuery, schema: Schema, rows: seq<Row>, groups: map<Keys, GroupState>)
    requires GroupsAre(q, rows, groups) && GroupedWellTyped(q, schema) && RowsFit(rows, schema) && NoNaNKeys(q, rows)
    ensures GroupKeys(q, schema, groups.Keys)
    ensures forall key :: key in groups <==> HasGroup(q, rows, key)
  {
    hide GroupOf, GroupedWellTyped, KeysRanked, RowFits, Filter;
    forall key | key in groups ensures HasGroup(q, rows, key) && IsGroupKey(q, schema, key) && CanonKeys(key) == key {
      var members := Members(q, rows, key);
      InFilter(rows, InGroup(q, key));
      FirstIn(members);
      assert members[0] in rows && KeyOf(q, members[0]) == key;
      GroupKeyRanked(q, schema, members[0]);
      CanonTwice(ValuesOf(q.groupBy, members[0]));
    }
  }

  /** ExecuteGroupedAggregateSelect over the rows that the cursor emits. */
  method ExecuteGrouped(q: GroupedQuery, schema: Schema, scanned: seq<Row>) returns (r: Result<seq<seq<OutCell>>>)
    requires GroupSelectable(q, schema, scanned)
    ensures r.Ok? && GroupedAnswer(q, Filter(scanned, Accepts(q.condition)), r.value)
  {
    hide GroupedWellTyped, GroupsAre, GroupOf, Accepts, RowFits, Filter, CompareKeys, OutputFor, GroupKeys,
         HasGroup, StrictKeys;
    var groups := CollectGroups(q, schema, scanned);
    if groups.Err? { return Err; }
    ghost var rows := Filter(scanned, Accepts(q.condition));
    InFilter(scanned, Accepts(q.condition));
    GroupsListed(q, schema, rows, groups.value);
    var keys := InKeyOrder(q, schema, groups.value.Keys);
    var records := Records(q, rows, groups.value, keys);
    var result: seq<seq<OutCell>>;
    if q.order == [] {
      result := Rows(records);
      assert Arrangement(q, rows, keys, keys);
      assert result == Map(keys, OutputFor(q, rows));
    } else {
      AllRecordsRanked(q, schema, rows, keys);
      var sorted := Sort(records, Directions(q.order), OrderTags(q.order, schema));
      ghost var p := LiftPermutation(keys, RecordFor(q, rows), sorted);
      SortedRecords(q, rows, p, sorted);
      result := Rows(sorted);
      assert Arrangement(q, rows, keys, p);
      assert result == Map(p, OutputFor(q, rows));
    }
    if q.limit.Some? && |result| > q.limit.value { result := result[..q.limit.value]; }
    return Ok(result);
  }

  function RecordFor(q: GroupedQuery, rows: seq<Row>): Keys -> SortRow<seq<OutCell>> {
    (key: Keys) => SortRow(OrderValuesFor(q, rows, key), OutputFor(q, rows)(key))
  }

  /** One output row for each group, in the order of the keys, with its ORDER BY values. */
  method Records(q: GroupedQuery, ghost rows: seq<Row>, groups: map<Keys, GroupState>, keys: seq<Keys>)
    returns (records: seq<SortRow<seq<OutCell>>>)
    requires GroupsAre(q, rows, groups) && forall k :: k in keys ==> k in groups
    ensures records == Map(keys, RecordFor(q, rows))
  {
    hide RecordFor, GroupsAre;
    records := [];
    for i := 0 to |keys|
      invariant |records| == i && forall k :: 0 <= k < i ==> records[k] == RecordFor(q, rows)(keys[k])
    {
      assert keys[i] in keys;
      RecordIs(q, rows, groups, keys[i]);
      var g := groups[keys[i]];
      records := records + [SortRow(g.orderValues, RowOfGroup(q, g))];
    }
  }

  lemma {:induction false} RecordIs(q: GroupedQuery, rows: seq<Row>, groups: map<Keys, GroupState>, key: Keys)
    requires GroupsAre(q, rows, groups) && key in groups
    ensures |groups[key].values| == |groups[key].states| == |q.items|
    ensures RecordFor(q, rows)(key) == SortRow(groups[key].orderValues, RowOfGroup(q, groups[key]))
  {
    hide Members, StatesOf, PlainValues, OrderValues;
    var members := Members(q, rows, key);
    assert members != [] && groups[key] == GroupOf(q, members);
    var f, g := RecordFor(q, rows), OutputFor(q, rows);
    assert g(key) == RowOfGroup(q, GroupOf(q, members));
    assert f(key) == SortRow(OrderValuesFor(q, rows, key), g(key));
  }

  method Rows<T(!new)>(records: seq<SortRow<T>>) returns (rows: seq<T>)
    ensures |rows| == |records| && forall i :: 0 <= i < |records| ==> rows[i] == records[i].row
  {
    rows := [];
    for i := 0 to |records|
      invariant |rows| == i && forall k :: 0 <= k < i ==> rows[k] == records[k].row
    {
      rows := rows + [records[i].row];
    }
  }

  lemma {:induction false} AllRecordsRanked(q: GroupedQuery, schema: Schema, rows: seq<Row>, keys: seq<Keys>)
    requires GroupedWellTyped(q, schema) && RowsFit(rows, schema) && NoNaNOrder(q, rows)
    requires forall k :: k in keys ==> HasGroup(q, rows, k)
    ensures AllRanked(Map(keys, RecordFor(q, rows)), OrderTags(q.order, schema))
  {
    hide GroupedWellTyped, RowFits, OutputFor, Filter;
    var records := Map(keys, RecordFor(q, rows));
    forall r | r in records ensures KeysRanked(r.keys, OrderTags(q.order, schema)) {
      var i :| 0 <= i < |keys| && records[i] == r;
      assert keys[i] in keys;
      var row :| row in rows && KeyOf(q, row) == keys[i];
      InFilter(rows, InGroup(q, keys[i]));
      var members := Members(q, rows, keys[i]);
      assert row in members;
      FirstIn(members);
      OrderRanked(q, schema, rows, members[0]);
      assert OrderValuesFor(q, rows, keys[i]) == OrderValues(q, members[0]);
      assert r == RecordFor(q, rows)(keys[i]);
    }
  }

  lemma {:induction false} OrderRanked(q: GroupedQuery, schema: Schema, rows: seq<Row>, row: Row)
    requires GroupedWellTyped(q, schema) && RowsFit(rows, schema) && NoNaNOrder(q, rows) && row in rows
    ensures KeysRanked(OrderValues(q, row), OrderTags(q.order, schema))
  {
    forall k | 0 <= k < |q.order| ensures Ranked(OrderValues(q, row)[k], OrderTags(q.order, schema)[k]) {
      EvaluatedTag(q.order[k].e, schema, row);
    }
  }

  lemma {:induction false} SortedRecords(q: GroupedQuery, rows: seq<Row>, p: seq<Keys>,
                                         sorted: seq<SortRow<seq<OutCell>>>)
    requires sorted == Map(p, RecordFor(q, rows)) && InOrder(sorted, Directions(q.order))
    ensures GroupsSorted(q, rows, p)
  {
    hide CompareKeys, OrderValuesFor, OutputFor;
    forall i, j | 0 <= i < j < |p|
      ensures CompareKeys(OrderValuesFor(q, rows, p[i]), OrderValuesFor(q, rows, p[j]), Directions(q.order)) <= 0
    {
      assert sorted[i] == RecordFor(q, rows)(p[i]) && sorted[j] == RecordFor(q, rows)(p[j]);
    }
  }

  // ---------- The scan order does not matter ----------

  /** All aggregates are over integers or counts. */
  predicate OverIntegers(q: GroupedQuery) {
    forall i :: 0 <= i < |q.items| && q.items[i].Aggregated? ==> !q.items[i].a.MinDouble? && !q.items[i].a.MaxDouble?
  }

  /** A plain item of a validated query shows a component of the group key. */
  lemma {:induction false} PlainIsKeyPart(q: GroupedQuery, schema: Schema, e: Expr, row: Row, j: nat)
    requires GroupedWellTyped(q, schema) && RowFits(row, schema) && j < |q.groupBy| && AreEquivalent(e, q.groupBy[j])
    ensures Canon(ValueOf(e, row)) == KeyOf(q, row)[j]
    ensures TagOfExpr(q.groupBy[j], schema) != DoubleTag ==> ValueOf(e, row) == KeyOf(q, row)[j]
  {
    hide Evaluate, KindOf;
    EquivalentEvaluate(e, q.groupBy[j], row);
    EvaluatedTag(q.groupBy[j], schema, row);
  }

  lemma {:induction false} PlainSame(q: GroupedQuery, schema: Schema, e: Expr, a: Row, b: Row)
    requires GroupedWellTyped(q, schema) && RowFits(a, schema) && RowFits(b, schema) && InGroupBy(q, e)
             && KeyOf(q, a) == KeyOf(q, b)
    ensures Alike(ValueOf(e, a), ValueOf(e, b))
    ensures NoDoubles(q, schema) ==> ValueOf(e, a) == ValueOf(e, b)
  {
    hide Evaluate, KindOf, GroupedWellTyped, RowFits, TagOfExpr;
    var j :| 0 <= j < |q.groupBy| && AreEquivalent(e, q.groupBy[j]);
    PlainIsKeyPart(q, schema, e, a, j);
    PlainIsKeyPart(q, schema, e, b, j);
  }

  /** No double is grouped by, and no bound of doubles is asked for. */
  predicate NoDoubles(q: GroupedQuery, schema: Schema) {
    OverIntegers(q) && forall j :: 0 <= j < |q.groupBy| ==> TagOfExpr(q.groupBy[j], schema) != DoubleTag
  }

  /** The same output value, or two that differ in the sign of a zero only. */
  predicate AlikeCell(x: OutCell, y: OutCell) {
    match (x, y)
    case (Cell(v), Cell(w)) => Alike(v, w)
    case (Total(f), Total(g)) => AlikeFinal(f, g)
    case _ => false
  }

  predicate AlikeRow(x: seq<OutCell>, y: seq<OutCell>) {
    |x| == |y| && forall i :: 0 <= i < |x| ==> AlikeCell(x[i], y[i])
  }

  predicate AlikeRows(x: seq<seq<OutCell>>, y: seq<seq<OutCell>>) {
    |x| == |y| && forall i :: 0 <= i < |x| ==> AlikeRow(x[i], y[i])
  }

  lemma {:induction false} AggregateTaken(item: SelectItem, schema: Schema, row: Row)
    requires item.Aggregated? && AggregateFits(item, schema) && RowFits(row, schema)
    ensures Takes(item.a, ValueOf(item.e, row))
  {
    hide KindOf, Evaluate;
    EvaluatedTag(item.e, schema, row);
  }

  lemma {:induction false} AllTaken(item: SelectItem, schema: Schema, rows: seq<Row>)
    requires item.Aggregated? && AggregateFits(item, schema) && RowsFit(rows, schema)
    ensures TakesAll(item.a, Map(rows, Evaluated(item.e)))
  {
    hide AggregateFits, RowFits, ValueOf;
    var values := Map(rows, Evaluated(item.e));
    forall v | v in values ensures Takes(item.a, v) {
      var k :| 0 <= k < |rows| && values[k] == v;
      assert rows[k] in rows;
      AggregateTaken(item, schema, rows[k]);
    }
  }

  /** One aggregate over the same rows in another order. */
  lemma {:induction false} TotalPermuted(item: SelectItem, schema: Schema, a: seq<Row>, b: seq<Row>)
    requires item.Aggregated? && AggregateFits(item, schema) && RowsFit(a, schema) && multiset(a) == multiset(b)
    ensures AlikeFinal(Finalize(item.a, StateOf(item, a)), Finalize(item.a, StateOf(item, b)))
    ensures !item.a.MinDouble? && !item.a.MaxDouble?
            ==> Finalize(item.a, StateOf(item, a)) == Finalize(item.a, StateOf(item, b))
  {
    hide Fold, Finalize, AggregateFits, AlikeFinal, RowFits, ValueOf;
    AllTaken(item, schema, a);
    MapMultiset(a, b, Evaluated(item.e));
    FinalPermuted(item.a, Map(a, Evaluated(item.e)), Map(b, Evaluated(item.e)));
  }

  /** The output row of a group is the same for every order of its members, but for the sign of a zero. */
  lemma {:induction false} SameOutput(q: GroupedQuery, schema: Schema, a: seq<Row>, b: seq<Row>, key: Keys)
    requires GroupedWellTyped(q, schema) && Validated(q) && RowsFit(a, schema) && multiset(a) == multiset(b)
    ensures AlikeRow(OutputFor(q, a)(key), OutputFor(q, b)(key))
    ensures NoDoubles(q, schema) ==> OutputFor(q, a)(key) == OutputFor(q, b)(key)
  {
    hide RowFits, AggregateFits, Finalize, Fold, AlikeFinal, Alike, ValueOf, ValuesOf, Filter, KeyOf, KindOf, TagOfExpr;
    var m, n := Members(q, a, key), Members(q, b, key);
    PermutedMembers(q, a, b, key);
    assert |multiset(m)| == |m| && |multiset(n)| == |n|;
    if m != [] {
      InFilter(a, InGroup(q, key));
      FirstIn(m);
      FirstIn(n);
      assert n[0] in multiset(m);
      assert m[0] in a && n[0] in a;
      var x, y := OutputFor(q, a)(key), OutputFor(q, b)(key);
      forall i | 0 <= i < |q.items| ensures AlikeCell(x[i], y[i]) && (NoDoubles(q, schema) ==> x[i] == y[i]) {
        if q.items[i].Plain? {
          PlainSame(q, schema, q.items[i].e, m[0], n[0]);
        } else {
          assert AggregateFits(q.items[i], schema);
          TotalPermuted(q.items[i], schema, m, n);
        }
      }
    }
  }

  lemma {:induction false} PermutedMembers(q: GroupedQuery, a: seq<Row>, b: seq<Row>, key: Keys)
    requires multiset(a) == multiset(b)
    ensures multiset(Members(q, a, key)) == multiset(Members(q, b, key))
  {
    hide ValuesOf;
    FilterPermuted(a, b, InGroup(q, key));
  }

  /** Two strictly ascending lists of the same keys are the same list. */
  lemma {:induction false} StrictUnique(x: seq<Keys>, y: seq<Keys>, tags: seq<Tag>)
    requires StrictKeys(x, |tags|) && StrictKeys(y, |tags|) && forall k :: k in x <==> k in y
    requires forall k :: k in x ==> KeysRanked(k, tags)
    ensures x == y
  {
    hide CompareKeys, KeysRanked;
    if x == [] {
      if y != [] { FirstIn(y); }
    } else if y == [] {
      FirstIn(x);
    } else {
      assert x[0] in y && y[0] in x;
      SameLeast(x, y, tags);
      assert x == [x[0]] + x[1..] && y == [y[0]] + y[1..];
      forall k ensures k in x[1..] <==> k in y[1..] {
        NotRepeated(x, tags);
        NotRepeated(y, tags);
        assert k in x <==> k == x[0] || k in x[1..];
        assert k in y <==> k == y[0] || k in y[1..];
      }
      assert forall k :: k in x[1..] ==> k in x;
      StrictTail(x, |tags|);
      StrictTail(y, |tags|);
      StrictUnique(x[1..], y[1..], tags);
    }
  }

  lemma {:induction false} StrictTail(x: seq<Keys>, n: nat)
    requires StrictKeys(x, n) && x != []
    ensures StrictKeys(x[1..], n)
  {
    hide CompareKeys;
    forall i, j | 0 <= i < j < |x[1..]| ensures CompareKeys(x[1..][i], x[1..][j], Upwards(n)) < 0 {
      assert x[1..][i] == x[i + 1] && x[1..][j] == x[j + 1];
    }
  }

  lemma {:induction false} NotRepeated(x: seq<Keys>, tags: seq<Tag>)
    requires StrictKeys(x, |tags|) && x != [] && forall k :: k in x ==> KeysRanked(k, tags)
    ensures x[0] !in x[1..]
  {
    hide CompareKeys, KeysRanked;
    FirstIn(x);
    KeysReverse(x[0], x[0], Upwards(|tags|), tags);
  }

  lemma {:induction false} SameLeast(x: seq<Keys>, y: seq<Keys>, tags: seq<Tag>)
    requires StrictKeys(x, |tags|) && StrictKeys(y, |tags|) && x != [] && y != [] && x[0] in y && y[0] in x
    requires forall k :: k in x ==> KeysRanked(k, tags)
    ensures x[0] == y[0]
  {
    hide CompareKeys, KeysRanked;
    FirstIn(x);
    var i :| 0 <= i < |x| && x[i] == y[0];
    var j :| 0 <= j < |y| && y[j] == x[0];
    KeysReverse(x[0], y[0], Upwards(|tags|), tags);
  }

  lemma {:induction false} ListedRanked(q: GroupedQuery, schema: Schema, rows: seq<Row>, keys: seq<Keys>)
    requires GroupedWellTyped(q, schema) && RowsFit(rows, schema) && NoNaNKeys(q, rows) && ListsGroups(q, rows, keys)
    ensures forall k :: k in keys ==> KeysRanked(k, GroupTags(q, schema))
  {
    hide KeysRanked, GroupedWellTyped, RowFits, ValuesOf, StrictKeys;
    forall k | k in keys ensures KeysRanked(k, GroupTags(q, schema)) {
      var row :| row in rows && KeyOf(q, row) == k;
      GroupKeyRanked(q, schema, row);
    }
  }

  lemma {:induction false} SameGroups(q: GroupedQuery, a: seq<Row>, b: seq<Row>, key: Keys)
    requires multiset(a) == multiset(b)
    ensures HasGroup(q, a, key) <==> HasGroup(q, b, key)
  {
    hide KeyOf;
    if HasGroup(q, a, key) {
      var row :| row in a && KeyOf(q, row) == key;
      assert row in multiset(b);
    }
    if HasGroup(q, b, key) {
      var row :| row in b && KeyOf(q, row) == key;
      assert row in multiset(a);
    }
  }

  /** The same keys, shown for two scan orders of the same rows. */
  lemma {:induction false} SameShown(q: GroupedQuery, schema: Schema, a: seq<Row>, b: seq<Row>, keys: seq<Keys>)
    requires GroupedWellTyped(q, schema) && Validated(q) && RowsFit(a, schema) && multiset(a) == multiset(b)
    ensures var x, y := Limited(q.limit, Map(keys, OutputFor(q, a))), Limited(q.limit, Map(keys, OutputFor(q, b)));
            AlikeRows(x, y) && (NoDoubles(q, schema) ==> x == y)
  {
    hide GroupedWellTyped, RowFits, OutputFor, AlikeRow, NoDoubles;
    forall i | 0 <= i < |keys|
      ensures AlikeRow(Map(keys, OutputFor(q, a))[i], Map(keys, OutputFor(q, b))[i])
      ensures NoDoubles(q, schema) ==> Map(keys, OutputFor(q, a))[i] == Map(keys, OutputFor(q, b))[i]
    {
      SameOutput(q, schema, a, b, keys[i]);
    }
    assert NoDoubles(q, schema) ==> Map(keys, OutputFor(q, a)) == Map(keys, OutputFor(q, b));
  }

  lemma {:induction false} SameListing(q: GroupedQuery, schema: Schema, a: seq<Row>, b: seq<Row>, x: seq<Keys>,
                                       y: seq<Keys>)
    requires GroupedWellTyped(q, schema) && RowsFit(a, schema) && NoNaNKeys(q, a) && multiset(a) == multiset(b)
    requires ListsGroups(q, a, x) && ListsGroups(q, b, y)
    ensures x == y
  {
    hide GroupedWellTyped, RowFits, HasGroup, StrictKeys, KeysRanked, NoNaNKeys;
    forall k ensures k in x <==> k in y { SameGroups(q, a, b, k); }
    ListedRanked(q, schema, a, x);
    StrictUnique(x, y, GroupTags(q, schema));
  }

  /**
   Without ORDER BY, a validated query has one answer, whatever order the rows are scanned in: the same
   but for the sign of zeros, and the very same where no doubles are grouped by or bounded.
   */
  lemma {:induction false} ScanOrderDoesNotMatter(q: GroupedQuery, schema: Schema, a: seq<Row>, b: seq<Row>,
                                                  forA: seq<seq<OutCell>>, forB: seq<seq<OutCell>>)
    requires GroupedWellTyped(q, schema) && Validated(q) && RowsFit(a, schema) && NoNaNKeys(q, a)
             && multiset(a) == multiset(b)
    requires q.order == [] && GroupedAnswer(q, a, forA) && GroupedAnswer(q, b, forB)
    ensures AlikeRows(forA, forB) && (NoDoubles(q, schema) ==> forA == forB)
  {
    hide GroupedWellTyped, RowFits, ListsGroups, OutputFor, NoNaNKeys, AlikeRows, NoDoubles;
    var x, xs :| Arrangement(q, a, x, xs) && forA == Limited(q.limit, Map(xs, OutputFor(q, a)));
    var y, ys :| Arrangement(q, b, y, ys) && forB == Limited(q.limit, Map(ys, OutputFor(q, b)));
    SameListing(q, schema, a, b, x, y);
    SameShown(q, schema, a, b, x);
  }

  // ---------- Aggregates without GROUP BY ----------

  /** The aggregates over all these rows. */
  function Totals(q: GroupedQuery, rows: seq<Row>): (totals: seq<Final>)
    requires AllAggregated(q)
    ensures |totals| == |q.items|
  {
    seq(|q.items|, i requires 0 <= i < |q.items| => Finalize(q.items[i].a, StateOf(q.items[i], rows)))
  }

  lemma {:induction false} StatesSnoc(items: seq<SelectItem>, rows: seq<Row>, row: Row)
    ensures StatesOf(items, rows + [row]) == TakeInto(items, StatesOf(items, rows), row)
  {
    hide Fold, Absorb, ValueOf;
    forall i | 0 <= i < |items|
      ensures StateOf(items[i], rows + [row]) == TakeOne(items[i], StateOf(items[i], rows), row)
    {
      StateSnoc(items[i], rows, row);
    }
  }

  lemma {:induction false} NothingTaken(items: seq<SelectItem>)
    ensures StatesOf(items, []) == seq(|items|, i => EMPTY_STATE)
  {
  }

  /**
   ExecuteGlobalAggregateSelect: one row over all accepted rows, even when there are none; only LIMIT 0
   leaves it out.
   */
  method ExecuteGlobal(q: GroupedQuery, schema: Schema, scanned: seq<Row>) returns (r: Result<seq<seq<Final>>>)
    requires AllAggregated(q) && GroupedWellTyped(q, schema) && RowsFit(scanned, schema)
    ensures r == Ok(Limited(q.limit, [Totals(q, Filter(scanned, Accepts(q.condition)))]))
  {
    hide Evaluate, KindOf, GroupedWellTyped, Filter, Accepts, RowFits, StateOf;
    var states := seq(|q.items|, i => EMPTY_STATE);
    NothingTaken(q.items);
    NoGroups(q, Accepts(q.condition));
    ghost var accepted: seq<Row> := [];
    assert Filter(scanned[..0], Accepts(q.condition)) == accepted by { NothingAccepted(Accepts(q.condition)); }
    for i := 0 to |scanned|
      invariant accepted == Filter(scanned[..i], Accepts(q.condition)) && states == StatesOf(q.items, accepted)
    {
      var row := scanned[i];
      assert row in scanned && scanned[..i + 1] == scanned[..i] + [row];
      FilterSnoc(scanned[..i], row, Accepts(q.condition));
      GroupedEvaluates(q, schema, row);
      var holds := true;
      if q.condition.Some? {
        var v := EvaluatePredicate(q.condition.value, row);
        if v.Err? { return Err; }
        holds := v.value;
      }
      AcceptedIs(q.condition, row);
      if !holds { continue; }
      StatesSnoc(q.items, accepted, row);
      var next := TakeRow(q, schema, states, row);
      if next.Err? { return Err; }
      states, accepted := next.value, accepted + [row];
    }
    assert scanned[..|scanned|] == scanned;
    var totals := [];
    for i := 0 to |q.items|
      invariant |totals| == i && forall k :: 0 <= k < i ==> totals[k] == Totals(q, accepted)[k]
    {
      totals := totals + [Finalize(q.items[i].a, states[i])];
    }
    assert totals == Totals(q, accepted);
    if q.limit == Some(0) { return Ok([]); }
    return Ok([totals]);
  }

  lemma {:induction false} NothingAccepted(p: Row -> bool)
    ensures Filter([], p) == []
  {
  }

  /** Each total is the exact aggregate of its expression over the rows. */
  lemma {:induction false} TotalIsExact(q: GroupedQuery, schema: Schema, rows: seq<Row>, i: nat)
    requires AllAggregated(q) && GroupedWellTyped(q, schema) && RowsFit(rows, schema) && i < |q.items|
    ensures var a, values := q.items[i].a, Map(rows, Evaluated(q.items[i].e));
            var present, total := Filter(values, Present()), Totals(q, rows)[i];
            && (a.Count? ==> total == Whole(|present|))
            && (!a.Count? ==> (total == Null <==> present == []))
            && (a.SumInt? && present != [] ==> total == Whole(SumOf(values)))
            && (a.MinInt? && present != [] ==> total.Whole? && IsLeastInt(values, total.n))
            && (a.MaxInt? && present != [] ==> total.Whole? && IsGreatestInt(values, total.n))
            && (a.MinDouble? && present != [] ==>
                  total.Real? && (IsLeastDouble(values, total.bits) <==> HasBelowInfinity(values)))
            && (a.MaxDouble? && present != [] ==>
                  total.Real? && (IsGreatestDouble(values, total.bits) <==> HasAboveMinusInfinity(values)))
  {
    hide Fold, Filter, Finalize, SumOf, RowFits, AggregateFits, IsLeastInt, IsGreatestInt, IsLeastDouble,
         IsGreatestDouble, HasBelowInfinity, HasAboveMinusInfinity, TakesAll;
    AllTaken(q.items[i], schema, rows);
    FinalIsExact(q.items[i].a, Map(rows, Evaluated(q.items[i].e)));
  }

  /** The totals do not depend on the order of the rows, but for the sign of a zero. */
  lemma {:induction false} TotalsPermuted(q: GroupedQuery, schema: Schema, a: seq<Row>, b: seq<Row>)
    requires AllAggregated(q) && GroupedWellTyped(q, schema) && RowsFit(a, schema) && multiset(a) == multiset(b)
    ensures forall i :: 0 <= i < |q.items| ==> AlikeFinal(Totals(q, a)[i], Totals(q, b)[i])
    ensures OverIntegers(q) ==> Totals(q, a) == Totals(q, b)
  {
    hide Finalize, AlikeFinal, AggregateFits, RowFits, StateOf;
    forall i | 0 <= i < |q.items|
      ensures AlikeFinal(Totals(q, a)[i], Totals(q, b)[i]) && (OverIntegers(q) ==> Totals(q, a)[i] == Totals(q, b)[i])
    {
      TotalPermuted(q.items[i], schema, a, b);
    }
  }
}
