/**
 What the answers of a SELECT hold, in terms of the values of its expressions: which rows they show, in which order,
 and which cells. Nothing here speaks of the comparator, the group map or the folds that compute them.
 */
module Answers {
  import opened Seqs
  import opened Storage
  import opened Doubles
  import opened Expressions
  import opened Meaning
  import opened Ordering
  import opened PlainSelect
  import opened Aggregates
  import opened Grouping

  // ---------- The order of two rows ----------

  /** Ascending: a value stands ahead of a greater one and of NULL. */
  ghost predicate Ahead(v: Nullable, w: Nullable) { v.Some? && (w.None? || Below(v.value, w.value)) }

  /** The same value, or both NULL. */
  ghost predicate Tied(v: Nullable, w: Nullable) {
    (v.None? && w.None?) || (v.Some? && w.Some? && Same(v.value, w.value))
  }

  lemma {:induction false} NullableMeans(v: Nullable, w: Nullable, tag: Tag)
    requires Ranked(v, tag) && Ranked(w, tag)
    ensures CompareNullable(v, w).Ok?
    ensures CompareNullable(v, w).value < 0 <==> Ahead(v, w)
    ensures CompareNullable(v, w).value == 0 <==> Tied(v, w)
    ensures CompareNullable(v, w).value > 0 <==> Ahead(w, v)
  {
    hide Compare, Below, Same, IsNaN;
    if v.Some? && w.Some? { CompareMeans(v.value, w.value); }
  }

  /** The first place where two lists of keys differ. */
  ghost predicate DifferAt(x: Keys, y: Keys, i: nat)
    requires |x| == |y|
  {
    i < |x| && (forall j :: 0 <= j < i ==> Tied(x[j], y[j])) && !Tied(x[i], y[i])
  }

  lemma {:induction false} DifferInTail(x: Keys, y: Keys, i: nat)
    requires |x| == |y| > 0
    ensures !Tied(x[0], y[0]) ==> (DifferAt(x, y, i) <==> i == 0)
    ensures Tied(x[0], y[0]) ==> (DifferAt(x, y, i) <==> i > 0 && DifferAt(x[1..], y[1..], i - 1))
  {
    hide Tied;
    if i > 0 && DifferAt(x[1..], y[1..], i - 1) && Tied(x[0], y[0]) {
      forall j | 0 <= j < i ensures Tied(x[j], y[j]) {
        if j > 0 { assert x[1..][j - 1] == x[j] && y[1..][j - 1] == y[j]; }
      }
    }
  }

  /** The comparator looks at the first difference, in the direction of its item. */
  lemma {:induction false} KeysMean(x: Keys, y: Keys, descending: seq<bool>, tags: seq<Tag>)
    requires KeysRanked(x, tags) && KeysRanked(y, tags) && |descending| == |tags|
    ensures forall i: nat :: DifferAt(x, y, i) ==>
                               (CompareKeys(x, y, descending) < 0
                                <==> if descending[i] then Ahead(y[i], x[i]) else Ahead(x[i], y[i]))
    ensures CompareKeys(x, y, descending) == 0 <==> forall i :: 0 <= i < |x| ==> Tied(x[i], y[i])
    decreases |x|
  {
    hide CompareNullable, Ranked, Tied, Ahead;
    if x != [] {
      NullableMeans(x[0], y[0], tags[0]);
      KeysMean(x[1..], y[1..], descending[1..], tags[1..]);
      forall i: nat | DifferAt(x, y, i)
        ensures CompareKeys(x, y, descending) < 0
                <==> if descending[i] then Ahead(y[i], x[i]) else Ahead(x[i], y[i])
      {
        DifferInTail(x, y, i);
      }
      if forall i :: 0 <= i < |x[1..]| ==> Tied(x[1..][i], y[1..][i]) {
        assert forall i :: 0 < i < |x| ==> x[i] == x[1..][i - 1] && y[i] == y[1..][i - 1];
      } else {
        var i :| 0 <= i < |x[1..]| && !Tied(x[1..][i], y[1..][i]);
        assert !Tied(x[i + 1], y[i + 1]);
      }
    }
  }

  lemma {:induction false} FirstDifference(x: Keys, y: Keys) returns (i: nat)
    requires |x| == |y| && exists k :: 0 <= k < |x| && !Tied(x[k], y[k])
    ensures DifferAt(x, y, i)
  {
    hide Tied;
    i := 0;
    while Tied(x[i], y[i])
      invariant i < |x| && forall j :: 0 <= j < i ==> Tied(x[j], y[j])
      decreases |x| - i
    {
      i := i + 1;
    }
  }

  /** The expression has the same value on both rows. */
  ghost predicate Ties(e: Expr, a: Row, b: Row) {
    Evaluate(e, a).Ok? && Evaluate(e, b).Ok? && Tied(Evaluate(e, a).value, Evaluate(e, b).value)
  }

  /** The first item whose values differ. */
  ghost predicate Decides(order: seq<OrderItem>, a: Row, b: Row, i: nat) {
    i < |order| && (forall j :: 0 <= j < i ==> Ties(order[j].e, a, b)) && !Ties(order[i].e, a, b)
  }

  /** ASC wants the smaller value in front, and NULL last; DESC the greater one, and NULL first. */
  ghost predicate Leads(item: OrderItem, a: Row, b: Row) {
    && Evaluate(item.e, a).Ok? && Evaluate(item.e, b).Ok?
    && var v, w := Evaluate(item.e, a).value, Evaluate(item.e, b).value;
    if item.descending then Ahead(w, v) else Ahead(v, w)
  }

  /** Row a may stand before row b: at the first item whose values differ, a has the one that belongs in front. */
  ghost predicate MayPrecede(order: seq<OrderItem>, a: Row, b: Row) {
    forall i: nat :: Decides(order, a, b, i) ==> Leads(order[i], a, b)
  }

  ghost predicate AllTied(es: seq<Expr>, a: Row, b: Row) { forall i :: 0 <= i < |es| ==> Ties(es[i], a, b) }

  /** Expressions that evaluate on the row, and not to a NaN. */
  ghost predicate Sortable(es: seq<Expr>, schema: Schema, row: Row) {
    RowFits(row, schema) && forall e :: e in es ==> KindOf(e, schema).Some? && !IsNaNCell(ValueOf(e, row))
  }

  function TagsOf(es: seq<Expr>, schema: Schema): (tags: seq<Tag>)
    ensures |tags| == |es| && forall i :: 0 <= i < |es| ==> tags[i] == TagOfExpr(es[i], schema)
  {
    seq(|es|, i requires 0 <= i < |es| => TagOfExpr(es[i], schema))
  }

  lemma {:induction false} SortableRanked(es: seq<Expr>, schema: Schema, row: Row)
    requires Sortable(es, schema, row)
    ensures KeysRanked(ValuesOf(es, row), TagsOf(es, schema))
    ensures forall e :: e in es ==> Evaluate(e, row) == Ok(ValueOf(e, row))
  {
    hide Evaluate, KindOf, TagOfExpr, RowFits;
    forall i | 0 <= i < |es|
      ensures Ranked(ValueOf(es[i], row), TagOfExpr(es[i], schema)) && Evaluate(es[i], row) == Ok(ValueOf(es[i], row))
    {
      assert es[i] in es;
      EvaluatedTag(es[i], schema, row);
    }
  }

  /** The comparator of ORDER BY, and of the group map, on two rows. */
  lemma {:induction false} RowsMean(order: seq<OrderItem>, es: seq<Expr>, schema: Schema, a: Row, b: Row)
    requires |es| == |order| && forall i :: 0 <= i < |es| ==> es[i] == order[i].e
    requires Sortable(es, schema, a) && Sortable(es, schema, b)
    ensures var sign := CompareKeys(ValuesOf(es, a), ValuesOf(es, b), Directions(order));
            && (sign <= 0 <==> MayPrecede(order, a, b))
            && (sign == 0 <==> AllTied(es, a, b))
  {
    hide Evaluate, CompareKeys, KeysRanked, Sortable, Tied, Ahead, TagsOf;
    var x, y, ds := ValuesOf(es, a), ValuesOf(es, b), Directions(order);
    SortableRanked(es, schema, a);
    SortableRanked(es, schema, b);
    KeysMean(x, y, ds, TagsOf(es, schema));
    forall i | 0 <= i < |es| ensures Ties(es[i], a, b) <==> Tied(x[i], y[i]) { assert es[i] in es; }
    forall i: nat ensures Decides(order, a, b, i) <==> DifferAt(x, y, i) {}
    forall i: nat | i < |es|
      ensures Leads(order[i], a, b) <==> if ds[i] then Ahead(y[i], x[i]) else Ahead(x[i], y[i])
    {
      assert es[i] in es;
    }
    if !AllTied(es, a, b) {
      var k :| 0 <= k < |es| && !Ties(es[k], a, b);
      assert !Tied(x[k], y[k]);
      var i := FirstDifference(x, y);
      assert Decides(order, a, b, i);
    }
  }

  // ---------- SELECT without aggregates ----------

  /** A row of the result: the values of the select items on a row of the table. */
  ghost predicate Shows(items: seq<Expr>, row: Row, values: Keys) {
    |values| == |items| && forall c :: 0 <= c < |items| ==> Evaluate(items[c], row) == Ok(values[c])
  }

  /** How many of n rows a LIMIT leaves. */
  function Kept(limit: Option<nat>, n: nat): nat { if limit.Some? && limit.value < n then limit.value else n }

  /** The result shows the first rows of p, which are the accepted rows in an order that ORDER BY allows. */
  ghost predicate ShowsInOrder(q: Query, accepted: seq<Row>, p: seq<Row>, result: seq<Keys>) {
    && multiset(p) == multiset(accepted)
    && (forall i, j :: 0 <= i < j < |p| ==> MayPrecede(q.order, p[i], p[j]))
    && |result| == Kept(q.limit, |p|)
    && (forall i :: 0 <= i < |result| ==> Shows(q.items, p[i], result[i]))
  }

  lemma {:induction false} ShowsOutput(q: Query, schema: Schema, row: Row, values: Keys)
    requires WellTyped(q, schema) && RowFits(row, schema)
    ensures Shows(q.items, row, values) <==> values == Output(q)(row)
  {
    hide Evaluate, KindOf;
    NothingThrows(q, schema, row);
    var shown := ValuesOf(q.items, row);
    forall c | 0 <= c < |q.items| ensures Evaluate(q.items[c], row) == Ok(shown[c]) { assert q.items[c] in q.items; }
    if Shows(q.items, row, values) {
      assert forall c :: 0 <= c < |q.items| ==> values[c] == shown[c];
    }
  }

  lemma {:induction false} SortableRow(q: Query, schema: Schema, rows: seq<Row>, row: Row)
    requires WellTyped(q, schema) && RowsFit(rows, schema) && SortsNoNaN(q, rows) && row in rows
    ensures Sortable(OrderExprs(q), schema, row)
  {
    hide Evaluate, KindOf, RowFits;
    forall e | e in OrderExprs(q) ensures KindOf(e, schema).Some? && !IsNaNCell(ValueOf(e, row)) {
      var i :| 0 <= i < |q.order| && OrderExprs(q)[i] == e;
      assert q.order[i] in q.order;
    }
  }

  lemma {:induction false} SortedMeans(q: Query, schema: Schema, rows: seq<Row>, p: seq<Row>)
    requires WellTyped(q, schema) && RowsFit(rows, schema) && SortsNoNaN(q, rows) && multiset(p) == multiset(rows)
    ensures SortedBy(q, p) <==> forall i, j :: 0 <= i < j < |p| ==> MayPrecede(q.order, p[i], p[j])
  {
    hide CompareKeys, MayPrecede, WellTyped, RowFits, SortsNoNaN, Sortable;
    forall i, j | 0 <= i < j < |p|
      ensures CompareKeys(SortKeysOf(q, p[i]), SortKeysOf(q, p[j]), Directions(q.order)) <= 0
              <==> MayPrecede(q.order, p[i], p[j])
    {
      assert p[i] in multiset(rows) && p[j] in multiset(rows);
      SortableRow(q, schema, rows, p[i]);
      SortableRow(q, schema, rows, p[j]);
      RowsMean(q.order, OrderExprs(q), schema, p[i], p[j]);
    }
  }

  /**
   The answers of a SELECT are the lists that show the first rows, up to the limit, of the accepted rows in some order
   in which, at the first ORDER BY item where two rows differ, the value that belongs in front comes first.
   */
  lemma {:induction false} AnswerMeans(q: Query, schema: Schema, accepted: seq<Row>, result: seq<Keys>)
    requires WellTyped(q, schema) && RowsFit(accepted, schema) && SortsNoNaN(q, accepted)
    ensures Answer(q, accepted, result) <==> exists p :: ShowsInOrder(q, accepted, p, result)
  {
    hide WellTyped, RowFits, SortsNoNaN, SortedBy, MayPrecede, Output, Shows;
    forall p | multiset(p) == multiset(accepted)
      ensures Arranges(q, accepted, p) && result == Map(Limited(q.limit, p), Output(q))
              <==> ShowsInOrder(q, accepted, p, result)
    {
      SortedMeans(q, schema, accepted, p);
      forall i | 0 <= i < |p| && i < |result|
        ensures Shows(q.items, p[i], result[i]) <==> result[i] == Output(q)(p[i])
      {
        assert p[i] in multiset(accepted);
        ShowsOutput(q, schema, p[i], result[i]);
      }
    }
    if Answer(q, accepted, result) {
      var p :| Arranges(q, accepted, p) && result == Map(Limited(q.limit, p), Output(q));
      assert ShowsInOrder(q, accepted, p, result);
    }
    if exists p :: ShowsInOrder(q, accepted, p, result) {
      var p :| ShowsInOrder(q, accepted, p, result);
      assert Arranges(q, accepted, p);
    }
  }

  /**
   Without ORDER BY, and with the key first and ascending, the accepted rows are shown as they come, but one row at
   least where there is one.
   */
  lemma {:induction false} StreamedMeans(q: Query, schema: Schema, accepted: seq<Row>)
    requires WellTyped(q, schema) && RowsFit(accepted, schema)
    ensures Streams(q) <==> q.order == [] || (q.order[0].e == Expr.Column(0) && !q.order[0].descending)
    ensures var result := Map(Streamed(q.limit, accepted), Output(q));
            && |result| == Kept(if q.limit == Some(0) then Some(1) else q.limit, |accepted|)
            && forall i :: 0 <= i < |result| ==> Shows(q.items, accepted[i], result[i])
  {
    hide WellTyped, RowFits, Output, Shows;
    var result := Map(Streamed(q.limit, accepted), Output(q));
    forall i | 0 <= i < |result| ensures Shows(q.items, accepted[i], result[i]) {
      assert accepted[i] in accepted;
      ShowsOutput(q, schema, accepted[i], result[i]);
    }
  }

  /** The expression yields a NaN on this row: all ones in the exponent, and a fraction. */
  ghost predicate YieldsNaN(e: Expr, row: Row) {
    exists d: U64 :: Evaluate(e, row) == Ok(Some(Data(Double(d))))
                     && d / HIDDEN_BIT % 2048 == 2047 && d % HIDDEN_BIT != 0
  }

  lemma {:induction false} NaNCellMeans(e: Expr, row: Row)
    ensures IsNaNCell(ValueOf(e, row)) <==> YieldsNaN(e, row)
  {
    hide Evaluate, IsNaN;
    var v := ValueOf(e, row);
    if v.Some? && v.value.Data? && v.value.value.Double? { NaNFields(v.value.value.bits); }
    if YieldsNaN(e, row) {
      var d: U64 :| Evaluate(e, row) == Ok(Some(Data(Double(d))))
                    && d / HIDDEN_BIT % 2048 == 2047 && d % HIDDEN_BIT != 0;
      NaNFields(d);
    }
  }

  /** What the theorems on ORDER BY and GROUP BY ask of the rows: no NaN among the values that they sort by. */
  lemma {:induction false} NoNaNMeans(q: Query, g: GroupedQuery, rows: seq<Row>)
    ensures SortsNoNaN(q, rows) <==> forall row, o :: row in rows && o in q.order ==> !YieldsNaN(o.e, row)
    ensures NoNaNKeys(g, rows) <==> forall row, e :: row in rows && e in g.groupBy ==> !YieldsNaN(e, row)
    ensures NoNaNOrder(g, rows) <==> forall row, o :: row in rows && o in g.order ==> !YieldsNaN(o.e, row)
  {
    hide IsNaNCell, ValueOf, YieldsNaN;
    forall e, row ensures IsNaNCell(ValueOf(e, row)) <==> YieldsNaN(e, row) { NaNCellMeans(e, row); }
  }

  // ---------- SELECT with GROUP BY ----------

  /** Both rows have the same value in every GROUP BY item. */
  ghost function TogetherWith(groupBy: seq<Expr>, row: Row): Row -> bool {
    (r: Row) => AllTied(groupBy, row, r)
  }

  /** The rows fall apart into these groups, each of them all the rows that go with its first one, as they come. */
  ghost predicate Partition(groupBy: seq<Expr>, rows: seq<Row>, groups: seq<seq<Row>>) {
    && (forall i :: 0 <= i < |groups| ==> IsGroupOf(groupBy, rows, groups[i]))
    && (forall i, j :: 0 <= i < j < |groups| ==> !AllTied(groupBy, groups[i][0], groups[j][0]))
    && (forall row :: row in rows ==> exists i :: 0 <= i < |groups| && row in groups[i])
  }

  ghost predicate IsGroupOf(groupBy: seq<Expr>, rows: seq<Row>, group: seq<Row>) {
    group != [] && group == Filter(rows, TogetherWith(groupBy, group[0]))
  }

  /** The values of an expression on these rows. */
  ghost predicate AreValues(e: Expr, rows: seq<Row>, values: seq<Nullable>) {
    |values| == |rows| && forall k :: 0 <= k < |rows| ==> Evaluate(e, rows[k]) == Ok(values[k])
  }

  /** The aggregate of the item's values on these rows. */
  ghost predicate ShowsTotal(item: SelectItem, rows: seq<Row>, total: Final) {
    item.Aggregated? && exists values :: AreValues(item.e, rows, values) && IsAggregate(item.a, values, total)
  }

  /** A plain cell is the item's value on the first row of the group, an aggregate is over all of them. */
  ghost predicate ShowsCell(item: SelectItem, group: seq<Row>, cell: OutCell)
    requires group != []
  {
    match item
    case Plain(e) => cell.Cell? && Evaluate(e, group[0]) == Ok(cell.v)
    case Aggregated(_, _) => cell.Total? && ShowsTotal(item, group, cell.f)
  }

  ghost predicate ShowsGroup(items: seq<SelectItem>, group: seq<Row>, row: seq<OutCell>)
    requires group != []
  {
    |row| == |items| && forall c :: 0 <= c < |items| ==> ShowsCell(items[c], group, row[c])
  }

  /** ORDER BY for groups; without it they come in ascending order of the GROUP BY items. */
  function GroupOrder(q: GroupedQuery): (order: seq<OrderItem>) {
    if q.order != [] then q.order else Ascendingly(q.groupBy)
  }

  function Ascendingly(es: seq<Expr>): (order: seq<OrderItem>)
    ensures |order| == |es| && forall i :: 0 <= i < |es| ==> order[i] == OrderItem(es[i], false)
  {
    seq(|es|, i requires 0 <= i < |es| => OrderItem(es[i], false))
  }

  /** The result shows the first of these groups; their first rows are in the order asked for. */
  ghost predicate ShowsGroups(q: GroupedQuery, rows: seq<Row>, groups: seq<seq<Row>>, result: seq<seq<OutCell>>) {
    && Partition(q.groupBy, rows, groups)
    && (forall i, j :: 0 <= i < j < |groups| ==> MayPrecede(GroupOrder(q), groups[i][0], groups[j][0]))
    && |result| == Kept(q.limit, |groups|)
    && (forall i :: 0 <= i < |result| ==> ShowsGroup(q.items, groups[i], result[i]))
  }

  function GroupOrderExprs(q: GroupedQuery): seq<Expr> {
    if q.order != [] then Map(q.order, (o: OrderItem) => o.e) else q.groupBy
  }

  lemma {:induction false} GroupSortable(q: GroupedQuery, schema: Schema, rows: seq<Row>, row: Row)
    requires Orderable(q, schema, rows) && row in rows
    ensures Sortable(q.groupBy, schema, row) && Sortable(GroupOrderExprs(q), schema, row)
  {
    hide KindOf, ValueOf, RowFits, AggregateFits;
    forall e | e in q.groupBy ensures KindOf(e, schema).Some? && !IsNaNCell(ValueOf(e, row)) {
      var j :| 0 <= j < |q.groupBy| && q.groupBy[j] == e;
    }
    var es := GroupOrderExprs(q);
    if q.order != [] {
      forall e | e in es ensures KindOf(e, schema).Some? && !IsNaNCell(ValueOf(e, row)) {
        var k :| 0 <= k < |q.order| && es[k] == e;
        assert q.order[k].e == e;
      }
    }
  }

  /** Two rows have one group key iff they have the same value in every GROUP BY item. */
  lemma {:induction false} SameKeyMeans(q: GroupedQuery, schema: Schema, rows: seq<Row>, a: Row, b: Row)
    requires Orderable(q, schema, rows) && a in rows && b in rows
    ensures KeyOf(q, a) == KeyOf(q, b) <==> AllTied(q.groupBy, a, b)
  {
    hide Orderable, Sortable, CompareKeys, AllTied, MayPrecede, ValueOf, Canon, KeysRanked;
    GroupSortable(q, schema, rows, a);
    GroupSortable(q, schema, rows, b);
    SortableRanked(q.groupBy, schema, a);
    SortableRanked(q.groupBy, schema, b);
    EqualKeys(ValuesOf(q.groupBy, a), ValuesOf(q.groupBy, b), TagsOf(q.groupBy, schema));
    RowsMean(Ascendingly(q.groupBy), q.groupBy, schema, a, b);
    assert Directions(Ascendingly(q.groupBy)) == Upwards(|q.groupBy|);
  }

  lemma {:induction false} MembersMean(q: GroupedQuery, schema: Schema, rows: seq<Row>, key: Keys)
    requires Orderable(q, schema, rows) && HasGroup(q, rows, key)
    ensures var group := Members(q, rows, key);
            && group != [] && group[0] in rows && KeyOf(q, group[0]) == key && IsGroupOf(q.groupBy, rows, group)
    ensures forall row :: row in rows && KeyOf(q, row) == key ==> row in Members(q, rows, key)
  {
    hide Orderable, KeyOf, AllTied, Filter;
    var group := Members(q, rows, key);
    InFilter(rows, InGroup(q, key));
    var some :| some in rows && KeyOf(q, some) == key;
    assert some in group;
    FirstIn(group);
    var first := group[0];
    forall row | row in rows ensures InGroup(q, key)(row) == TogetherWith(q.groupBy, first)(row) {
      SameKeyMeans(q, schema, rows, first, row);
    }
    FilterSame(rows, InGroup(q, key), TogetherWith(q.groupBy, first));
  }

  lemma {:induction false} EvaluatedValues(e: Expr, schema: Schema, group: seq<Row>)
    requires KindOf(e, schema).Some? && RowsFit(group, schema)
    ensures AreValues(e, group, Map(group, Evaluated(e)))
  {
    hide Evaluate, KindOf, RowFits;
    forall k | 0 <= k < |group| ensures Evaluate(e, group[k]) == Ok(ValueOf(e, group[k])) {
      assert group[k] in group;
      WellTypedEvaluates(e, schema, group[k]);
    }
  }

  lemma {:induction false} TotalMeans(item: SelectItem, schema: Schema, group: seq<Row>)
    requires item.Aggregated? && AggregateFits(item, schema) && RowsFit(group, schema)
    ensures var values := Map(group, Evaluated(item.e));
            AreValues(item.e, group, values) && IsAggregate(item.a, values, Finalize(item.a, StateOf(item, group)))
  {
    hide KindOf, RowFits, Finalize, Fold, IsAggregate, ValueOf, TagOfExpr, AreValues;
    EvaluatedValues(item.e, schema, group);
    AllTaken(item, schema, group);
    FinalIs(item.a, Map(group, Evaluated(item.e)));
  }

  /** What the output row of a group shows. */
  lemma {:induction false} OutputMeans(q: GroupedQuery, schema: Schema, rows: seq<Row>, key: Keys)
    requires Orderable(q, schema, rows) && HasGroup(q, rows, key)
    ensures Members(q, rows, key) != [] && ShowsGroup(q.items, Members(q, rows, key), OutputFor(q, rows)(key))
  {
    hide Evaluate, KindOf, RowFits, Finalize, IsAggregate, AggregateFits, StateOf, AreValues, Members, HasGroup;
    MembersMean(q, schema, rows, key);
    var group, row := Members(q, rows, key), OutputFor(q, rows)(key);
    MembersFit(q, schema, rows, key);
    forall c | 0 <= c < |q.items| ensures ShowsCell(q.items[c], group, row[c]) {
      var item := q.items[c];
      assert AggregateFits(item, schema);
      if item.Plain? {
        PlainFits(item, schema);
        WellTypedEvaluates(item.e, schema, group[0]);
      } else {
        TotalMeans(item, schema, group);
      }
    }
  }

  lemma {:induction false} PlainFits(item: SelectItem, schema: Schema)
    requires AggregateFits(item, schema)
    ensures KindOf(item.e, schema).Some?
  {
  }

  lemma {:induction false} MembersFit(q: GroupedQuery, schema: Schema, rows: seq<Row>, key: Keys)
    requires RowsFit(rows, schema)
    ensures RowsFit(Members(q, rows, key), schema)
  {
    hide RowFits, KeyOf;
    InFilter(rows, InGroup(q, key));
  }

  /** Group keys compare as the GROUP BY values of any of their rows do. */
  lemma {:induction false} KeysCompare(q: GroupedQuery, a: Row, b: Row, descending: seq<bool>)
    ensures CompareKeys(KeyOf(q, a), KeyOf(q, b), descending)
            == CompareKeys(ValuesOf(q.groupBy, a), ValuesOf(q.groupBy, b), descending)
  {
    hide CompareKeys, ValuesOf;
    CanonTwice(ValuesOf(q.groupBy, a));
    CanonTwice(ValuesOf(q.groupBy, b));
    CompareAlike(KeyOf(q, a), KeyOf(q, b), ValuesOf(q.groupBy, a), ValuesOf(q.groupBy, b), descending);
  }

  /** The order of two groups is that of their first rows. */
  lemma {:induction false} GroupsOrdered(q: GroupedQuery, schema: Schema, rows: seq<Row>, x: Keys, y: Keys)
    requires Orderable(q, schema, rows) && HasGroup(q, rows, x) && HasGroup(q, rows, y)
    requires if q.order == [] then CompareKeys(x, y, Upwards(|q.groupBy|)) <= 0
             else CompareKeys(OrderValuesFor(q, rows, x), OrderValuesFor(q, rows, y), Directions(q.order)) <= 0
    ensures Members(q, rows, x) != [] && Members(q, rows, y) != []
    ensures MayPrecede(GroupOrder(q), Members(q, rows, x)[0], Members(q, rows, y)[0])
  {
    hide Orderable, CompareKeys, ValuesOf, MayPrecede, AllTied, Sortable, Members, HasGroup, KeyOf, IsGroupOf,
         Directions, PlainValues, StatesOf;
    MembersMean(q, schema, rows, x);
    MembersMean(q, schema, rows, y);
    var a, b := Members(q, rows, x)[0], Members(q, rows, y)[0];
    GroupSortable(q, schema, rows, a);
    GroupSortable(q, schema, rows, b);
    RowsMean(GroupOrder(q), GroupOrderExprs(q), schema, a, b);
    if q.order == [] {
      KeysCompare(q, a, b, Upwards(|q.groupBy|));
      AscendingDirections(q.groupBy);
    }
  }

  lemma {:induction false} AscendingDirections(es: seq<Expr>)
    ensures Directions(Ascendingly(es)) == Upwards(|es|)
  {
  }

  /** No key is listed twice. */
  lemma {:induction false} KeysOnce(q: GroupedQuery, schema: Schema, rows: seq<Row>, keys: seq<Keys>, p: seq<Keys>)
    requires Orderable(q, schema, rows) && ListsGroups(q, rows, keys) && multiset(p) == multiset(keys)
    ensures forall i, j :: 0 <= i < j < |p| ==> p[i] != p[j]
  {
    hide CompareKeys, KeysRanked, GroupedWellTyped, RowFits, HasGroup, NoNaNKeys, NoNaNOrder;
    ListedRanked(q, schema, rows, keys);
    forall i, j | 0 <= i < j < |keys| ensures keys[i] != keys[j] {
      assert keys[i] in keys;
      KeysReverse(keys[i], keys[i], Upwards(|q.groupBy|), GroupTags(q, schema));
    }
    DistinctPermuted(keys, p);
  }

  lemma {:induction false} DistinctPermuted<T>(s: seq<T>, p: seq<T>)
    requires multiset(p) == multiset(s) && forall i, j :: 0 <= i < j < |s| ==> s[i] != s[j]
    ensures forall i, j :: 0 <= i < j < |p| ==> p[i] != p[j]
  {
    forall x ensures multiset(s)[x] <= 1 { OnceCounted(s, x); }
    forall i, j | 0 <= i < j < |p| ensures p[i] != p[j] {
      var front := p[..j];
      assert p == front + [p[j]] + p[j + 1..];
      assert multiset(p) == multiset(front) + multiset{p[j]} + multiset(p[j + 1..]);
      assert front[i] in multiset(front);
      assert multiset(s)[p[j]] <= 1;
    }
  }

  lemma {:induction false} OnceCounted<T>(s: seq<T>, x: T)
    requires forall i, j :: 0 <= i < j < |s| ==> s[i] != s[j]
    ensures multiset(s)[x] <= 1
  {
    if s != [] {
      assert s == [s[0]] + s[1..];
      OnceCounted(s[1..], x);
      if s[0] == x { assert x !in s[1..]; }
    }
  }

  /** The groups behind the keys. */
  ghost function GroupsOf(q: GroupedQuery, rows: seq<Row>, p: seq<Keys>): (groups: seq<seq<Row>>)
    ensures |groups| == |p| && forall i :: 0 <= i < |p| ==> groups[i] == Members(q, rows, p[i])
  {
    seq(|p|, i requires 0 <= i < |p| => Members(q, rows, p[i]))
  }

  /** The group at a place of the listing. */
  lemma {:induction false} GroupAt(q: GroupedQuery, schema: Schema, rows: seq<Row>, p: seq<Keys>, i: nat)
    requires Orderable(q, schema, rows) && i < |p| && HasGroup(q, rows, p[i])
    ensures var group := GroupsOf(q, rows, p)[i];
            && group != [] && group[0] in rows && KeyOf(q, group[0]) == p[i] && IsGroupOf(q.groupBy, rows, group)
    ensures forall row :: row in rows && KeyOf(q, row) == p[i] ==> row in GroupsOf(q, rows, p)[i]
  {
    hide Orderable, IsGroupOf, KeyOf, Members, HasGroup;
    MembersMean(q, schema, rows, p[i]);
  }

  lemma {:induction false} GroupsApart(q: GroupedQuery, schema: Schema, rows: seq<Row>, p: seq<Keys>, i: nat, j: nat)
    requires Orderable(q, schema, rows) && i < |p| && j < |p| && HasGroup(q, rows, p[i]) && HasGroup(q, rows, p[j])
    requires p[i] != p[j]
    ensures var groups := GroupsOf(q, rows, p);
            groups[i] != [] && groups[j] != [] && !AllTied(q.groupBy, groups[i][0], groups[j][0])
  {
    hide Orderable, IsGroupOf, KeyOf, HasGroup, GroupsOf, AllTied;
    GroupAt(q, schema, rows, p, i);
    GroupAt(q, schema, rows, p, j);
    var groups := GroupsOf(q, rows, p);
    SameKeyMeans(q, schema, rows, groups[i][0], groups[j][0]);
  }

  lemma {:induction false} RowCovered(q: GroupedQuery, schema: Schema, rows: seq<Row>, p: seq<Keys>, row: Row)
    requires Orderable(q, schema, rows) && row in rows && KeyOf(q, row) in p
    ensures exists i :: 0 <= i < |p| && row in GroupsOf(q, rows, p)[i]
  {
    hide Orderable, IsGroupOf, KeyOf, GroupsOf;
    assert HasGroup(q, rows, KeyOf(q, row));
    var i :| 0 <= i < |p| && p[i] == KeyOf(q, row);
    GroupAt(q, schema, rows, p, i);
  }

  lemma {:induction false} GroupsPartition(q: GroupedQuery, schema: Schema, rows: seq<Row>, keys: seq<Keys>,
                                           p: seq<Keys>)
    requires Orderable(q, schema, rows) && ListsGroups(q, rows, keys) && multiset(p) == multiset(keys)
    ensures Partition(q.groupBy, rows, GroupsOf(q, rows, p))
    ensures forall i :: 0 <= i < |p| ==> HasGroup(q, rows, p[i])
  {
    hide Orderable, StrictKeys, IsGroupOf, AllTied, KeyOf, HasGroup, GroupsOf;
    var groups := GroupsOf(q, rows, p);
    forall i | 0 <= i < |p|
      ensures HasGroup(q, rows, p[i]) && groups[i] != [] && IsGroupOf(q.groupBy, rows, groups[i])
    {
      assert p[i] in multiset(keys);
      GroupAt(q, schema, rows, p, i);
    }
    forall i, j | 0 <= i < j < |groups|
      ensures groups[i] != [] && groups[j] != [] && !AllTied(q.groupBy, groups[i][0], groups[j][0])
    {
      KeysOnce(q, schema, rows, keys, p);
      GroupsApart(q, schema, rows, p, i, j);
    }
    forall row | row in rows ensures exists i :: 0 <= i < |groups| && row in groups[i] {
      KeyListed(q, rows, keys, row);
      assert KeyOf(q, row) in multiset(p);
      RowCovered(q, schema, rows, p, row);
    }
  }

  lemma {:induction false} KeyListed(q: GroupedQuery, rows: seq<Row>, keys: seq<Keys>, row: Row)
    requires ListsGroups(q, rows, keys) && row in rows
    ensures KeyOf(q, row) in keys
  {
    hide KeyOf, StrictKeys;
    assert HasGroup(q, rows, KeyOf(q, row));
  }

  /**
   What an answer of a grouped SELECT shows: the accepted rows fall apart into groups of those with the same values in
   every GROUP BY item; the first groups, up to the limit, are shown in the order asked for, each with the
   plain items of its first row and with the aggregates of all its rows.
   */
  lemma {:induction false} GroupedAnswerMeans(q: GroupedQuery, schema: Schema, rows: seq<Row>,
                                              result: seq<seq<OutCell>>)
    requires Orderable(q, schema, rows) && GroupedAnswer(q, rows, result)
    ensures exists groups :: ShowsGroups(q, rows, groups, result)
  {
    hide Orderable, ListsGroups, CompareKeys, HasGroup, Partition, MayPrecede, ShowsGroup, OutputFor, Members,
         OrderValuesFor;
    var keys, p :| Arrangement(q, rows, keys, p) && result == Limited(q.limit, Map(p, OutputFor(q, rows)));
    var groups := GroupsOf(q, rows, p);
    GroupsPartition(q, schema, rows, keys, p);
    forall i | 0 <= i < |p| ensures groups[i] != [] && ShowsGroup(q.items, groups[i], OutputFor(q, rows)(p[i])) {
      OutputMeans(q, schema, rows, p[i]);
    }
    forall i, j | 0 <= i < j < |p| ensures MayPrecede(GroupOrder(q), groups[i][0], groups[j][0]) {
      if q.order == [] { ListedAscending(q, rows, keys, i, j); }
      GroupsOrdered(q, schema, rows, p[i], p[j]);
    }
    assert ShowsGroups(q, rows, groups, result);
  }

  lemma {:induction false} ListedAscending(q: GroupedQuery, rows: seq<Row>, keys: seq<Keys>, i: nat, j: nat)
    requires ListsGroups(q, rows, keys) && i < j < |keys|
    ensures CompareKeys(keys[i], keys[j], Upwards(|q.groupBy|)) < 0
  {
    hide CompareKeys, HasGroup;
  }

  // ---------- SELECT of aggregates alone ----------

  /** Each total is the aggregate of its expression's values on all these rows. */
  ghost predicate ShowsTotals(items: seq<SelectItem>, rows: seq<Row>, totals: seq<Final>) {
    |totals| == |items| && forall i :: 0 <= i < |items| ==> ShowsTotal(items[i], rows, totals[i])
  }

  lemma {:induction false} TotalsMean(q: GroupedQuery, schema: Schema, rows: seq<Row>)
    requires AllAggregated(q) && GroupedWellTyped(q, schema) && RowsFit(rows, schema)
    ensures ShowsTotals(q.items, rows, Totals(q, rows))
  {
    hide KindOf, RowFits, Finalize, StateOf, IsAggregate, AreValues, AggregateFits;
    forall i | 0 <= i < |q.items| ensures ShowsTotal(q.items[i], rows, Totals(q, rows)[i]) {
      assert AggregateFits(q.items[i], schema);
      TotalMeans(q.items[i], schema, rows);
    }
  }

  lemma {:induction false} SumPermuted(v: seq<Nullable>, w: seq<Nullable>)
    requires multiset(v) == multiset(w) && TakesAll(SumInt, v)
    ensures SumOf(v) == SumOf(w)
  {
    hide SumOf, Fold;
    forall x ensures x in w ==> x in v { assert x in multiset(w) <==> x in multiset(v); }
    SumIs(v);
    SumIs(w);
    FoldPermuted(SumInt, v, w);
  }

  lemma {:induction false} PresentPermuted(v: seq<Nullable>, w: seq<Nullable>)
    requires multiset(v) == multiset(w)
    ensures |Filter(v, Present())| == |Filter(w, Present())|
  {
    FilterPermuted(v, w, Present());
    assert |multiset(Filter(v, Present()))| == |Filter(v, Present())|;
    assert |multiset(Filter(w, Present()))| == |Filter(w, Present())|;
  }

  /** An aggregate of some values is one of the same values in another order. */
  lemma {:induction false} AggregatePermuted(a: Aggregate, v: seq<Nullable>, w: seq<Nullable>, final: Final)
    requires multiset(v) == multiset(w) && IsAggregate(a, v, final) && TakesAll(a, v)
    ensures IsAggregate(a, w, final)
  {
    hide SumOf, Filter, Takes, IsNaN;
    forall x ensures x in v <==> x in w { assert x in multiset(v) <==> x in multiset(w); }
    PresentPermuted(v, w);
    if a.SumInt? { SumPermuted(v, w); }
  }

  /** The totals of some rows are totals of the same rows in another order. */
  lemma {:induction false} TotalsForAnyOrder(q: GroupedQuery, schema: Schema, a: seq<Row>, b: seq<Row>,
                                             totals: seq<Final>)
    requires AllAggregated(q) && GroupedWellTyped(q, schema) && RowsFit(a, schema) && multiset(a) == multiset(b)
    requires ShowsTotals(q.items, a, totals)
    ensures ShowsTotals(q.items, b, totals)
  {
    hide KindOf, RowFits, IsAggregate, AggregateFits, Evaluated, AreValues, TakesAll;
    forall row | row in b ensures row in a { assert row in multiset(a) <==> row in multiset(b); }
    forall i | 0 <= i < |q.items| ensures ShowsTotal(q.items[i], b, totals[i]) {
      var item := q.items[i];
      assert AggregateFits(item, schema);
      PlainFits(item, schema);
      EvaluatedValues(item.e, schema, a);
      EvaluatedValues(item.e, schema, b);
      var values :| AreValues(item.e, a, values) && IsAggregate(item.a, values, totals[i]);
      ValuesUnique(item.e, a, values, Map(a, Evaluated(item.e)));
      MapMultiset(a, b, Evaluated(item.e));
      AllTaken(item, schema, a);
      AggregatePermuted(item.a, Map(a, Evaluated(item.e)), Map(b, Evaluated(item.e)), totals[i]);
    }
  }

  lemma {:induction false} ValuesUnique(e: Expr, rows: seq<Row>, v: seq<Nullable>, w: seq<Nullable>)
    requires AreValues(e, rows, v) && AreValues(e, rows, w)
    ensures v == w
  {
    hide Evaluate;
    forall k | 0 <= k < |rows| ensures v[k] == w[k] { assert Evaluate(e, rows[k]) == Ok(v[k]); }
  }
}
