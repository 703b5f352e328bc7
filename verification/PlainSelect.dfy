/** SELECT without aggregates: filtering, ORDER BY with its key-ascending shortcut, and LIMIT. */
module PlainSelect {
  import opened Seqs
  import opened Storage
  import opened Doubles
  import opened Expressions
  import opened Ordering

  datatype OrderItem = OrderItem(e: Expr, descending: bool)

  datatype Query = Query(condition: Option<Expr>, items: seq<Expr>, order: seq<OrderItem>, limit: Option<nat>)

  function ValueOf(e: Expr, row: Row): Nullable { if Evaluate(e, row).Ok? then Evaluate(e, row).value else None }

  function ValuesOf(es: seq<Expr>, row: Row): (values: Keys)
    ensures |values| == |es| && forall i :: 0 <= i < |es| ==> values[i] == ValueOf(es[i], row)
  {
    seq(|es|, i requires 0 <= i < |es| => ValueOf(es[i], row))
  }

  function OrderExprs(q: Query): (es: seq<Expr>)
    ensures |es| == |q.order|
  {
    Map(q.order, (o: OrderItem) => o.e)
  }

  function Directions(order: seq<OrderItem>): (ds: seq<bool>)
    ensures |ds| == |order|
  {
    Map(order, (o: OrderItem) => o.descending)
  }

  function SortKeysOf(q: Query, row: Row): Keys { ValuesOf(OrderExprs(q), row) }

  /** The result row that a table row becomes. */
  function Output(q: Query): Row -> Keys {
    (row: Row) => ValuesOf(q.items, row)
  }

  function ToSortRow(q: Query): Row -> SortRow<Keys> {
    (row: Row) => SortRow(SortKeysOf(q, row), ValuesOf(q.items, row))
  }

  // ---------- Well-typed queries ----------

  predicate AllTyped(es: seq<Expr>, schema: Schema) { forall e :: e in es ==> KindOf(e, schema).Some? }

  predicate WellTyped(q: Query, schema: Schema) {
    && (q.condition.Some? ==> IsCondition(q.condition.value, schema))
    && AllTyped(q.items, schema) && AllTyped(OrderExprs(q), schema)
  }

  /** What a well-typed expression evaluates to when it is not NULL. */
  function TagOfExpr(e: Expr, schema: Schema): Tag {
    match e
    case Literal(Some(Double(_))) => DoubleTag
    case Literal(Some(Str(_))) => TextTag
    case Literal(_) => IntTag
    case Column(index) =>
      if index == 0 || index > |schema| then IntTag
      else (match schema[index - 1] case INT64 => IntTag case DOUBLE => DoubleTag case STRING => TextTag)
    case _ => BoolTag
  }

  predicate IsNaNCell(v: Nullable) { v.Some? && v.value.Data? && v.value.value.Double? && IsNaN(v.value.value.bits) }

  lemma {:induction false} EvaluatedTag(e: Expr, schema: Schema, row: Row)
    requires RowFits(row, schema) && KindOf(e, schema).Some?
    ensures Evaluate(e, row).Ok?
    ensures Evaluate(e, row).value.Some? ==> TagOf(Evaluate(e, row).value.value) == TagOfExpr(e, schema)
  {
    WellTypedEvaluates(e, schema, row);
    match e
    case Column(index) => if index > 0 { assert CellFits(row.cells[index - 1], schema[index - 1]); }
    case _ =>
  }

  function OrderTags(order: seq<OrderItem>, schema: Schema): (tags: seq<Tag>)
    ensures |tags| == |order|
  {
    Map(order, (o: OrderItem) => TagOfExpr(o.e, schema))
  }

  /** No sort key of these rows is a NaN. */
  ghost predicate SortsNoNaN(q: Query, rows: seq<Row>) {
    forall row, o :: row in rows && o in q.order ==> !IsNaNCell(ValueOf(o.e, row))
  }

  lemma {:induction false} SortKeysRanked(q: Query, schema: Schema, rows: seq<Row>, row: Row)
    requires WellTyped(q, schema) && RowFits(row, schema) && row in rows && SortsNoNaN(q, rows)
    ensures KeysRanked(SortKeysOf(q, row), OrderTags(q.order, schema))
  {
    forall i | 0 <= i < |q.order| ensures Ranked(SortKeysOf(q, row)[i], OrderTags(q.order, schema)[i]) {
      assert q.order[i] in q.order && OrderExprs(q)[i] in OrderExprs(q);
      EvaluatedTag(q.order[i].e, schema, row);
    }
  }

  method EvaluateAll(es: seq<Expr>, row: Row) returns (r: Result<Keys>)
    ensures r.Ok? <==> forall e :: e in es ==> Evaluate(e, row).Ok?
    ensures r.Ok? ==> r.value == ValuesOf(es, row)
  {
    hide Evaluate;
    var values := [];
    for i := 0 to |es|
      invariant |values| == i && forall k :: 0 <= k < i ==> Evaluate(es[k], row).Ok? && values[k] == ValueOf(es[k], row)
    {
      var v := Evaluate(es[i], row);
      if v.Err? {
        assert es[i] in es;
        return Err;
      }
      values := values + [v.value];
    }
    assert values == ValuesOf(es, row);
    return Ok(values);
  }

  // ---------- The select ----------

  /** IsRuquiredKeyAsc: the first ORDER BY item is the key, ascending. */
  predicate KeyAscending(q: Query) { q.order != [] && q.order[0] == OrderItem(Column(0), false) }

  /** Rows go straight to the result, without a sort. */
  predicate Streams(q: Query) { q.order == [] || KeyAscending(q) }

  /** The loop stops when the limit is reached; it tests the limit only after pushing a row. */
  function Streamed(limit: Option<nat>, accepted: seq<Row>): seq<Row> {
    if limit.None? then accepted
    else
      var n := if limit.value == 0 then 1 else limit.value;
      if n < |accepted| then accepted[..n] else accepted
  }

  function Limited<T>(limit: Option<nat>, rows: seq<T>): seq<T> {
    if limit.Some? && limit.value < |rows| then rows[..limit.value] else rows
  }

  ghost predicate SortedBy(q: Query, rows: seq<Row>) {
    forall i, j :: 0 <= i < j < |rows| ==>
      CompareKeys(SortKeysOf(q, rows[i]), SortKeysOf(q, rows[j]), Directions(q.order)) <= 0
  }

  /** What a SELECT promises: the first rows, up to the limit, of the accepted ones in the requested order. */
  ghost predicate Answer(q: Query, accepted: seq<Row>, result: seq<Keys>) {
    exists p :: Arranges(q, accepted, p) && result == Map(Limited(q.limit, p), Output(q))
  }

  ghost predicate Arranges(q: Query, accepted: seq<Row>, p: seq<Row>) {
    multiset(p) == multiset(accepted) && SortedBy(q, p)
  }

  /** A well-typed query, and accepted rows that the sort, where there is one, can order. */
  ghost predicate Selectable(q: Query, schema: Schema, scanned: seq<Row>) {
    && WellTyped(q, schema) && RowsFit(scanned, schema)
    && (Streams(q) || SortsNoNaN(q, Filter(scanned, Accepts(q.condition))))
  }

  lemma {:induction false} NothingThrows(q: Query, schema: Schema, row: Row)
    requires WellTyped(q, schema) && RowFits(row, schema)
    ensures q.condition.Some? ==> EvaluatePredicate(q.condition.value, row).Ok?
    ensures forall e :: e in q.items || e in OrderExprs(q) ==> Evaluate(e, row).Ok?
  {
    hide Evaluate, KindOf;
    if q.condition.Some? { WellTypedEvaluates(q.condition.value, schema, row); }
    forall e | e in q.items || e in OrderExprs(q) ensures Evaluate(e, row).Ok? { WellTypedEvaluates(e, schema, row); }
  }

  /** One turn of the loop: None for a rejected row. Sort keys are evaluated only where they are needed. */
  method Visit(q: Query, schema: Schema, row: Row, withKeys: bool) returns (r: Result<Option<SortRow<Keys>>>)
    requires WellTyped(q, schema) && RowFits(row, schema)
    ensures r.Ok? && (r.value.Some? <==> Accepts(q.condition)(row))
    ensures r.value.Some? ==> r.value.value == SortRow(if withKeys then SortKeysOf(q, row) else [], Output(q)(row))
  {
    hide Evaluate, KindOf, WellTyped;
    NothingThrows(q, schema, row);
    if q.condition.Some? {
      var holds := EvaluatePredicate(q.condition.value, row);
      if holds.Err? { return Err; }
      if !holds.value { return Ok(None); }
    }
    var values := EvaluateAll(q.items, row);
    if values.Err? { return Err; }
    if !withKeys { return Ok(Some(SortRow([], values.value))); }
    var keys := EvaluateAll(OrderExprs(q), row);
    if keys.Err? { return Err; }
    return Ok(Some(SortRow(keys.value, values.value)));
  }

  /** Where the loop stands: `taken` are the rows accepted so far. */
  ghost predicate Standing(q: Query, all: seq<Row>, taken: seq<Row>, rest: seq<Row>, result: seq<Keys>,
                           sorted: seq<SortRow<Keys>>) {
    && all == taken + Filter(rest, Accepts(q.condition))
    && if Streams(q)
       then result == Map(taken, Output(q))
            && (q.limit.Some? ==> |taken| < (if q.limit.value == 0 then 1 else q.limit.value))
       else sorted == Map(taken, ToSortRow(q))
  }

  /** ExecutePlainSelect over the rows that the cursor emits. */
  method ExecutePlainSelect(q: Query, schema: Schema, scanned: seq<Row>) returns (r: Result<seq<Keys>>)
    requires Selectable(q, schema, scanned)
    ensures r.Ok?
    ensures var accepted := Filter(scanned, Accepts(q.condition));
            if Streams(q) then r.value == Map(Streamed(q.limit, accepted), Output(q)) else Answer(q, accepted, r.value)
  {
    hide Accepts, SortsNoNaN, WellTyped, RowFits, Answer, Map, ToSortRow, Output, Filter, Standing, Streamed;
    var result, sorted: seq<SortRow<Keys>> := [], [];
    ghost var all, taken := Filter(scanned, Accepts(q.condition)), [];
    var i := 0;
    StandsAtStart(q, scanned);
    while i < |scanned|
      invariant 0 <= i <= |scanned|
      invariant Standing(q, all, taken, scanned[i..], result, sorted)
    {
      var row := scanned[i];
      assert row in scanned;
      assert scanned[i..] == [row] + scanned[i + 1..];
      var visited := Visit(q, schema, row, !Streams(q));
      if visited.Err? { return Err; }
      i := i + 1;
      StandsAfter(q, all, taken, row, scanned[i..], result, sorted);
      if visited.value.None? { continue; }
      taken := taken + [row];
      if Streams(q) {
        result := result + [visited.value.value.row];
        if q.limit.Some? && |result| >= q.limit.value {
          return Ok(result);
        }
      } else {
        VisitedRow(q, row, visited.value.value);
        sorted := sorted + [visited.value.value];
      }
    }
    assert scanned[i..] == [];
    StandsAtEnd(q, all, taken, result, sorted);
    if Streams(q) { return Ok(result); }
    InFilter(scanned, Accepts(q.condition));
    result := Finish(q, schema, all, sorted);
    return Ok(result);
  }

  /** One turn: a rejected row changes nothing, an accepted one is appended; at the limit everything is there. */
  lemma {:induction false} StandsAfter(q: Query, all: seq<Row>, taken: seq<Row>, row: Row, rest: seq<Row>,
                                       result: seq<Keys>, sorted: seq<SortRow<Keys>>)
    requires Standing(q, all, taken, [row] + rest, result, sorted)
    ensures !Accepts(q.condition)(row) ==> Standing(q, all, taken, rest, result, sorted)
    ensures Accepts(q.condition)(row) && Streams(q) ==>
              var more := result + [Output(q)(row)];
              if q.limit.Some? && |more| >= q.limit.value then more == Map(Streamed(q.limit, all), Output(q))
              else Standing(q, all, taken + [row], rest, more, sorted)
    ensures Accepts(q.condition)(row) && !Streams(q)
            ==> Standing(q, all, taken + [row], rest, result, sorted + [ToSortRow(q)(row)])
  {
    hide Accepts, Map, ToSortRow, Output, Filter;
    FilterHead(row, rest, Accepts(q.condition));
    MapSnoc(taken, row, Output(q));
    MapSnoc(taken, row, ToSortRow(q));
    if Accepts(q.condition)(row) {
      assert all == taken + [row] + Filter(rest, Accepts(q.condition));
      assert all[..|taken| + 1] == taken + [row];
    }
  }

  lemma {:induction false} FilterHead<T(!new)>(x: T, rest: seq<T>, p: T -> bool)
    ensures Filter([x] + rest, p) == (if p(x) then [x] else []) + Filter(rest, p)
  {
    assert ([x] + rest)[1..] == rest;
  }

  lemma {:induction false} VisitedRow(q: Query, row: Row, visited: SortRow<Keys>)
    requires visited == SortRow(SortKeysOf(q, row), Output(q)(row))
    ensures visited == ToSortRow(q)(row)
  {
  }

  lemma {:induction false} StandsAtStart(q: Query, scanned: seq<Row>)
    ensures Standing(q, Filter(scanned, Accepts(q.condition)), [], scanned[0..], [], [])
  {
    assert scanned[0..] == scanned;
    assert [] + Filter(scanned, Accepts(q.condition)) == Filter(scanned, Accepts(q.condition));
  }

  lemma {:induction false} StandsAtEnd(q: Query, all: seq<Row>, taken: seq<Row>, result: seq<Keys>,
                                       sorted: seq<SortRow<Keys>>)
    requires Standing(q, all, taken, [], result, sorted)
    ensures if Streams(q) then result == Map(Streamed(q.limit, all), Output(q)) else sorted == Map(all, ToSortRow(q))
  {
  }

  lemma {:induction false} MapSnoc<S, T>(s: seq<S>, x: S, f: S -> T)
    ensures Map(s + [x], f) == Map(s, f) + [f(x)]
  {
  }

  /** Sorting and cutting to the limit. */
  method Finish(q: Query, schema: Schema, ghost accepted: seq<Row>, rows: seq<SortRow<Keys>>)
    returns (result: seq<Keys>)
    requires WellTyped(q, schema) && RowsFit(accepted, schema) && SortsNoNaN(q, accepted)
             && rows == Map(accepted, ToSortRow(q))
    ensures Answer(q, accepted, result)
  {
    hide Evaluate, KindOf, CompareKeys, SortsNoNaN, WellTyped;
    forall r | r in rows ensures KeysRanked(r.keys, OrderTags(q.order, schema)) {
      var i :| 0 <= i < |rows| && rows[i] == r;
      assert accepted[i] in accepted;
      SortKeysRanked(q, schema, accepted, accepted[i]);
    }
    var ordered := Sort(rows, Directions(q.order), OrderTags(q.order, schema));
    ghost var p := LiftPermutation(accepted, ToSortRow(q), ordered);
    assert SortedBy(q, p) by {
      forall i, j | 0 <= i < j < |p|
        ensures CompareKeys(SortKeysOf(q, p[i]), SortKeysOf(q, p[j]), Directions(q.order)) <= 0
      {
        assert ordered[i] == ToSortRow(q)(p[i]) && ordered[j] == ToSortRow(q)(p[j]);
      }
    }
    result := [];
    for i := 0 to |ordered|
      invariant |result| == i && forall k :: 0 <= k < i ==> result[k] == ordered[k].row
    {
      result := result + [ordered[i].row];
    }
    if q.limit.Some? && |result| > q.limit.value { result := result[..q.limit.value]; }
    assert result == Map(Limited(q.limit, p), Output(q));
    assert Arranges(q, accepted, p);
  }

  // ---------- When streaming keeps the promise ----------

  /** Rows with ascending keys are already in the order of a query that sorts by the key first. */
  lemma {:induction false} AscendingIsSorted(q: Query, rows: seq<Row>)
    requires Ascending(rows) && KeyAscending(q)
    ensures SortedBy(q, rows)
  {
    forall i, j | 0 <= i < j < |rows|
      ensures CompareKeys(SortKeysOf(q, rows[i]), SortKeysOf(q, rows[j]), Directions(q.order)) <= 0
    {
      var a, b := rows[i], rows[j];
      assert SortKeysOf(q, a)[0] == ValueOf(Column(0), a) == Some(Data(Int(a.key)));
      assert SortKeysOf(q, b)[0] == ValueOf(Column(0), b) == Some(Data(Int(b.key)));
    }
  }

  lemma {:induction false} UnorderedIsSorted(q: Query, rows: seq<Row>)
    requires q.order == []
    ensures SortedBy(q, rows)
  {
  }

  lemma {:induction false} StreamedIsRight(q: Query, accepted: seq<Row>)
    requires Streams(q) && (KeyAscending(q) ==> Ascending(accepted))
    ensures Answer(q, accepted, Map(Streamed(q.limit, accepted), Output(q)))
            <==> !(q.limit == Some(0) && accepted != [])
  {
    hide CompareKeys;
    var result := Map(Streamed(q.limit, accepted), Output(q));
    if KeyAscending(q) {
      AscendingIsSorted(q, accepted);
    } else {
      UnorderedIsSorted(q, accepted);
    }
    assert Arranges(q, accepted, accepted);
    if q.limit == Some(0) && accepted != [] {
      assert |result| == 1;
      forall p | Arranges(q, accepted, p) ensures |Map(Limited(q.limit, p), Output(q))| == 0 {
        assert |multiset(p)| == |p|;
      }
    } else {
      assert Streamed(q.limit, accepted) == Limited(q.limit, accepted);
    }
  }

  /** SELECT key FROM t LIMIT 0 over a table with one row returns that row. */
  lemma {:induction false} LimitZeroOverstepped(row: Row)
    ensures var q := Query(None, [Column(0)], [], Some(0));
            var result := Map(Streamed(q.limit, [row]), Output(q));
            Streams(q) && |result| == 1 && !Answer(q, [row], result)
  {
    StreamedIsRight(Query(None, [Column(0)], [], Some(0)), [row]);
  }

  /**
   The shortcuts (no ORDER BY, or the key first, over a key-ascending scan) give what the sort would,
   except that LIMIT 0 still returns a row when there is one.
   */
  lemma {:induction false} StreamingIsRight(q: Query, scanned: seq<Row>)
    requires Streams(q) && (KeyAscending(q) ==> Ascending(scanned))
    ensures var accepted := Filter(scanned, Accepts(q.condition));
            (Answer(q, accepted, Map(Streamed(q.limit, accepted), Output(q)))
             <==> !(q.limit == Some(0) && accepted != []))
  {
    hide Accepts, Answer, Streamed;
    if KeyAscending(q) { FilterAscending(scanned, Accepts(q.condition)); }
    StreamedIsRight(q, Filter(scanned, Accepts(q.condition)));
  }
}
