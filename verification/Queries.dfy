/** Whole SELECT statements over a running tree, against the same statements over the mock engine's map. */
module Queries {
  import opened Seqs
  import opened Storage
  import opened Expressions
  import opened Ordering
  import Select = PlainSelect
  import opened Aggregates
  import opened Grouping
  import opened GroupOrder
  import opened Answers
  import opened Codec
  import opened Cursors
  import opened Engine
  import opened EndToEnd

  // ---------- Seeing the same through a projection ----------

  /** The projection holds every column that the expressions read. */
  ghost predicate Covers(es: seq<Expr>, projected: set<nat>) { forall e :: e in es ==> Columns(e) <= projected }

  lemma {:induction false} ValueThroughMask(e: Expr, row: Row, projected: set<nat>)
    requires Columns(e) <= projected
    ensures Select.ValueOf(e, row.Mask(projected)) == Select.ValueOf(e, row)
  {
    EvaluateMasked(e, row, projected);
  }

  lemma {:induction false} ValuesThroughMask(es: seq<Expr>, row: Row, projected: set<nat>)
    requires Covers(es, projected)
    ensures Select.ValuesOf(es, row.Mask(projected)) == Select.ValuesOf(es, row)
  {
    hide Select.ValueOf, Columns;
    forall i | 0 <= i < |es| ensures Select.ValueOf(es[i], row.Mask(projected)) == Select.ValueOf(es[i], row) {
      assert es[i] in es;
      ValueThroughMask(es[i], row, projected);
    }
  }

  lemma {:induction false} MaskIsMap(rows: seq<Row>, projected: set<nat>)
    ensures MaskRows(rows, projected) == Map(rows, Masking(projected))
  {
  }

  /** A permutation of masked rows is a masked permutation of the rows. */
  lemma {:induction false} Unmasked(rows: seq<Row>, p: seq<Row>, projected: set<nat>) returns (unmasked: seq<Row>)
    requires multiset(p) == multiset(MaskRows(rows, projected))
    ensures multiset(unmasked) == multiset(rows) && MaskRows(unmasked, projected) == p
  {
    hide MaskRows;
    MaskIsMap(rows, projected);
    unmasked := LiftPermutation(rows, Masking(projected), p);
    MaskIsMap(unmasked, projected);
  }

  // ---------- SELECT without aggregates ----------

  lemma {:induction false} RowThroughMask(q: Select.Query, row: Row, projected: set<nat>)
    requires Covers(q.items, projected) && Covers(Select.OrderExprs(q), projected)
    ensures Select.SortKeysOf(q, row.Mask(projected)) == Select.SortKeysOf(q, row)
    ensures Select.Output(q)(row.Mask(projected)) == Select.Output(q)(row)
  {
    hide Select.ValuesOf;
    ValuesThroughMask(q.items, row, projected);
    ValuesThroughMask(Select.OrderExprs(q), row, projected);
  }

  /** An answer on masked rows is an answer on the rows. */
  lemma {:induction false} AnswerThroughMask(q: Select.Query, rows: seq<Row>, projected: set<nat>, result: seq<Keys>)
    requires Covers(q.items, projected) && Covers(Select.OrderExprs(q), projected)
    requires Select.Answer(q, MaskRows(rows, projected), result)
    ensures Select.Answer(q, rows, result)
  {
    hide CompareKeys, Select.SortKeysOf, Select.Output, Covers;
    var p :| Select.Arranges(q, MaskRows(rows, projected), p)
             && result == Map(Select.Limited(q.limit, p), Select.Output(q));
    var all := Unmasked(rows, p, projected);
    forall i | 0 <= i < |all|
      ensures Select.SortKeysOf(q, p[i]) == Select.SortKeysOf(q, all[i])
              && Select.Output(q)(p[i]) == Select.Output(q)(all[i])
    {
      RowThroughMask(q, all[i], projected);
    }
    assert Select.SortedBy(q, all);
    assert result == Map(Select.Limited(q.limit, all), Select.Output(q));
    assert Select.Arranges(q, rows, all);
  }

  /** The order that the executor asks the scan for. */
  function ScanOrderFor(q: Select.Query): ScanOrder {
    if Select.KeyAscending(q) then ScanOrder.KeyAscending else Unordered
  }

  lemma {:induction false} SortsNoNaNThroughMask(q: Select.Query, rows: seq<Row>, masked: seq<Row>, projected: set<nat>)
    requires Covers(Select.OrderExprs(q), projected) && Select.SortsNoNaN(q, rows)
    requires multiset(masked) == multiset(MaskRows(rows, projected))
    ensures Select.SortsNoNaN(q, masked)
  {
    hide Select.ValueOf, Columns;
    var all := Unmasked(rows, masked, projected);
    forall row, o | row in masked && o in q.order ensures !Select.IsNaNCell(Select.ValueOf(o.e, row)) {
      var i :| 0 <= i < |masked| && masked[i] == row;
      var k :| 0 <= k < |q.order| && q.order[k] == o;
      assert Select.OrderExprs(q)[k] == o.e && o.e in Select.OrderExprs(q);
      ValueThroughMask(o.e, all[i], projected);
      assert row == all[i].Mask(projected);
      assert all[i] in multiset(all) && all[i] in multiset(rows) && all[i] in rows;
      assert !Select.IsNaNCell(Select.ValueOf(o.e, all[i]));
    }
  }

  /**
   SELECT ... WHERE ... ORDER BY ... LIMIT over the tree, at any point of any run that left behind no row of the
   plan, answers as over the map: the first rows, up to the limit, of the map's accepted rows in an order that ORDER BY
   allows. The exception is a LIMIT 0 that the early stop oversteps.
   */
  method PlainSelectOverTree(c: Setup, q: Select.Query, scanned: seq<Row>, ghost steps: seq<Step>,
                             ghost projected: set<nat>)
    returns (r: Result<seq<Keys>>)
    requires Answerable(c, steps, q.condition, projected) && Select.WellTyped(q, c.schema)
    requires Covers(q.items, projected) && Covers(Select.OrderExprs(q), projected)
    requires Select.Streams(q) || Select.SortsNoNaN(q, MockRows(steps, q.condition))
    requires scanned == ScannedFor(c, steps, q.condition, projected, ScanOrderFor(q))
    ensures r.Ok?
    ensures Select.Answer(q, MockRows(steps, q.condition), r.value)
            || (Select.Streams(q) && q.limit == Some(0) && MockRows(steps, q.condition) != [])
    ensures Select.SortsNoNaN(q, MockRows(steps, q.condition)) ==>
              || (exists p :: ShowsInOrder(q, MockRows(steps, q.condition), p, r.value))
              || (Select.Streams(q) && q.limit == Some(0) && MockRows(steps, q.condition) != [])
  {
    hide Answerable, Select.WellTyped, Covers, RowFits, Filter, Accepts, MockRows, ScannedFor, Select.Answer,
         Select.SortsNoNaN, MaskRows, Select.Streamed;
    ghost var order := ScanOrderFor(q);
    ghost var accepted := Filter(scanned, Accepts(q.condition));
    ghost var masked := MaskRows(MockRows(steps, q.condition), projected);
    ScannedAccepted(c, steps, q.condition, projected, order);
    ScannedFits(c, steps, q.condition, projected, order);
    if !Select.Streams(q) { SortsNoNaNThroughMask(q, MockRows(steps, q.condition), accepted, projected); }
    r := Select.ExecutePlainSelect(q, c.schema, scanned);
    if Select.Streams(q) {
      if Select.KeyAscending(q) { MaskedAscending(c, steps, q.condition, projected); }
      Select.StreamedIsRight(q, accepted);
      SameEmptiness(accepted, MockRows(steps, q.condition), projected);
    }
    if Select.Answer(q, accepted, r.value) {
      SamePermutations(q, accepted, masked, r.value);
      AnswerThroughMask(q, MockRows(steps, q.condition), projected, r.value);
      AnswerShows(c, q, steps, projected, r.value);
    }
  }

  lemma {:induction false} AnswerShows(c: Setup, q: Select.Query, steps: seq<Step>, projected: set<nat>,
                                       result: seq<Keys>)
    requires Answerable(c, steps, q.condition, projected) && Select.WellTyped(q, c.schema)
    requires Select.Answer(q, MockRows(steps, q.condition), result)
    ensures Select.SortsNoNaN(q, MockRows(steps, q.condition)) ==>
              exists p :: ShowsInOrder(q, MockRows(steps, q.condition), p, result)
  {
    hide Answerable, Select.WellTyped, RowFits, MockRows, Select.Answer, Select.SortsNoNaN, ShowsInOrder;
    AnswerableIsLegal(c, steps, q.condition, projected);
    MockRowsFit(c, steps, q.condition);
    if Select.SortsNoNaN(q, MockRows(steps, q.condition)) {
      AnswerMeans(q, c.schema, MockRows(steps, q.condition), result);
    }
  }

  lemma {:induction false} SamePermutations(q: Select.Query, a: seq<Row>, b: seq<Row>, result: seq<Keys>)
    requires multiset(a) == multiset(b) && Select.Answer(q, a, result)
    ensures Select.Answer(q, b, result)
  {
    hide Select.SortedBy, Select.Output;
    var p :| Select.Arranges(q, a, p) && result == Map(Select.Limited(q.limit, p), Select.Output(q));
    assert Select.Arranges(q, b, p);
  }

  lemma {:induction false} SameEmptiness(accepted: seq<Row>, rows: seq<Row>, projected: set<nat>)
    requires multiset(accepted) == multiset(MaskRows(rows, projected))
    ensures accepted != [] <==> rows != []
  {
    assert |multiset(accepted)| == |accepted| && |multiset(MaskRows(rows, projected))| == |rows|;
  }

  lemma {:induction false} MaskedAscending(c: Setup, steps: seq<Step>, condition: Option<Expr>, projected: set<nat>)
    requires Answerable(c, steps, condition, projected)
    ensures Ascending(MaskRows(MockRows(steps, condition), projected))
  {
    hide MockRows, RowFits;
    assert Legal(c, steps) by { AnswerableIsLegal(c, steps, condition, projected); }
    MockRowsFit(c, steps, condition);
  }

  lemma {:induction false} AnswerableIsLegal(c: Setup, steps: seq<Step>, condition: Option<Expr>, projected: set<nat>)
    requires Answerable(c, steps, condition, projected)
    ensures Legal(c, steps)
  {
  }

  // ---------- SELECT with GROUP BY ----------

  ghost predicate CoversGroups(q: GroupedQuery, projected: set<nat>) {
    && Covers(q.groupBy, projected)
    && (forall i :: 0 <= i < |q.items| ==> Columns(q.items[i].e) <= projected)
    && (forall k :: 0 <= k < |q.order| ==> Columns(q.order[k].e) <= projected)
  }

  lemma {:induction false} GroupThroughMask(q: GroupedQuery, row: Row, projected: set<nat>)
    requires CoversGroups(q, projected)
    ensures KeyOf(q, row.Mask(projected)) == KeyOf(q, row)
    ensures OrderValues(q, row.Mask(projected)) == OrderValues(q, row)
    ensures PlainValues(q.items, row.Mask(projected)) == PlainValues(q.items, row)
  {
    hide Select.ValueOf, Columns;
    ValuesThroughMask(q.groupBy, row, projected);
    var es := Map(q.order, (o: Select.OrderItem) => o.e);
    forall e | e in es ensures Columns(e) <= projected { var k :| 0 <= k < |es| && es[k] == e; }
    ValuesThroughMask(es, row, projected);
    forall i | 0 <= i < |q.items|
      ensures Select.ValueOf(q.items[i].e, row.Mask(projected)) == Select.ValueOf(q.items[i].e, row)
    {
      ValueThroughMask(q.items[i].e, row, projected);
    }
  }

  lemma {:induction false} MembersThroughMask(q: GroupedQuery, rows: seq<Row>, key: Keys, projected: set<nat>)
    requires CoversGroups(q, projected)
    ensures Members(q, MaskRows(rows, projected), key) == MaskRows(Members(q, rows, key), projected)
  {
    hide KeyOf, CoversGroups;
    if rows != [] {
      var masked := MaskRows(rows, projected);
      MembersThroughMask(q, rows[1..], key, projected);
      GroupThroughMask(q, rows[0], projected);
      MaskRowsCons(rows, projected);
      assert masked[1..] == MaskRows(rows[1..], projected);
      assert Members(q, rows, key) == (if KeyOf(q, rows[0]) == key then [rows[0]] else []) + Members(q, rows[1..], key);
      assert Members(q, masked, key)
             == (if KeyOf(q, rows[0]) == key then [masked[0]] else []) + Members(q, masked[1..], key);
      if KeyOf(q, rows[0]) == key { MaskRowsCons(Members(q, rows, key), projected); }
    }
  }

  lemma {:induction false} StateThroughMask(item: SelectItem, rows: seq<Row>, projected: set<nat>)
    requires Columns(item.e) <= projected
    ensures StateOf(item, MaskRows(rows, projected)) == StateOf(item, rows)
  {
    hide Select.ValueOf, Fold;
    forall i | 0 <= i < |rows|
      ensures Select.ValueOf(item.e, rows[i].Mask(projected)) == Select.ValueOf(item.e, rows[i])
    {
      ValueThroughMask(item.e, rows[i], projected);
    }
    assert Map(MaskRows(rows, projected), Evaluated(item.e)) == Map(rows, Evaluated(item.e));
  }

  lemma {:induction false} ShownThroughMask(q: GroupedQuery, rows: seq<Row>, key: Keys, projected: set<nat>)
    requires CoversGroups(q, projected)
    ensures OutputFor(q, MaskRows(rows, projected))(key) == OutputFor(q, rows)(key)
    ensures OrderValuesFor(q, MaskRows(rows, projected), key) == OrderValuesFor(q, rows, key)
  {
    hide KeyOf, OrderValues, PlainValues, StateOf, Filter;
    MembersThroughMask(q, rows, key, projected);
    var members := Members(q, rows, key);
    if members != [] {
      GroupThroughMask(q, members[0], projected);
      forall i | 0 <= i < |q.items|
        ensures StateOf(q.items[i], MaskRows(members, projected)) == StateOf(q.items[i], members)
      {
        StateThroughMask(q.items[i], members, projected);
      }
      assert StatesOf(q.items, MaskRows(members, projected)) == StatesOf(q.items, members);
      assert GroupOf(q, MaskRows(members, projected)) == GroupOf(q, members);
    }
  }

  lemma {:induction false} HasGroupThroughMask(q: GroupedQuery, rows: seq<Row>, key: Keys, projected: set<nat>)
    requires CoversGroups(q, projected)
    ensures HasGroup(q, MaskRows(rows, projected), key) <==> HasGroup(q, rows, key)
  {
    hide KeyOf, CoversGroups;
    var masked := MaskRows(rows, projected);
    forall i | 0 <= i < |rows| ensures KeyOf(q, masked[i]) == KeyOf(q, rows[i]) {
      GroupThroughMask(q, rows[i], projected);
    }
    if HasGroup(q, masked, key) {
      var row :| row in masked && KeyOf(q, row) == key;
      var i :| 0 <= i < |masked| && masked[i] == row;
      assert rows[i] in rows;
    }
    if HasGroup(q, rows, key) {
      var row :| row in rows && KeyOf(q, row) == key;
      var i :| 0 <= i < |rows| && rows[i] == row;
      assert masked[i] in masked;
    }
  }

  /** A grouped answer on masked rows is one on the rows. */
  lemma {:induction false} GroupedThroughMask(q: GroupedQuery, rows: seq<Row>, projected: set<nat>,
                                              result: seq<seq<OutCell>>)
    requires CoversGroups(q, projected) && GroupedAnswer(q, MaskRows(rows, projected), result)
    ensures GroupedAnswer(q, rows, result)
  {
    hide CoversGroups, MaskRows, OutputFor, OrderValuesFor, HasGroup, StrictKeys, CompareKeys;
    var masked := MaskRows(rows, projected);
    var keys, p :| Arrangement(q, masked, keys, p) && result == Select.Limited(q.limit, Map(p, OutputFor(q, masked)));
    forall k ensures HasGroup(q, masked, k) <==> HasGroup(q, rows, k) { HasGroupThroughMask(q, rows, k, projected); }
    forall k
      ensures OutputFor(q, masked)(k) == OutputFor(q, rows)(k)
              && OrderValuesFor(q, masked, k) == OrderValuesFor(q, rows, k)
    {
      ShownThroughMask(q, rows, k, projected);
    }
    assert ListsGroups(q, rows, keys);
    if q.order != [] { assert GroupsSorted(q, rows, p); }
    assert Map(p, OutputFor(q, masked)) == Map(p, OutputFor(q, rows));
    assert Arrangement(q, rows, keys, p);
  }

  lemma {:induction false} OrderableThroughMask(q: GroupedQuery, rows: seq<Row>, masked: seq<Row>, projected: set<nat>)
    requires CoversGroups(q, projected) && NoNaNKeys(q, rows) && NoNaNOrder(q, rows)
    requires multiset(masked) == multiset(MaskRows(rows, projected))
    ensures NoNaNKeys(q, masked) && NoNaNOrder(q, masked)
  {
    hide Select.ValueOf, Columns, MaskRows;
    var all := Unmasked(rows, masked, projected);
    MaskIsMap(all, projected);
    forall row | row in masked ensures exists r :: r in rows && row == r.Mask(projected) {
      var i :| 0 <= i < |masked| && masked[i] == row;
      assert all[i] in multiset(rows);
    }
    forall row, j | row in masked && 0 <= j < |q.groupBy| ensures !Select.IsNaNCell(Select.ValueOf(q.groupBy[j], row)) {
      var r :| r in rows && row == r.Mask(projected);
      assert q.groupBy[j] in q.groupBy;
      ValueThroughMask(q.groupBy[j], r, projected);
    }
    forall row, k | row in masked && 0 <= k < |q.order| ensures !Select.IsNaNCell(Select.ValueOf(q.order[k].e, row)) {
      var r :| r in rows && row == r.Mask(projected);
      ValueThroughMask(q.order[k].e, r, projected);
    }
  }

  /**
   SELECT ... GROUP BY over the tree answers as over the map's accepted rows, scanned in some order; where
   the order of the groups is settled, as over these rows themselves.
   */
  method GroupedSelectOverTree(c: Setup, q: GroupedQuery, scanned: seq<Row>, ghost steps: seq<Step>,
                               ghost projected: set<nat>)
    returns (r: Result<seq<seq<OutCell>>>)
    requires Answerable(c, steps, q.condition, projected) && GroupedWellTyped(q, c.schema) && CoversGroups(q, projected)
    requires NoNaNKeys(q, MockRows(steps, q.condition)) && NoNaNOrder(q, MockRows(steps, q.condition))
    requires scanned == ScannedFor(c, steps, q.condition, projected, Unordered)
    ensures r.Ok?
    ensures exists rows :: multiset(rows) == multiset(MockRows(steps, q.condition)) && GroupedAnswer(q, rows, r.value)
    ensures exists rows, groups :: multiset(rows) == multiset(MockRows(steps, q.condition))
                                   && ShowsGroups(q, rows, groups, r.value)
    ensures Validated(q) && OrderSettled(q, MockRows(steps, q.condition)) ==>
              exists answer :: GroupedAnswer(q, MockRows(steps, q.condition), answer) && AlikeRows(r.value, answer)
                               && (NoDoubles(q, c.schema) ==> r.value == answer)
  {
    hide Answerable, GroupedWellTyped, CoversGroups, RowFits, Filter, Accepts, MockRows, ScannedFor,
         GroupedAnswer, NoNaNKeys, NoNaNOrder, MaskRows, OrderSettled, Validated, AlikeRows, NoDoubles, ShowsGroups;
    ghost var rows, accepted := MockRows(steps, q.condition), Filter(scanned, Accepts(q.condition));
    ScannedAccepted(c, steps, q.condition, projected, Unordered);
    ScannedFits(c, steps, q.condition, projected, Unordered);
    OrderableThroughMask(q, rows, accepted, projected);
    r := ExecuteGrouped(q, c.schema, scanned);
    ghost var all := Unmasked(rows, accepted, projected);
    GroupedThroughMask(q, all, projected, r.value);
    AnswerableIsLegal(c, steps, q.condition, projected);
    MockRowsFit(c, steps, q.condition);
    Permuted(q, c.schema, rows, all);
    GroupedAnswerMeans(q, c.schema, all, r.value);
    if Validated(q) && OrderSettled(q, rows) {
      ghost var answer := SettledAnswers(q, c.schema, all, rows, r.value);
    }
  }

  // ---------- SELECT of aggregates alone ----------

  /**
   SELECT of aggregates over the tree: the totals are those of the map's accepted rows, but for the sign of a
   zero.
   */
  method GlobalSelectOverTree(c: Setup, q: GroupedQuery, scanned: seq<Row>, ghost steps: seq<Step>,
                              ghost projected: set<nat>)
    returns (r: Result<seq<seq<Final>>>)
    requires Answerable(c, steps, q.condition, projected) && GroupedWellTyped(q, c.schema) && CoversGroups(q, projected)
    requires AllAggregated(q) && scanned == ScannedFor(c, steps, q.condition, projected, Unordered)
    ensures r.Ok? && |r.value| == if q.limit == Some(0) then 0 else 1
    ensures q.limit != Some(0) ==> ShowsTotals(q.items, MockRows(steps, q.condition), r.value[0])
    ensures q.limit != Some(0) ==>
              var totals := Totals(q, MockRows(steps, q.condition));
              && |r.value[0]| == |totals| && (forall i :: 0 <= i < |totals| ==> AlikeFinal(r.value[0][i], totals[i]))
              && (OverIntegers(q) ==> r.value[0] == totals)
  {
    hide Answerable, GroupedWellTyped, CoversGroups, RowFits, Filter, Accepts, MockRows, ScannedFor, MaskRows,
         StateOf, Finalize, AlikeFinal, ShowsTotals;
    ghost var rows, accepted := MockRows(steps, q.condition), Filter(scanned, Accepts(q.condition));
    ScannedAccepted(c, steps, q.condition, projected, Unordered);
    ScannedFits(c, steps, q.condition, projected, Unordered);
    r := ExecuteGlobal(q, c.schema, scanned);
    ghost var all := Unmasked(rows, accepted, projected);
    AnswerableIsLegal(c, steps, q.condition, projected);
    MockRowsFit(c, steps, q.condition);
    assert forall x :: x in all ==> x in rows by { SameRows(all, rows); }
    TotalsThroughMask(q, all, projected);
    TotalsPermuted(q, c.schema, all, rows);
    TotalsMean(q, c.schema, all);
    TotalsForAnyOrder(q, c.schema, all, rows, Totals(q, all));
  }

  lemma {:induction false} SameRows(a: seq<Row>, b: seq<Row>)
    requires multiset(a) == multiset(b)
    ensures forall x :: x in a ==> x in b
  {
    forall x | x in a ensures x in b { assert x in multiset(b); }
  }

  lemma {:induction false} TotalsThroughMask(q: GroupedQuery, rows: seq<Row>, projected: set<nat>)
    requires AllAggregated(q) && CoversGroups(q, projected)
    ensures Totals(q, MaskRows(rows, projected)) == Totals(q, rows)
  {
    hide StateOf, Finalize;
    forall i | 0 <= i < |q.items| ensures StateOf(q.items[i], MaskRows(rows, projected)) == StateOf(q.items[i], rows) {
      StateThroughMask(q.items[i], rows, projected);
    }
  }
}
