/** A SELECT's WHERE clause over a running tree, against filtering the mock engine's rows. */
module EndToEnd {
  import opened Seqs
  import opened Storage
  import opened SortedMaps
  import opened Expressions
  import opened Planner
  import opened Pruning
  import opened Codec
  import opened TableScan
  import opened Cursors
  import opened Registry
  import opened Engine
  import opened Conservation
  import opened Reference
  import opened Snapshot

  /** What the executor asks storage for: a point lookup carries no skipping filter. */
  function RequestOf(plan: Plan, condition: Option<Expr>, projected: set<nat>, schema: Schema): Request
    requires !plan.EmptyPlan?
  {
    Request(PlanRange(plan), projected, if plan.PointPlan? then [] else FilterOf(ConditionConjuncts(condition), schema))
  }

  /**
   The range asked for holds exactly the keys that the plan lets through, and the skipping filter of a scan exactly
   the conjuncts that compare a column of numbers with a number; a point lookup has none.
   */
  lemma {:induction false} RequestMeans(condition: Option<Expr>, projected: set<nat>, schema: Schema, key: Key,
                                        p: NumericPredicate)
    requires PlanOf(condition).Ok? && !PlanOf(condition).value.EmptyPlan?
    ensures var plan := PlanOf(condition).value;
            var request := RequestOf(plan, condition, projected, schema);
            && request.projected == projected
            && (plan.PointPlan? ==> (request.range.Contains(key) <==> key == plan.key) && request.filter == [])
            && (plan.ScanPlan? ==>
                  && (request.range.Contains(key) <==> PassesBounds(ConditionConjuncts(condition), key))
                  && (p in request.filter <==>
                      && 0 < p.column <= |schema| && (schema[p.column - 1] == INT64 || schema[p.column - 1] == DOUBLE)
                      && exists e :: e in ConditionConjuncts(condition)
                                     && (e == Binary(p.op, Expr.Column(p.column), Literal(Some(p.value)))
                                         || e == Binary(Reverse(p.op), Literal(Some(p.value)), Expr.Column(p.column)))))
  {
    hide PlanOf, FilterOf, PredicateOf, PassesBounds, PassesPoints, Conjuncts;
    PlanIsExact(condition);
    InFilterOf(ConditionConjuncts(condition), schema, p);
    forall e ensures PredicateOf(e, schema) == Some(p) <==>
        && 0 < p.column <= |schema| && (schema[p.column - 1] == INT64 || schema[p.column - 1] == DOUBLE)
        && (e == Binary(p.op, Expr.Column(p.column), Literal(Some(p.value)))
            || e == Binary(Reverse(p.op), Literal(Some(p.value)), Expr.Column(p.column)))
    {
      PredicateOfExactly(e, schema, p);
    }
  }

  /** Every plan that the planner makes. */
  predicate IsOrdered(plan: Plan) { !plan.EmptyPlan? ==> PlanRange(plan).Ordered() }

  /** The rows that the planned cursor shows. */
  ghost function Scanned(c: Setup, s: State, plan: Plan, condition: Option<Expr>, projected: set<nat>, order: ScanOrder)
    : seq<Row>
    requires IsOrdered(plan)
  {
    if plan.EmptyPlan? then []
    else
      OrderedIsWalkable(s, PlanRange(plan));
      MaskRows(Scan(c, s, RequestOf(plan, condition, projected, c.schema), order), projected)
  }

  /** The rows that the executor accepts from the planned cursor. */
  ghost function Accepted(c: Setup, s: State, plan: Plan, condition: Option<Expr>, projected: set<nat>,
                          order: ScanOrder): seq<Row>
    requires IsOrdered(plan)
  {
    if plan.EmptyPlan? then []
    else
      OrderedIsWalkable(s, PlanRange(plan));
      var scanned := Scan(c, s, RequestOf(plan, condition, projected, c.schema), order);
      Filter(MaskRows(scanned, projected), Accepts(condition))
  }

  ghost predicate Projects(condition: Option<Expr>, projected: set<nat>) {
    condition.Some? ==> Columns(condition.value) <= projected
  }

  lemma {:induction false} AcceptsMasked(condition: Option<Expr>, row: Row, projected: set<nat>)
    requires Projects(condition, projected)
    ensures Accepts(condition)(row.Mask(projected)) == Accepts(condition)(row)
  {
    hide Evaluate;
    if condition.Some? { EvaluateMasked(condition.value, row, projected); }
  }

  /** The condition sees the same through the projection. */
  lemma {:induction false} FilterThroughMask(rows: seq<Row>, condition: Option<Expr>, projected: set<nat>)
    requires Projects(condition, projected)
    ensures Filter(MaskRows(rows, projected), Accepts(condition))
            == MaskRows(Filter(rows, Accepts(condition)), projected)
  {
    hide Accepts, Projects;
    if rows != [] {
      FilterThroughMask(rows[1..], condition, projected);
      MaskRowsCons(rows, projected);
      AcceptsMasked(condition, rows[0], projected);
      assert MaskRows(rows, projected)[1..] == MaskRows(rows[1..], projected);
      if Accepts(condition)(rows[0]) {
        MaskConcat([rows[0]], Filter(rows[1..], Accepts(condition)), projected);
        assert MaskRows([rows[0]], projected) == [rows[0].Mask(projected)];
      }
    }
  }

  ghost predicate AllFit(m: RowMap, schema: Schema) { forall k :: k in m ==> RowFits(m[k], schema) }

  /** Inserts are validated, so every row of the map fits the schema. */
  lemma {:induction false} MockFits(c: Setup, steps: seq<Step>)
    requires Legal(c, steps)
    ensures AllFit(MockOf(steps), c.schema)
    decreases |steps|
  {
    hide RowFits, Run, Pick;
    if steps != [] { MockFits(c, steps[..|steps| - 1]); }
  }

  /** No accepted row of the map meets a NaN in a comparison of the skipping filter. */
  ghost predicate NoNaN(plan: Plan, condition: Option<Expr>, schema: Schema, m: RowMap) {
    plan.ScanPlan? ==>
      forall p, k ::
        p in FilterOf(ConditionConjuncts(condition), schema) && k in m && Accepts(condition)(m[k])
        ==> !MeetsNaN(p, m[k])
  }

  /** The run left no row behind that the plan covers. */
  ghost predicate PlanClear(c: Setup, steps: seq<Step>, plan: Plan)
    requires Legal(c, steps)
  {
    !plan.EmptyPlan? ==> !Shadowed(c, steps, PlanRange(plan))
  }

  /** The accepted rows are among those the scan must show. */
  lemma {:induction false} AcceptedAreSelected(condition: Option<Expr>, m: RowMap, schema: Schema, request: Request,
                                               selected: seq<Row>)
    requires Keyed(m) && AllFit(m, schema) && SelectsFromMap(selected, m, request)
    requires PlanOf(condition).Ok? && NoNaN(PlanOf(condition).value, condition, schema, m)
    requires !PlanOf(condition).value.EmptyPlan?
             ==> request == RequestOf(PlanOf(condition).value, condition, request.projected, schema)
    requires !PlanOf(condition).value.EmptyPlan?
    ensures Filter(selected, Accepts(condition)) == Filter(Enumerate(m), Accepts(condition))
  {
    hide Accepts, FilterOf, PlanOf, Enumerate, PredicateHolds, Filter, MeetsNaN, RowFits;
    var accepted, all := Filter(selected, Accepts(condition)), Filter(Enumerate(m), Accepts(condition));
    EnumerateSorts(m);
    FilterAscending(selected, Accepts(condition));
    FilterAscending(Enumerate(m), Accepts(condition));
    InFilter(selected, Accepts(condition));
    InFilter(Enumerate(m), Accepts(condition));
    forall r | r in all ensures r in selected {
      InPlan(condition, r);
      AcceptedPassesFilter(condition, schema, r);
    }
    AscendingUnique(accepted, all);
  }

  lemma {:induction false} InPlan(condition: Option<Expr>, row: Row)
    requires PlanOf(condition).Ok? && Accepts(condition)(row)
    ensures !PlanOf(condition).value.EmptyPlan? && PlanRange(PlanOf(condition).value).Contains(row.key)
  {
    if condition.Some? { AcceptedIsPlanned(condition.value, row); }
  }

  /** An empty plan is right: no row of the map is accepted. */
  lemma {:induction false} EmptyPlanIsRight(condition: Option<Expr>, rows: seq<Row>)
    requires PlanOf(condition).Ok? && PlanOf(condition).value.EmptyPlan?
    ensures Filter(rows, Accepts(condition)) == []
  {
    hide Accepts, PlanOf;
    forall r | r in rows ensures !Accepts(condition)(r) {
      if Accepts(condition)(r) { InPlan(condition, r); }
    }
    FilterNone(rows, Accepts(condition));
  }

  /** What a query over the mock engine's rows shows on the projected columns. */
  ghost function MockAnswer(m: RowMap, condition: Option<Expr>, projected: set<nat>): seq<Row> {
    MaskRows(Filter(Enumerate(m), Accepts(condition)), projected)
  }

  /**
   From SQL condition to stored bytes and back: whatever the tree's levels, layouts, caches of work in
   flight, the rows accepted through the plan are those that the condition accepts in the sorted map.
   */
  lemma {:induction false} QueryIsMock(c: Setup, steps: seq<Step>, condition: Option<Expr>, projected: set<nat>)
    requires Legal(c, steps) && PlanOf(condition).Ok? && Projects(condition, projected)
    requires PlanClear(c, steps, PlanOf(condition).value)
    requires NoNaN(PlanOf(condition).value, condition, c.schema, MockOf(steps))
    ensures var plan, answer := PlanOf(condition).value, MockAnswer(MockOf(steps), condition, projected);
            && IsOrdered(plan) && Accepted(c, Run(c, steps), plan, condition, projected, KeyAscending) == answer
            && multiset(Accepted(c, Run(c, steps), plan, condition, projected, Unordered)) == multiset(answer)
            && (plan.EmptyPlan? || ReadsSucceed(c, Run(c, steps), RequestOf(plan, condition, projected, c.schema)))
  {
    hide ReadsSucceed, Run, Shadowed, MockOf, Enumerate, Scan, MaskRows, SelectsFromMap, Filter, Legal, Accepts, PlanOf,
         FilterOf, FilterFits, Projects, NoNaN, Walkable, AllFit;
    var plan, m := PlanOf(condition).value, MockOf(steps);
    VersionsAreMock(c, steps, FULL_RANGE);
    MockFits(c, steps);
    if plan.EmptyPlan? {
      EmptyPlanIsRight(condition, Enumerate(m));
      MaskNothing(projected);
    } else {
      var request := RequestOf(plan, condition, projected, c.schema);
      RequestFits(plan, condition, projected, c.schema);
      OrderedIsWalkable(Run(c, steps), request.range);
      var selected := ScanSelects(c, steps, request);
      AcceptedAreSelected(condition, m, c.schema, request, selected);
      FilterThroughMask(selected, condition, projected);
      FilterPermuted(MaskRows(Scan(c, Run(c, steps), request, Unordered), projected), MaskRows(selected, projected),
                     Accepts(condition));
    }
  }

  lemma {:induction false} MaskNothing(projected: set<nat>)
    ensures MaskRows([], projected) == []
  {
  }

  lemma {:induction false} RequestFits(plan: Plan, condition: Option<Expr>, projected: set<nat>, schema: Schema)
    requires !plan.EmptyPlan?
    ensures FilterFits(RequestOf(plan, condition, projected, schema).filter, schema)
  {
  }

  /** A well-typed condition throws on no row that a scan shows. */
  lemma {:induction false} WellTypedNeverThrows(condition: Expr, schema: Schema, row: Row, projected: set<nat>)
    requires IsCondition(condition, schema) && RowFits(row, schema)
    ensures EvaluatePredicate(condition, row.Mask(projected)).Ok?
  {
    hide Evaluate, KindOf;
    assert RowFits(row.Mask(projected), schema);
    WellTypedEvaluates(condition, schema, row.Mask(projected));
  }

  // ---------- The rows that a statement works on ----------

  /** A run, a condition and a projection for which the plan is right. */
  ghost predicate Answerable(c: Setup, steps: seq<Step>, condition: Option<Expr>, projected: set<nat>) {
    && Legal(c, steps) && PlanOf(condition).Ok? && Projects(condition, projected)
    && PlanClear(c, steps, PlanOf(condition).value)
    && NoNaN(PlanOf(condition).value, condition, c.schema, MockOf(steps))
  }

  /** The rows of the map that the condition accepts, by ascending key. */
  ghost function MockRows(steps: seq<Step>, condition: Option<Expr>): seq<Row> {
    Filter(Enumerate(MockOf(steps)), Accepts(condition))
  }

  ghost function ScannedFor(c: Setup, steps: seq<Step>, condition: Option<Expr>, projected: set<nat>, order: ScanOrder)
    : seq<Row>
    requires Answerable(c, steps, condition, projected)
  {
    Scanned(c, Run(c, steps), PlanOf(condition).value, condition, projected, order)
  }

  /** What a statement accepts of the scan, as masked rows of the map. */
  lemma {:induction false} ScannedAccepted(c: Setup, steps: seq<Step>, condition: Option<Expr>, projected: set<nat>,
                                           order: ScanOrder)
    requires Answerable(c, steps, condition, projected)
    ensures var accepted := Filter(ScannedFor(c, steps, condition, projected, order), Accepts(condition));
            && multiset(accepted) == multiset(MaskRows(MockRows(steps, condition), projected))
            && (order.KeyAscending? ==> accepted == MaskRows(MockRows(steps, condition), projected))
  {
    hide Run, Shadowed, MockOf, Enumerate, Scan, MaskRows, Legal, Accepts, PlanOf, FilterOf, NoNaN, ReadsSucceed,
         Projects;
    QueryIsMock(c, steps, condition, projected);
    NothingAccepted(condition);
  }

  lemma {:induction false} NothingAccepted(condition: Option<Expr>)
    ensures Filter([], Accepts(condition)) == []
  {
  }

  ghost predicate RowsOfMap(rows: seq<Row>, m: RowMap, projected: set<nat>) {
    forall r :: r in rows ==> exists k :: k in m && r == m[k].Mask(projected)
  }

  lemma {:induction false} MaskedSelection(selected: seq<Row>, rows: seq<Row>, m: RowMap, request: Request)
    requires Keyed(m) && SelectsFromMap(selected, m, request)
    requires multiset(rows) == multiset(MaskRows(selected, request.projected))
    ensures RowsOfMap(rows, m, request.projected)
  {
    hide Enumerate;
    EnumerateSorts(m);
    var masked := MaskRows(selected, request.projected);
    forall r | r in rows ensures exists k :: k in m && r == m[k].Mask(request.projected) {
      assert r in multiset(rows) && r in masked;
      var i :| 0 <= i < |masked| && masked[i] == r;
      assert selected[i] in selected && selected[i] in Enumerate(m);
      assert m[selected[i].key] == selected[i];
    }
  }

  /** Every row that the scan shows fits the schema. */
  lemma {:induction false} ScannedFits(c: Setup, steps: seq<Step>, condition: Option<Expr>, projected: set<nat>,
                                       order: ScanOrder)
    requires Answerable(c, steps, condition, projected)
    ensures RowsFit(ScannedFor(c, steps, condition, projected, order), c.schema)
  {
    hide Run, Shadowed, MockOf, Enumerate, Scan, SelectsFromMap, Legal, Accepts, PlanOf, FilterOf, AllFit, FilterFits,
         NoNaN, ReadsSucceed, Projects, MaskRows, RowFits, Walkable;
    var plan, m := PlanOf(condition).value, MockOf(steps);
    if !plan.EmptyPlan? {
      VersionsAreMock(c, steps, FULL_RANGE);
      MockFits(c, steps);
      OrderedIsWalkable(Run(c, steps), PlanRange(plan));
      var request := RequestOf(plan, condition, projected, c.schema);
      RequestFits(plan, condition, projected, c.schema);
      var selected := ScanSelects(c, steps, request);
      var rows := MaskRows(Scan(c, Run(c, steps), request, order), projected);
      MaskedSelection(selected, rows, m, request);
      MapRowsFit(rows, m, projected, c.schema);
    }
  }

  lemma {:induction false} MapRowsFit(rows: seq<Row>, m: RowMap, projected: set<nat>, schema: Schema)
    requires RowsOfMap(rows, m, projected) && AllFit(m, schema)
    ensures RowsFit(rows, schema)
  {
    forall r | r in rows ensures RowFits(r, schema) {
      var k :| k in m && r == m[k].Mask(projected);
      assert RowFits(m[k], schema);
    }
  }

  lemma {:induction false} MockRowsFit(c: Setup, steps: seq<Step>, condition: Option<Expr>)
    requires Legal(c, steps)
    ensures Keyed(MockOf(steps)) && RowsFit(MockRows(steps, condition), c.schema)
            && Ascending(MockRows(steps, condition))
  {
    hide Run, Enumerate, Accepts, RowFits, MockOf, Shadowed, Versions;
    VersionsAreMock(c, steps, FULL_RANGE);
    MockFits(c, steps);
    EnumerateSorts(MockOf(steps));
    InFilter(Enumerate(MockOf(steps)), Accepts(condition));
    FilterAscending(Enumerate(MockOf(steps)), Accepts(condition));
  }
}
