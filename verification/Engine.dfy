/**
 The LSM tree as a step machine. The worker takes a job under the lock, works without it and takes it
 again to publish, so a flush and a compaction are two steps each, with inserts and scans between them.
 */
module Engine {
  import opened Seqs
  import opened Storage
  import opened SortedMaps
  import opened Codec
  import opened Tables
  import opened TableBuilders
  import opened TableScan
  import opened Merging
  import opened Registry
  import opened Manifest

  datatype Setup = Setup(schema: Schema, config: Config)

  /** What the worker is doing outside the lock. */
  datatype Phase =
    | Idle
    | Flushing(rows: seq<Row>, id: U64)
    | Compacting(task: Task, candidates: seq<TableInfo>, id: U64)

  datatype State = State(active: RowMap, frozen: seq<seq<Row>>, levels: Levels, disk: map<U64, TableFile>, nextId: U64,
                         phase: Phase)

  const EMPTY := State(map[], [], [], map[], 0, Idle)

  predicate IsColumn(schema: Schema, column: nat) { column <= |schema| }

  function AllColumns(schema: Schema): set<nat> { set c: nat | 0 <= c <= |schema| && IsColumn(schema, c) }

  /** The files are those of a table with these rows, and the rows are of the schema. */
  ghost predicate Holds(file: TableFile, schema: Schema, rows: seq<Row>) {
    IsTable(file, schema, rows) && RowsFit(rows, schema)
  }

  /** The rows that the files of a table hold. */
  ghost function TableRows(file: TableFile, schema: Schema): (rows: seq<Row>)
    ensures (exists r :: Holds(file, schema, r)) ==> Holds(file, schema, rows)
  {
    if exists r :: Holds(file, schema, r) then
      var rows :| Holds(file, schema, rows);
      rows
    else []
  }

  ghost function RowsOf(c: Setup, disk: map<U64, TableFile>, info: TableInfo): seq<Row> {
    if info.id in disk then TableRows(disk[info.id], c.schema) else []
  }

  ghost function RowsOfAll(c: Setup, disk: map<U64, TableFile>, infos: seq<TableInfo>): (sources: seq<seq<Row>>)
    ensures |sources| == |infos| && forall i :: 0 <= i < |infos| ==> sources[i] == RowsOf(c, disk, infos[i])
  {
    seq(|infos|, i requires 0 <= i < |infos| => RowsOf(c, disk, infos[i]))
  }

  // ---------- Steps ----------

  datatype Step =
    | Insert(row: Row)
    | DropEmpty
    | BeginFlush
    | EndFlush(result: BuildResult, path: Bytes, size: U64)
    | BeginCompact
    | EndCompact(result: BuildResult, path: Bytes, size: U64)

  /** The entry of a table that the worker has built. */
  function InfoOf(id: U64, level: U32, result: BuildResult, path: Bytes, size: U64): TableInfo
    requires result.file.numBlocks < U32_LIMIT
  {
    TableInfo(id, path, level, result.min, result.max, size, result.file.numBlocks, LayoutByte(result.file.layout))
  }

  function RemoveAll(levels: Levels, infos: seq<TableInfo>): Levels
    decreases infos
  {
    if infos == [] then levels else RemoveAll(RemoveFrom(levels, infos[0].id), infos[1..])
  }

  function IdsOf(infos: seq<TableInfo>): set<U64> { set info | info in infos :: info.id }

  /** A step the code can take here. The worker compacts only when no frozen memtable waits. */
  ghost predicate Enabled(c: Setup, s: State, step: Step) {
    match step
    case Insert(row) => RowFits(row, c.schema)
    case DropEmpty => s.phase.Idle? && s.frozen != [] && s.frozen[0] == []
    case BeginFlush => s.phase.Idle? && s.frozen != [] && s.frozen[0] != [] && s.nextId + 1 < U64_LIMIT
    case EndFlush(result, _, _) =>
      s.phase.Flushing? && Built(result, ROW, c.schema, s.phase.rows) && result.file.numBlocks < U32_LIMIT
    case BeginCompact =>
      && s.phase.Idle? && s.frozen == [] && s.nextId + 1 < U64_LIMIT
      && var task := Pick(c.config, s.levels);
      task.Some? && task.value.source < |s.levels| && s.levels[task.value.source] != []
    case EndCompact(result, _, _) =>
      && s.phase.Compacting? && s.phase.task.target < U32_LIMIT && result.file.numBlocks < U32_LIMIT
      && Built(result, s.phase.task.layout, c.schema, Merge(RowsOfAll(c, s.disk, s.phase.candidates)))
  }

  ghost function Inserted(c: Setup, s: State, row: Row): State {
    var active := s.active[row.key := row];
    if |active| >= c.config.threshold then s.(active := map[], frozen := s.frozen + [Enumerate(active)])
    else s.(active := active)
  }

  ghost function Apply(c: Setup, s: State, step: Step): State
    requires Enabled(c, s, step)
  {
    match step
    case Insert(row) => Inserted(c, s, row)
    case DropEmpty => s.(frozen := s.frozen[1..])
    case BeginFlush => s.(nextId := s.nextId + 1, phase := Flushing(s.frozen[0], s.nextId))
    case EndFlush(result, path, size) =>
      s.(levels := AddTo(s.levels, InfoOf(s.phase.id, 0, result, path, size)),
         disk := s.disk[s.phase.id := result.file],
         frozen := if s.frozen == [] then [] else s.frozen[1..],
         phase := Idle)
    case BeginCompact =>
      var task := Pick(c.config, s.levels).value;
      s.(nextId := s.nextId + 1, phase := Compacting(task, s.levels[task.source], s.nextId))
    case EndCompact(result, path, size) =>
      s.(levels := RemoveAll(AddTo(s.levels, InfoOf(s.phase.id, s.phase.task.target, result, path, size)),
                             s.phase.candidates),
         disk := s.disk[s.phase.id := result.file] - IdsOf(s.phase.candidates),
         phase := Idle)
  }

  /** Runs from the empty tree. */
  ghost predicate Legal(c: Setup, steps: seq<Step>)
    decreases |steps|, 0
  {
    steps == [] || (Legal(c, steps[..|steps| - 1]) && Enabled(c, Run(c, steps[..|steps| - 1]), steps[|steps| - 1]))
  }

  ghost function Run(c: Setup, steps: seq<Step>): State
    requires Legal(c, steps)
    decreases |steps|, 1
  {
    if steps == [] then EMPTY else Apply(c, Run(c, steps[..|steps| - 1]), steps[|steps| - 1])
  }

  // ---------- The invariant ----------

  ghost predicate MemoryOk(c: Setup, s: State) {
    && Keyed(s.active) && (forall k :: k in s.active ==> RowFits(s.active[k], c.schema))
    && forall i :: 0 <= i < |s.frozen| ==> s.frozen[i] != [] && Ascending(s.frozen[i]) && RowsFit(s.frozen[i], c.schema)
  }

  /** The files are those of a table with these rows, and the entry describes them. */
  ghost predicate Stored(c: Setup, file: TableFile, info: TableInfo) {
    var rows := TableRows(file, c.schema);
    && Holds(file, c.schema, rows) && WeaklyAscending(rows) && rows != []
    && info.minKey == rows[0].key && info.maxKey == rows[|rows| - 1].key
    && info.layout == LayoutByte(file.layout) && info.numBlocks == file.numBlocks
  }

  /** A position in the levels. */
  predicate At(levels: Levels, l: int, i: int) { 0 <= l < |levels| && 0 <= i < |levels[l]| }

  ghost predicate DistinctIds(levels: Levels) {
    forall l, i, m, j {:trigger At(levels, l, i), At(levels, m, j)} ::
      At(levels, l, i) && At(levels, m, j) && levels[l][i].id == levels[m][j].id ==> l == m && i == j
  }

  ghost predicate InfoOk(c: Setup, disk: map<U64, TableFile>, nextId: U64, info: TableInfo) {
    info.id < nextId && info.id in disk && Stored(c, disk[info.id], info)
  }

  ghost predicate TablesOk(c: Setup, s: State) {
    && WellPlaced(s.levels) && TopUsed(s.levels) && DistinctIds(s.levels)
    && forall l, i {:trigger At(s.levels, l, i)} :: At(s.levels, l, i) ==> InfoOk(c, s.disk, s.nextId, s.levels[l][i])
  }

  ghost predicate FreshId(s: State, id: U64) {
    id < s.nextId && forall l, i {:trigger At(s.levels, l, i)} :: At(s.levels, l, i) ==> s.levels[l][i].id != id
  }

  /** What stays true while the lock is released. */
  ghost predicate PhaseOk(c: Setup, s: State) {
    match s.phase
    case Idle => true
    case Flushing(rows, id) => s.frozen != [] && s.frozen[0] == rows && FreshId(s, id)
    case Compacting(task, candidates, id) =>
      && Pick(c.config, s.levels) == Some(task) && task.target == task.source + 1
      && task.source < |s.levels| && s.levels[task.source] == candidates && candidates != []
      && FreshId(s, id)
  }

  ghost predicate Inv(c: Setup, s: State) { MemoryOk(c, s) && TablesOk(c, s) && PhaseOk(c, s) }

  // ---------- Tables that the worker builds ----------

  lemma {:induction false} MaskAll(row: Row, schema: Schema)
    requires RowFits(row, schema)
    ensures row.Mask(AllColumns(schema)) == row
  {
  }

  /** Files that hold some rows hold no others, because a full scan reads them. */
  lemma {:induction false} TableRowsIs(file: TableFile, schema: Schema, rows: seq<Row>)
    requires IsTable(file, schema, rows) && RowsFit(rows, schema)
    ensures TableRows(file, schema) == rows
  {
    hide ScanTable, IsTable, RowFits, MaskRows;
    assert Holds(file, schema, rows);
    FullScan(file, schema, rows, AllColumns(schema));
    FullScan(file, schema, TableRows(file, schema), AllColumns(schema));
    MaskNone(rows, schema);
    MaskNone(TableRows(file, schema), schema);
  }

  lemma {:induction false} MaskNone(rows: seq<Row>, schema: Schema)
    requires RowsFit(rows, schema)
    ensures MaskRows(rows, AllColumns(schema)) == rows
  {
    hide RowFits;
    forall i | 0 <= i < |rows| ensures rows[i].Mask(AllColumns(schema)) == rows[i] {
      assert rows[i] in rows;
      MaskAll(rows[i], schema);
    }
  }

  lemma {:induction false} BuiltIsStored(c: Setup, result: BuildResult, layout: Layout, rows: seq<Row>, id: U64,
                                         level: U32, path: Bytes, size: U64)
    requires Built(result, layout, c.schema, rows) && RowsFit(rows, c.schema) && WeaklyAscending(rows)
    requires result.file.numBlocks < U32_LIMIT
    ensures TableRows(result.file, c.schema) == rows && Stored(c, result.file, InfoOf(id, level, result, path, size))
  {
    hide IsTable, TableRows;
    TableRowsIs(result.file, c.schema, rows);
  }

  // ---------- The invariant is kept ----------

  lemma {:induction false} InsertKeeps(c: Setup, s: State, row: Row)
    requires Inv(c, s) && RowFits(row, c.schema)
    ensures Inv(c, Inserted(c, s, row))
  {
    hide TablesOk, Enumerate, RowFits, Pick, Ascending;
    var active := s.active[row.key := row];
    EnumerateSorts(active);
    var t := Inserted(c, s, row);
    SameTables(c, s, t);
    forall i | 0 <= i < |t.frozen|
      ensures t.frozen[i] != [] && Ascending(t.frozen[i]) && RowsFit(t.frozen[i], c.schema)
    {
      if i == |s.frozen| { assert row.key in active && active[row.key] == row; }
    }
  }

  /** Steps that leave levels and files alone keep what is said about them. */
  lemma {:induction false} SameTables(c: Setup, s: State, t: State)
    requires TablesOk(c, s) && t.levels == s.levels && t.disk == s.disk && s.nextId <= t.nextId
    ensures TablesOk(c, t)
    ensures forall id :: FreshId(s, id) ==> FreshId(t, id)
  {
    hide Stored;
  }

  lemma {:induction false} NextIdIsFresh(c: Setup, s: State)
    requires TablesOk(c, s)
    ensures forall l, i {:trigger At(s.levels, l, i)} :: At(s.levels, l, i) ==> s.levels[l][i].id != s.nextId
  {
    hide Stored;
  }

  lemma {:induction false} BeginFlushKeeps(c: Setup, s: State)
    requires Inv(c, s) && Enabled(c, s, BeginFlush)
    ensures Inv(c, Apply(c, s, BeginFlush))
  {
    hide TablesOk, MemoryOk, Pick;
    SameTables(c, s, Apply(c, s, BeginFlush));
    NextIdIsFresh(c, s);
    MemoryAlone(c, s, Apply(c, s, BeginFlush));
  }

  lemma {:induction false} MemoryAlone(c: Setup, s: State, t: State)
    requires MemoryOk(c, s) && t.active == s.active && t.frozen == s.frozen
    ensures MemoryOk(c, t)
  {
  }

  lemma {:induction false} BeginCompactKeeps(c: Setup, s: State)
    requires Inv(c, s) && Enabled(c, s, BeginCompact)
    ensures Inv(c, Apply(c, s, BeginCompact))
  {
    hide TablesOk, MemoryOk, FirstOversized;
    SameTables(c, s, Apply(c, s, BeginCompact));
    NextIdIsFresh(c, s);
    MemoryAlone(c, s, Apply(c, s, BeginCompact));
  }

  /** A stored table enters its level under a fresh id. */
  lemma {:induction false} AddKeeps(c: Setup, s: State, info: TableInfo, file: TableFile, t: State)
    requires TablesOk(c, s) && FreshId(s, info.id) && Stored(c, file, info)
    requires t.levels == AddTo(s.levels, info) && t.disk == s.disk[info.id := file] && t.nextId == s.nextId
    ensures TablesOk(c, t)
  {
    hide Stored, AddTo, WellPlaced, TopUsed;
    AddKeepsPlaces(s.levels, info);
    AddPositions(s.levels, info);
    AddKeepsIds(s.levels, info);
    forall l, i | At(t.levels, l, i) ensures InfoOk(c, t.disk, t.nextId, t.levels[l][i]) {
      if At(s.levels, l, i) { assert InfoOk(c, s.disk, s.nextId, s.levels[l][i]); }
    }
  }

  lemma {:induction false} AddKeepsIds(levels: Levels, info: TableInfo)
    requires DistinctIds(levels)
    requires forall l, i {:trigger At(levels, l, i)} :: At(levels, l, i) ==> levels[l][i].id != info.id
    ensures DistinctIds(AddTo(levels, info))
  {
    hide AddTo;
    AddPositions(levels, info);
  }

  /** Where the tables stand after an addition. */
  lemma {:induction false} AddPositions(levels: Levels, info: TableInfo)
    ensures var after := AddTo(levels, info);
            forall l, i {:trigger At(after, l, i)} :: At(after, l, i) ==>
              if At(levels, l, i) then after[l][i] == levels[l][i]
              else after[l][i] == info && l == info.level && i == if l < |levels| then |levels[l]| else 0
    ensures forall l, i {:trigger At(levels, l, i)} :: At(levels, l, i) ==> At(AddTo(levels, info), l, i)
  {
  }

  lemma {:induction false} EndFlushKeeps(c: Setup, s: State, step: Step)
    requires Inv(c, s) && step.EndFlush? && Enabled(c, s, step)
    ensures Inv(c, Apply(c, s, step))
  {
    hide TablesOk, AddTo, IsTable, TableRows, Stored, Ascending;
    var info := InfoOf(s.phase.id, 0, step.result, step.path, step.size);
    WeakerAscending(s.phase.rows);
    BuiltIsStored(c, step.result, ROW, s.phase.rows, s.phase.id, 0, step.path, step.size);
    AddKeeps(c, s, info, step.result.file, Apply(c, s, step));
  }

  lemma {:induction false} WeakerAscending(rows: seq<Row>)
    requires Ascending(rows)
    ensures WeaklyAscending(rows)
  {
  }

  // ---------- remove(id) drops exactly the merged tables ----------

  function KeepsOthers(ids: set<U64>): TableInfo -> bool {
    (info: TableInfo) => info.id !in ids
  }

  lemma {:induction false} RemoveAllIs(levels: Levels, infos: seq<TableInfo>)
    ensures |RemoveAll(levels, infos)| == |levels|
    ensures forall l :: 0 <= l < |levels| ==>
              RemoveAll(levels, infos)[l] == Filter(levels[l], KeepsOthers(IdsOf(infos)))
    decreases infos
  {
    hide Filter;
    if infos == [] {
      assert IdsOf(infos) == {};
      forall l | 0 <= l < |levels| ensures levels[l] == Filter(levels[l], KeepsOthers(IdsOf(infos))) {
        FilterAll(levels[l], KeepsOthers(IdsOf(infos)));
      }
    } else {
      var rest := infos[1..];
      RemoveAllIs(RemoveFrom(levels, infos[0].id), rest);
      assert IdsOf(infos) == {infos[0].id} + IdsOf(rest) by {
        assert infos == [infos[0]] + rest;
      }
      forall l | 0 <= l < |levels|
        ensures RemoveAll(levels, infos)[l] == Filter(levels[l], KeepsOthers(IdsOf(infos)))
      {
        FilterBoth(levels[l], HasOtherId(infos[0].id), KeepsOthers(IdsOf(rest)), KeepsOthers(IdsOf(infos)));
      }
    }
  }

  /** Publishing a compaction: the new table is added, and of the others exactly the source level goes. */
  lemma {:induction false} RemoveDropsExactly(levels: Levels, source: nat, info: TableInfo)
    requires DistinctIds(levels) && source < |levels| && info.level == source + 1
    requires forall l, i {:trigger At(levels, l, i)} :: At(levels, l, i) ==> levels[l][i].id != info.id
    ensures RemoveAll(AddTo(levels, info), levels[source]) == AddTo(levels, info)[source := []]
  {
    hide Filter, AddTo, RemoveAll;
    var after, gone := AddTo(levels, info), levels[source];
    var result := RemoveAll(after, gone);
    AddPositions(levels, info);
    RemoveAllIs(after, gone);
    SourceUntouched(levels, source, info);
    forall l | 0 <= l < |after| ensures result[l] == after[source := []][l] {
      if l == source {
        forall x | x in gone ensures x.id in IdsOf(gone) {}
        FilterNone(after[l], KeepsOthers(IdsOf(gone)));
      } else {
        forall x | x in after[l] ensures x.id !in IdsOf(gone) {
          var i :| 0 <= i < |after[l]| && after[l][i] == x;
          OtherLevel(levels, source, info, l, i);
        }
        FilterAll(after[l], KeepsOthers(IdsOf(gone)));
      }
    }
  }

  lemma {:induction false} SourceUntouched(levels: Levels, source: nat, info: TableInfo)
    requires source < |levels| && info.level == source + 1
    ensures AddTo(levels, info)[source] == levels[source]
    ensures |AddTo(levels, info)| >= source + 2
  {
  }

  /** A table outside the source level has none of the ids that go. */
  lemma {:induction false} OtherLevel(levels: Levels, source: nat, info: TableInfo, l: nat, i: nat)
    requires DistinctIds(levels) && source < |levels| && info.level == source + 1
    requires forall m, j {:trigger At(levels, m, j)} :: At(levels, m, j) ==> levels[m][j].id != info.id
    requires At(AddTo(levels, info), l, i) && l != source
    ensures AddTo(levels, info)[l][i].id !in IdsOf(levels[source])
  {
    hide AddTo;
    AddPositions(levels, info);
    var x := AddTo(levels, info)[l][i];
    forall other | other in levels[source] ensures other.id != x.id {
      var j :| 0 <= j < |levels[source]| && levels[source][j] == other;
      assert At(levels, source, j);
    }
  }

  lemma {:induction false} CompactedTables(c: Setup, s: State, info: TableInfo, file: TableFile, source: nat, t: State)
    requires TablesOk(c, s) && FreshId(s, info.id) && Stored(c, file, info)
    requires source < |s.levels| && info.level == source + 1
    requires t.levels == AddTo(s.levels, info)[source := []] && t.nextId == s.nextId
    requires t.disk == s.disk[info.id := file] - IdsOf(s.levels[source])
    ensures TablesOk(c, t)
  {
    hide AddTo, Stored;
    var u := s.(levels := AddTo(s.levels, info), disk := s.disk[info.id := file]);
    AddKeeps(c, s, info, file, u);
    SourceUntouched(s.levels, source, info);
    EmptiedIds(u.levels, source);
    forall l, i | At(t.levels, l, i) ensures InfoOk(c, t.disk, t.nextId, t.levels[l][i]) {
      assert l != source && At(u.levels, l, i);
      OtherLevel(s.levels, source, info, l, i);
    }
  }

  lemma {:induction false} EmptiedIds(levels: Levels, source: nat)
    requires DistinctIds(levels) && source < |levels|
    ensures DistinctIds(levels[source := []])
  {
    var after: Levels := levels[source := []];
    forall l, i, m, j | At(after, l, i) && At(after, m, j) && after[l][i].id == after[m][j].id
      ensures l == m && i == j
    {
      assert At(levels, l, i) && At(levels, m, j);
    }
  }

  lemma {:induction false} CandidatesAscending(c: Setup, s: State, source: nat)
    requires TablesOk(c, s) && source < |s.levels|
    ensures var children := RowsOfAll(c, s.disk, s.levels[source]);
            && AllAscending(children)
            && forall i :: 0 <= i < |children| ==> RowsFit(children[i], c.schema) && children[i] != []
  {
    hide IsTable, TableRows, WeaklyAscending, RowsFit;
    var children := RowsOfAll(c, s.disk, s.levels[source]);
    forall i | 0 <= i < |children|
      ensures WeaklyAscending(children[i]) && RowsFit(children[i], c.schema) && children[i] != []
    {
      assert At(s.levels, source, i);
    }
  }

  lemma {:induction false} MergeFits(children: seq<seq<Row>>, schema: Schema)
    requires forall i :: 0 <= i < |children| ==> RowsFit(children[i], schema)
    ensures RowsFit(Merge(children), schema)
  {
    forall r | r in Merge(children) ensures RowFits(r, schema) { InMerge(children, r); }
  }

  lemma {:induction false} EndCompactKeeps(c: Setup, s: State, step: Step)
    requires Inv(c, s) && step.EndCompact? && Enabled(c, s, step)
    ensures Inv(c, Apply(c, s, step))
    ensures Apply(c, s, step).levels
            == AddTo(s.levels, InfoOf(s.phase.id, s.phase.task.target, step.result, step.path,
                                      step.size))[s.phase.task.source := []]
  {
    hide TablesOk, MemoryOk, AddTo, IsTable, TableRows, Stored, Merge, WeaklyAscending, RowsFit, RemoveAll, Pick;
    var task, candidates := s.phase.task, s.phase.candidates;
    var info := InfoOf(s.phase.id, task.target, step.result, step.path, step.size);
    var children := RowsOfAll(c, s.disk, candidates);
    CandidatesAscending(c, s, task.source);
    MergeAscending(children);
    MergeFits(children, c.schema);
    BuiltIsStored(c, step.result, task.layout, Merge(children), s.phase.id, task.target, step.path, step.size);
    DistinctAre(c, s);
    RemoveDropsExactly(s.levels, task.source, info);
    CompactedTables(c, s, info, step.result.file, task.source, Apply(c, s, step));
    MemoryAlone(c, s, Apply(c, s, step));
  }

  lemma {:induction false} DistinctAre(c: Setup, s: State)
    requires TablesOk(c, s)
    ensures DistinctIds(s.levels) && WellPlaced(s.levels) && TopUsed(s.levels)
  {
  }

  /** Every step keeps the invariant, and no frozen memtable is ever empty. */
  lemma {:induction false} StepKeeps(c: Setup, s: State, step: Step)
    requires Inv(c, s) && Enabled(c, s, step)
    ensures Inv(c, Apply(c, s, step)) && !step.DropEmpty?
  {
    hide Inv, Apply;
    match step
    case Insert(row) => AppliedInsert(c, s, row); InsertKeeps(c, s, row);
    case DropEmpty => NeverEmpty(c, s);
    case BeginFlush => BeginFlushKeeps(c, s);
    case EndFlush(_, _, _) => EndFlushKeeps(c, s, step);
    case BeginCompact => BeginCompactKeeps(c, s);
    case EndCompact(_, _, _) => EndCompactKeeps(c, s, step);
  }

  lemma {:induction false} AppliedInsert(c: Setup, s: State, row: Row)
    requires RowFits(row, c.schema)
    ensures Enabled(c, s, Insert(row)) && Apply(c, s, Insert(row)) == Inserted(c, s, row)
  {
  }

  lemma {:induction false} NeverEmpty(c: Setup, s: State)
    requires Inv(c, s)
    ensures !Enabled(c, s, DropEmpty)
  {
    hide TablesOk, PhaseOk;
  }

  /** The invariant holds in every reachable state. */
  lemma {:induction false} Reachable(c: Setup, steps: seq<Step>)
    requires Legal(c, steps)
    ensures Inv(c, Run(c, steps))
    decreases |steps|
  {
    hide Apply, Enabled;
    if steps == [] {
      EmptyTree(c);
    } else {
      hide Inv;
      Reachable(c, steps[..|steps| - 1]);
      StepKeeps(c, Run(c, steps[..|steps| - 1]), steps[|steps| - 1]);
    }
  }

  lemma {:induction false} EmptyTree(c: Setup)
    ensures Inv(c, EMPTY)
  {
  }

  // ---------- Metadata caches never go stale ----------

  function InFlight(s: State): set<U64> {
    match s.phase
    case Idle => {}
    case Flushing(_, id) => {id}
    case Compacting(_, _, id) => {id}
  }

  /** Ids of tables that are, or were, published. */
  ghost predicate Known(s: State, ids: set<U64>) { forall id :: id in ids ==> id < s.nextId && id !in InFlight(s) }

  lemma {:induction false} StaysKnown(c: Setup, s: State, step: Step, ids: set<U64>)
    requires Enabled(c, s, step) && Known(s, ids)
    ensures Known(Apply(c, s, step), ids)
  {
    hide Pick, AddTo, RemoveAll, Built, Enumerate;
  }

  lemma {:induction false} NotInFlight(s: State, ids: set<U64>)
    requires Known(s, ids) && !s.phase.Idle?
    ensures s.phase.id !in ids
  {
  }

  /** The files that the tree's metadata caches were opened on, by table id; entries are never dropped. */
  ghost predicate CachesTrue(s: State, cached: map<U64, TableFile>) {
    && Known(s, cached.Keys)
    && (forall l, i {:trigger At(s.levels, l, i)} :: At(s.levels, l, i) && s.levels[l][i].id in cached ==>
          s.levels[l][i].id in s.disk && cached[s.levels[l][i].id] == s.disk[s.levels[l][i].id])
  }

  /** Ids are never used twice, so a cache found under a table's id was opened on that table's files. */
  lemma {:induction false} CachesStayTrue(c: Setup, s: State, step: Step, cached: map<U64, TableFile>)
    requires Inv(c, s) && Enabled(c, s, step) && CachesTrue(s, cached)
    ensures CachesTrue(Apply(c, s, step), cached)
  {
    hide MemoryOk, Stored, Pick, AddTo, RemoveAll, Built, Enumerate, Known, InFlight;
    StaysKnown(c, s, step, cached.Keys);
    match step
    case EndFlush(result, path, size) =>
      NotInFlight(s, cached.Keys);
      AddPositions(s.levels, InfoOf(s.phase.id, 0, result, path, size));
    case EndCompact(result, path, size) =>
      var source, info := s.phase.task.source, InfoOf(s.phase.id, s.phase.task.target, result, path, size);
      NotInFlight(s, cached.Keys);
      EndCompactKeeps(c, s, step);
      AddPositions(s.levels, info);
      SourceUntouched(s.levels, source, info);
      var t := Apply(c, s, step);
      forall l, i | At(t.levels, l, i) && t.levels[l][i].id in cached
        ensures t.levels[l][i].id in t.disk && cached[t.levels[l][i].id] == t.disk[t.levels[l][i].id]
      {
        assert l != source && At(AddTo(s.levels, info), l, i);
        OtherLevel(s.levels, source, info, l, i);
      }
    case _ =>
  }

  /** Opening a cache on a registered table. */
  lemma {:induction false} OpenedCacheIsTrue(c: Setup, s: State, cached: map<U64, TableFile>, l: nat, i: nat)
    requires Inv(c, s) && CachesTrue(s, cached) && At(s.levels, l, i)
    ensures s.levels[l][i].id in s.disk && CachesTrue(s, cached[s.levels[l][i].id := s.disk[s.levels[l][i].id]])
  {
    hide MemoryOk, Stored, Pick;
  }

  /** A manifest saved in any reachable state loads back to the same levels and next id, within the format's limits. */
  lemma {:induction false} SavedStateReloads(c: Setup, steps: seq<Step>)
    requires Legal(c, steps)
    requires |Run(c, steps).levels| < U32_LIMIT && |Flatten(Run(c, steps).levels)| < U32_LIMIT
    requires PathsFit(Run(c, steps).levels)
    ensures var s := Run(c, steps);
            Load(Some(Save(s.levels, s.nextId))) == Ok(Manifest.Loaded.Loaded(s.levels, s.nextId))
  {
    hide Run, Legal, Save, Load, PathsFit, Flatten, InfoOk, MemoryOk, PhaseOk;
    Reachable(c, steps);
    ManifestRoundTrip(Run(c, steps).levels, Run(c, steps).nextId);
  }
}
