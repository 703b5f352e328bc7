/** A run after which a scan agrees with the mock engine although a row of its range was left behind. */
module HiddenRows {
  import opened Seqs
  import opened Storage
  import opened SortedMaps
  import opened Pruning
  import opened SparseIndex
  import opened Codec
  import opened Tables
  import opened TableScan
  import opened TableBuilders
  import opened Merging
  import opened Cursors
  import opened Registry
  import opened Engine
  import opened Reference
  import opened Memory
  import opened Snapshot
  import opened Drain

  // ---------- The table ----------

  /** Both versions of a key, each in a block of its own, every block indexed. */
  ghost function TwoBlocks(layout: Layout, schema: Schema, older: Row, newer: Row): BuildResult {
    var blocks: seq<Block> := [[older], [newer]];
    BuildResult(FileOf(layout, schema, blocks, 1), older.key, newer.key)
  }

  lemma {:induction false} TwoBlocksHold(layout: Layout, schema: Schema, older: Row, newer: Row)
    ensures var blocks: seq<Block> := [[older], [newer]]; AllRows(blocks) == [older, newer]
    ensures Built(TwoBlocks(layout, schema, older, newer), layout, schema, [older, newer])
    ensures TwoBlocks(layout, schema, older, newer).file.numBlocks == 2
  {
    hide StatsOfBlocks, RowPieces, RowMetas, ColumnPieces, ColumnGroups, Mins;
    var blocks: seq<Block> := [[older], [newer]];
    var first, second: Block := [older], [newer];
    FlattenSnoc<Row>([first], second);
    OnePart<Row>(first);
    assert blocks == [first] + [second];
    assert IsTable(TwoBlocks(layout, schema, older, newer).file, schema, [older, newer]);
  }

  /** From the key on, the index leads past the older version. */
  lemma {:induction false} ReadsNewerOnly(layout: Layout, schema: Schema, older: Row, newer: Row, projected: set<nat>)
    requires RowFits(older, schema) && RowFits(newer, schema) && older.key == newer.key
    ensures var request := Request(KeyRange(Some(newer.key), None), projected, []);
            ScanTable(TwoBlocks(layout, schema, older, newer).file, schema, request) == Ok([newer.Mask(projected)])
  {
    hide ScanTable, RowsDescribe, GroupsDescribe, RowFits, Entries, SelectSpan;
    var blocks: seq<Block> := [[older], [newer]];
    var file := TwoBlocks(layout, schema, older, newer).file;
    var request := Request(KeyRange(Some(newer.key), None), projected, []);
    TwoBlocksHold(layout, schema, older, newer);
    BlocksOf(blocks, schema);
    FileDescribes(layout, schema, blocks, 1, projected);
    var span := SecondOnly(newer.key);
    assert Mins(blocks) == [newer.key, newer.key];
    ScanIsKeptBlocks(file, blocks, schema, 1, request, span);
    var keep := Keeper(blocks, file, request, span);
    assert keep(1);
    assert KeptIds(keep, 1, 2) == [1] + KeptIds(keep, 2, 2);
    OneBlock(blocks, newer, request.range, projected);
  }

  lemma {:induction false} SecondOnly(key: Key) returns (span: BlockSpan)
    ensures span == BlockSpan(1, 1)
    ensures SelectSpan(Entries([key, key], 1, 2), KeyRange(Some(key), None), 2) == Ok(span)
  {
    hide Entries, SelectSpan;
    var keys, range := [key, key], KeyRange(Some(key), None);
    SelectionExact(keys, keys, 1, range);
    span := SelectSpan(Entries(keys, 1, 2), range, 2).value;
    assert 1 % 1 == 0 && keys[1] == key;
    assert SharesFrom(keys, keys, 1, range, 0) && !SharesFrom(keys, keys, 1, range, 1);
    assert Intersects(keys[0], keys[0], range) && Intersects(keys[1], keys[1], range);
    assert !span.Includes(0) && span.Includes(1);
  }

  lemma {:induction false} OneBlock(blocks: seq<Block>, newer: Row, range: KeyRange, projected: set<nat>)
    requires |blocks| == 2 && blocks[1] == [newer] && range.Contains(newer.key)
    ensures MaskRows(RowsOfBlocks(blocks, [1] + [], range), projected) == [newer.Mask(projected)]
  {
    assert ([1] + [])[1..] == [];
    FilterAll([newer], range.Has());
    assert RowsOfBlocks(blocks, [1] + [], range) == [newer] + [];
  }

  // ---------- The run ----------

  /** A table of one row. */
  lemma {:induction false} OneRowTable(schema: Schema, row: Row) returns (result: BuildResult)
    requires RowFits(row, schema)
    ensures Built(result, ROW, schema, [row]) && result.file.numBlocks == 1 && TableRows(result.file, schema) == [row]
  {
    hide RowFits, IsTable, TableRows;
    result := CanBeBuilt(ROW, schema, [row]);
    TableRowsIs(result.file, schema, [row]);
  }

  /** Two inserts of a key, each frozen at once. */
  lemma {:induction false} Inserts(c: Setup, older: Row, newer: Row) returns (steps: seq<Step>)
    requires RowFits(older, c.schema) && RowFits(newer, c.schema) && older.key == newer.key && c.config.threshold <= 1
    ensures Legal(c, steps) && Run(c, steps) == EMPTY.(frozen := [[older], [newer]])
    ensures MockOf(steps) == map[newer.key := newer] && ShadowedRows(c, steps) == multiset{older}
  {
    hide Legal, Run, RowFits, Enumerate;
    ShadowedRun(c, older, newer);
    NothingRun(c);
    Frozen(c, EMPTY, older);
    Extended(c, [], Insert(older));
    assert [] + [Insert(older)] == [Insert(older)];
    Frozen(c, Run(c, [Insert(older)]), newer);
    Extended(c, [Insert(older)], Insert(newer));
    assert [Insert(older)] + [Insert(newer)] == [Insert(older), Insert(newer)];
    steps := [Insert(older), Insert(newer)];
    assert steps[..1] == [Insert(older)] && steps[..1][..0] == [];
    assert [] + [[older]] + [[newer]] == [[older], [newer]];
  }

  lemma {:induction false} Frozen(c: Setup, s: State, row: Row)
    requires s.active == map[] && c.config.threshold <= 1
    ensures Inserted(c, s, row) == s.(frozen := s.frozen + [[row]])
  {
    hide Enumerate;
    var active := s.active[row.key := row];
    assert active == map[row.key := row];
    EnumerateUnique(active, [row]);
    assert |active| == 1;
  }

  /** A step of the worker leaves the map, and what was left behind, as they are. */
  lemma {:induction false} WorkerStep(c: Setup, steps: seq<Step>, step: Step)
    requires Legal(c, steps) && Enabled(c, Run(c, steps), step) && !step.Insert?
    ensures Legal(c, steps + [step]) && Run(c, steps + [step]) == Apply(c, Run(c, steps), step)
    ensures MockOf(steps + [step]) == MockOf(steps) && ShadowedRows(c, steps + [step]) == ShadowedRows(c, steps)
  {
    hide Enabled, Apply;
    Extended(c, steps, step);
    assert (steps + [step])[..|steps|] == steps;
  }

  /** A flush of the oldest frozen memtable, of one row. */
  lemma {:induction false} Flushed(c: Setup, before: seq<Step>, row: Row) returns (steps: seq<Step>, info: TableInfo)
    requires Legal(c, before) && RowFits(row, c.schema)
    requires var s := Run(c, before);
             s.phase.Idle? && s.frozen != [] && s.frozen[0] == [row] && s.nextId + 1 < U64_LIMIT
    ensures Legal(c, steps) && MockOf(steps) == MockOf(before) && ShadowedRows(c, steps) == ShadowedRows(c, before)
    ensures var s, t := Run(c, before), Run(c, steps);
            && t.active == s.active && t.frozen == s.frozen[1..] && t.phase.Idle? && t.nextId == s.nextId + 1
            && t.levels == AddTo(s.levels, info) && info.level == 0 && info.id == s.nextId
            && info.id in t.disk && TableRows(t.disk[info.id], c.schema) == [row]
            && forall id :: id in s.disk && id != info.id ==> id in t.disk && t.disk[id] == s.disk[id]
  {
    hide Legal, Run, RowFits, Built, TableRows, AddTo, MockOf, ShadowedRows;
    var result := OneRowTable(c.schema, row);
    WorkerStep(c, before, BeginFlush);
    var begun, publish := before + [BeginFlush], EndFlush(result, [], 0);
    WorkerStep(c, begun, publish);
    steps, info := begun + [publish], InfoOf(Run(c, before).nextId, 0, result, [], 0);
  }

  /** Both versions flushed into tables of their own. */
  lemma {:induction false} TwoTables(c: Setup, older: Row, newer: Row)
    returns (steps: seq<Step>, first: TableInfo, second: TableInfo)
    requires RowFits(older, c.schema) && RowFits(newer, c.schema) && older.key == newer.key && c.config.threshold <= 1
    ensures Legal(c, steps) && MockOf(steps) == map[newer.key := newer] && ShadowedRows(c, steps) == multiset{older}
    ensures var s := Run(c, steps);
            && s.active == map[] && s.frozen == [] && s.phase.Idle? && s.nextId == 2 && s.levels == [[first, second]]
            && first.id == 0 && second.id == 1
            && RowsOfAll(c, s.disk, [first, second]) == [[older], [newer]]
  {
    hide Legal, Run, RowFits, TableRows, MockOf, ShadowedRows, AddTo;
    var inserts := Inserts(c, older, newer);
    var once, first' := Flushed(c, inserts, older);
    var twice, second' := Flushed(c, once, newer);
    AddTwice(first', second');
    steps, first, second := twice, first', second';
  }

  lemma {:induction false} AddTwice(first: TableInfo, second: TableInfo)
    requires first.level == 0 && second.level == 0
    ensures AddTo(AddTo([], first), second) == [[first, second]]
  {
    assert Resize([], 1) == [[]] && [] + [first] == [first];
    assert AddTo([], first) == [[first]];
    assert [first] + [second] == [first, second];
  }

  lemma {:induction false} MergeTwo(older: Row, newer: Row)
    requires older.key == newer.key
    ensures Merge([[older], [newer]]) == [older, newer]
  {
    var children: seq<seq<Row>> := [[older], [newer]];
    TopIs(children, 0);
    assert [older][1..] == [];
    assert Advance(children, 0) == [[], [newer]];
    MergeOne(newer);
  }

  /** The compaction of both tables, with a block for each version. */
  lemma {:induction false} Compacted(c: Setup, older: Row, newer: Row) returns (steps: seq<Step>, info: TableInfo)
    requires RowFits(older, c.schema) && RowFits(newer, c.schema) && older.key == newer.key
    requires c.config.threshold <= 1 && c.config.trigger == 2
    ensures Legal(c, steps) && MockOf(steps) == map[newer.key := newer] && ShadowedRows(c, steps) == multiset{older}
    ensures var s, layout := Run(c, steps), LayoutOf(c.config, 1);
            && s.active == map[] && s.frozen == [] && s.levels == [[], [info]] && info.id == 2
            && info.minKey == newer.key && info.maxKey == newer.key
            && info.id in s.disk && s.disk[info.id] == TwoBlocks(layout, c.schema, older, newer).file
  {
    hide Legal, Run, RowFits, Built, TableRows, MockOf, ShadowedRows, AddTo, RemoveAll, FileOf, IdsOf;
    var flushed, first, second := TwoTables(c, older, newer);
    var s, layout := Run(c, flushed), LayoutOf(c.config, 1);
    assert Pick(c.config, s.levels) == Some(Task(0, 1, layout));
    WorkerStep(c, flushed, BeginCompact);
    var begun := flushed + [BeginCompact];
    MergeTwo(older, newer);
    TwoBlocksHold(layout, c.schema, older, newer);
    var result := TwoBlocks(layout, c.schema, older, newer);
    var publish := EndCompact(result, [], 0);
    WorkerStep(c, begun, publish);
    steps, info := begun + [publish], InfoOf(2, 1, result, [], 0);
    NewTableStays(first, second, info);
  }

  lemma {:induction false} NewTableStays(first: TableInfo, second: TableInfo, info: TableInfo)
    requires first.id == 0 && second.id == 1 && info.id == 2 && info.level == 1
    ensures RemoveAll(AddTo([[first, second]], info), [first, second]) == [[], [info]]
    ensures 2 !in IdsOf([first, second])
  {
    var levels: Levels := AddTo([[first, second]], info);
    assert Resize([[first, second]], 2) == [[first, second], []] && [] + [info] == [info];
    assert levels == [[first, second], [info]];
    assert [first, second][1..] == [second] && [second][1..] == [];
    assert Filter([first, second], HasOtherId(0)) == [second] && Filter([info], HasOtherId(0)) == [info];
    assert Filter([second], HasOtherId(1)) == [] && Filter([info], HasOtherId(1)) == [info];
    var once := RemoveFrom(levels, 0);
    assert once == [[second], [info]];
    assert RemoveFrom(once, 1) == [[], [info]];
    assert RemoveAll(once, [second]) == RemoveAll([[], [info]], []);
  }

  /**
   What the condition of AgreesUnlessShadowed is for: the older of two versions is left behind in the block
   before the newer one, and a scan from their key on shows what the mock engine shows.
   */
  lemma {:induction false} OlderStaysHidden(c: Setup, older: Row, newer: Row, projected: set<nat>)
    returns (steps: seq<Step>)
    requires RowFits(older, c.schema) && RowFits(newer, c.schema) && older.key == newer.key
    requires c.config.threshold <= 1 && c.config.trigger == 2
    ensures var range := KeyRange(Some(newer.key), None);
            && Legal(c, steps) && Shadowed(c, steps, range) && !StartsClear(c, steps, range)
            && Walkable(Run(c, steps), range)
            && MaskRows(Scan(c, Run(c, steps), Request(range, projected, []), KeyAscending), projected)
               == MaskRows(MockScan(MockOf(steps), range), projected)
  {
    hide Legal, Run, RowFits, MockOf, ShadowedRows, ScanTable, FileOf, Enumerate;
    var compacted, info := Compacted(c, older, newer);
    steps := compacted;
    var s, range := Run(c, steps), KeyRange(Some(newer.key), None);
    var request := Request(range, projected, []);
    assert older in ShadowedRows(c, steps) && range.Contains(older.key);
    OrderedIsWalkable(s, range);
    ReadsNewerOnly(LayoutOf(c.config, 1), c.schema, older, newer, projected);
    ShownChildren(c, s, info, request, newer);
    MergeOne(newer.Mask(projected));
    EnumerateUnique(map[newer.key := newer], [newer]);
    FilterAll([newer], range.Has());
    MaskTwice(newer, projected);
    assert MaskRows([newer.Mask(projected)], projected) == [newer.Mask(projected).Mask(projected)];
    assert MaskRows([newer], projected) == [newer.Mask(projected)];
  }

  lemma {:induction false} ShownChildren(c: Setup, s: State, info: TableInfo, request: Request, newer: Row)
    requires s.active == map[] && s.frozen == [] && s.levels == [[], [info]] && info.id in s.disk
    requires info.minKey == newer.key && info.maxKey == newer.key && request.range == KeyRange(Some(newer.key), None)
    requires ScanTable(s.disk[info.id], c.schema, request) == Ok([newer.Mask(request.projected)])
    ensures Children(c, s, request) == [[], [newer.Mask(request.projected)]]
  {
    hide ScanTable;
    assert Enumerate(s.active) == [];
    assert FilterAllOf(MemorySources(s), request.range) == [[]];
    FlattenSnoc([[]], [info]);
    OnePart<TableInfo>([]);
    assert s.levels == [[]] + [[info]];
    FilterAll([info], OverlapTest(request.range));
    assert TablesIn(s.levels, request.range) == [info];
  }

  lemma {:induction false} MergeOne(row: Row)
    ensures Merge([[], [row]]) == [row]
  {
    var children, rest: seq<seq<Row>> := [[], [row]], [[], []];
    TopIs(children, 1);
    assert [row][1..] == [];
    assert Advance(children, 1) == rest;
    assert Exhausted(rest);
  }
}
