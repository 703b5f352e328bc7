/**
 Reading one table through its index, block metadata and statistics (make_sstable_cursor and the
 cursor it returns), for both layouts, and what that read promises.
 */
module TableScan {
  import opened Seqs
  import opened Storage
  import opened Planner
  import opened Pruning
  import opened SparseIndex
  import opened Codec
  import opened Tables

  datatype Request = Request(range: KeyRange, projected: set<nat>, filter: seq<NumericPredicate>)

  // ---------- The pipeline ----------

  /** Statistics of the selected span, for the columns the filter mentions. */
  function StatsIn(file: TableFile, span: BlockSpan, filter: seq<NumericPredicate>): StatsRange {
    StatsRange(span.first, span.count,
               map c | c in file.stats && span.first + span.count <= |file.stats[c]| && MentionsColumn(filter, c) ::
                 file.stats[c][span.first..span.first + span.count])
  }

  predicate MentionsColumn(filter: seq<NumericPredicate>, column: nat) {
    exists p :: p in filter && p.column == column
  }

  /** The tests a block has to pass: its key bounds, then its statistics. */
  predicate KeepsBlock(file: TableFile, request: Request, span: BlockSpan, min: Key, max: Key, block: nat) {
    Intersects(min, max, request.range) && KeepBlock(block, StatsIn(file, span, request.filter), request.filter)
  }

  function KeepsRowBlock(file: TableFile, request: Request, span: BlockSpan): RowBlockMeta -> bool {
    (m: RowBlockMeta) => KeepsBlock(file, request, span, m.minKey, m.maxKey, m.blockId)
  }

  /** The physical column blocks that are read: those of kept logical blocks, the key and projected columns. */
  function KeepsColumnBlock(file: TableFile, request: Request, span: BlockSpan): ColumnBlockMeta -> bool {
    (m: ColumnBlockMeta) => KeepsBlock(file, request, span, m.minKey, m.maxKey, m.blockId)
                            && (m.columnIdx == 0 || m.columnIdx in request.projected)
  }

  /** What the row cursor emits: block after block, the decoded rows inside the range. */
  function EmitRowBlocks(file: TableFile, metas: seq<RowBlockMeta>, schema: Schema, request: Request)
    : Result<seq<Row>>
  {
    if metas == [] then Ok([])
    else
      var rows :- ReadRowBlock(file, metas[0], schema, request.projected);
      var rest :- EmitRowBlocks(file, metas[1..], schema, request);
      Ok(Filter(rows, request.range.Has()) + rest)
  }

  /** The decoded columns of the logical block being read; a column without a block stays unloaded. */
  datatype Loaded = Loaded(keys: seq<Key>, columns: map<nat, seq<Cell>>)

  function LoadColumn(file: TableFile, m: ColumnBlockMeta, schema: Schema, projected: set<nat>, l: Loaded)
    : Result<Loaded>
  {
    if m.columnIdx > |schema| then Err
    else if m.columnIdx == 0 then
      var keys :- ReadKeyBlock(file, m);
      Ok(l.(keys := keys))
    else if m.columnIdx !in projected then Ok(l)
    else
      var cells :- ReadCellBlock(file, m, schema[m.columnIdx - 1]);
      Ok(l.(columns := l.columns[m.columnIdx := cells]))
  }

  function LoadGroup(file: TableFile, group: seq<ColumnBlockMeta>, schema: Schema, projected: set<nat>, l: Loaded)
    : Result<Loaded>
    decreases group
  {
    if group == [] then Ok(l)
    else
      var next :- LoadColumn(file, group[0], schema, projected, l);
      LoadGroup(file, group[1..], schema, projected, next)
  }

  /** Row i of the loaded block; unloaded columns, and cells a column is too short for, read as NULL. */
  function LoadedRow(l: Loaded, width: nat, i: nat): Row
    requires i < |l.keys| && width >= 1
  {
    Row(l.keys[i], seq(width - 1, c requires 0 <= c < width - 1 =>
      if c + 1 in l.columns && i < |l.columns[c + 1]| then l.columns[c + 1][i] else None))
  }

  function LoadedRows(l: Loaded, width: nat): seq<Row>
    requires width >= 1
  {
    seq(|l.keys|, i requires 0 <= i < |l.keys| => LoadedRow(l, width, i))
  }

  /** Length of the leading run of blocks with the same logical id. */
  function RunLength(metas: seq<ColumnBlockMeta>, id: nat): (n: nat)
    ensures n <= |metas|
    ensures forall i :: 0 <= i < n ==> metas[i].blockId == id
    ensures n < |metas| ==> metas[n].blockId != id
  {
    if metas == [] || metas[0].blockId != id then 0 else 1 + RunLength(metas[1..], id)
  }

  const NOTHING_LOADED := Loaded([], map[])

  /** What the column cursor emits: logical block after logical block, the rows inside the range. */
  function EmitColumnBlocks(file: TableFile, metas: seq<ColumnBlockMeta>, schema: Schema, request: Request)
    : Result<seq<Row>>
    decreases |metas|
  {
    if metas == [] then Ok([])
    else
      var n := RunLength(metas, metas[0].blockId);
      var l :- LoadGroup(file, metas[..n], schema, request.projected, NOTHING_LOADED);
      var rest :- EmitColumnBlocks(file, metas[n..], schema, request);
      Ok(Filter(LoadedRows(l, Width(schema)), request.range.Has()) + rest)
  }

  function ScanRowTable(file: TableFile, schema: Schema, request: Request, span: BlockSpan): Result<seq<Row>> {
    var end := span.first + span.count;
    if end > |file.rowMeta| then Err
    else EmitRowBlocks(file, Filter(file.rowMeta[span.first..end], KeepsRowBlock(file, request, span)), schema, request)
  }

  function ScanColumnTable(file: TableFile, schema: Schema, request: Request, span: BlockSpan): Result<seq<Row>> {
    var from, end := span.first * Width(schema), (span.first + span.count) * Width(schema);
    if !(0 <= from <= end <= |file.columnMeta|) then Err
    else EmitColumnBlocks(file, Filter(file.columnMeta[from..end], KeepsColumnBlock(file, request, span)), schema,
                          request)
  }

  /** All rows that a cursor over this table emits. */
  function ScanTable(file: TableFile, schema: Schema, request: Request): Result<seq<Row>> {
    var span :- SelectSpan(file.index, request.range, file.numBlocks);
    if span.count == 0 then Ok([])
    else if span.first + span.count > file.numBlocks then Err
    else if file.layout.ROW? then ScanRowTable(file, schema, request, span)
    else ScanColumnTable(file, schema, request, span)
  }

  // ---------- Which blocks are read ----------

  /** Whether block i is read. */
  function Keeper(blocks: seq<Block>, file: TableFile, request: Request, span: BlockSpan): nat -> bool {
    (i: nat) => i < |blocks| && KeepsBlock(file, request, span, MinKey(blocks[i]), MaxKey(blocks[i]), i)
  }

  /** The kept ids in [from, end). */
  function KeptIds(keep: nat -> bool, from: nat, end: nat): (ids: seq<nat>)
    requires from <= end
    ensures forall i :: i in ids <==> from <= i < end && keep(i)
    decreases end - from
  {
    if from == end then []
    else
      var rest := KeptIds(keep, from + 1, end);
      if keep(from) then [from] + rest else rest
  }

  ghost predicate Increasing(ids: seq<nat>) { forall i, j :: 0 <= i < j < |ids| ==> ids[i] < ids[j] }

  lemma {:induction false} KeptIdsIncreasing(keep: nat -> bool, from: nat, end: nat)
    requires from <= end
    ensures Increasing(KeptIds(keep, from, end))
    decreases end - from
  {
    if from < end {
      var rest := KeptIds(keep, from + 1, end);
      KeptIdsIncreasing(keep, from + 1, end);
      assert forall k :: 0 <= k < |rest| ==> rest[k] in rest;
    }
  }

  ghost predicate Ids(ids: seq<nat>, blocks: seq<Block>) { forall i :: i in ids ==> i < |blocks| }

  function RowMetasOf(metas: seq<RowBlockMeta>, ids: seq<nat>): seq<RowBlockMeta>
    requires forall i :: i in ids ==> i < |metas|
  {
    if ids == [] then []
    else
      assert ids[0] in ids && forall i :: i in ids[1..] ==> i in ids;
      [metas[ids[0]]] + RowMetasOf(metas, ids[1..])
  }

  function InProjection(projected: set<nat>): ColumnBlockMeta -> bool {
    (m: ColumnBlockMeta) => m.columnIdx == 0 || m.columnIdx in projected
  }

  /** The key column and the projected columns of the listed groups. */
  function ColumnMetasOf(groups: seq<seq<ColumnBlockMeta>>, projected: set<nat>, ids: seq<nat>): seq<ColumnBlockMeta>
    requires forall i :: i in ids ==> i < |groups|
  {
    if ids == [] then []
    else
      assert ids[0] in ids && forall i :: i in ids[1..] ==> i in ids;
      Filter(groups[ids[0]], InProjection(projected)) + ColumnMetasOf(groups, projected, ids[1..])
  }

  lemma {:induction false} KeptRowMetas(metas: seq<RowBlockMeta>, test: RowBlockMeta -> bool, keep: nat -> bool,
                                        from: nat, end: nat)
    requires from <= end <= |metas| && forall i :: 0 <= i < |metas| ==> test(metas[i]) == keep(i)
    ensures Filter(metas[from..end], test) == RowMetasOf(metas, KeptIds(keep, from, end))
    decreases end - from
  {
    if from < end {
      KeptRowMetas(metas, test, keep, from + 1, end);
      assert metas[from..end][1..] == metas[from + 1..end];
    }
  }

  lemma {:induction false} KeptStep(keep: nat -> bool, from: nat, end: nat)
    requires from < end
    ensures keep(from) ==> KeptIds(keep, from, end) == [from] + KeptIds(keep, from + 1, end)
    ensures !keep(from) ==> KeptIds(keep, from, end) == KeptIds(keep, from + 1, end)
  {
  }

  lemma {:induction false} NoGroups(groups: seq<seq<ColumnBlockMeta>>, projected: set<nat>, keep: nat -> bool, n: nat)
    ensures KeptIds(keep, n, n) == [] && ColumnMetasOf(groups, projected, []) == []
    ensures Flatten<ColumnBlockMeta>([]) == []
  {
  }

  /** Concatenating the projected groups of the kept blocks. */
  lemma {:induction false} KeptGroups(groups: seq<seq<ColumnBlockMeta>>, projected: set<nat>, keep: nat -> bool,
                                      from: nat, end: nat, parts: seq<seq<ColumnBlockMeta>>)
    requires from <= end <= |groups| == |parts|
    requires forall i :: 0 <= i < |parts| ==>
               parts[i] == if keep(i) then Filter(groups[i], InProjection(projected)) else []
    ensures Flatten(parts[from..end]) == ColumnMetasOf(groups, projected, KeptIds(keep, from, end))
    decreases end - from
  {
    hide Filter, InProjection, Flatten, ColumnMetasOf, KeptIds;
    if from == end {
      NoGroups(groups, projected, keep, from);
      assert parts[from..end] == [];
    } else {
      KeptGroups(groups, projected, keep, from + 1, end, parts);
      KeptStep(keep, from, end);
      assert parts[from..end] == [parts[from]] + parts[from + 1..end];
      FlattenCons(parts[from], parts[from + 1..end]);
      if keep(from) {
        ColumnMetasCons(groups, projected, from, KeptIds(keep, from + 1, end));
      } else {
        assert parts[from] + Flatten(parts[from + 1..end]) == Flatten(parts[from + 1..end]);
      }
    }
  }

  lemma {:induction false} ColumnMetasCons(groups: seq<seq<ColumnBlockMeta>>, projected: set<nat>, id: nat,
                                           ids: seq<nat>)
    requires id < |groups| && forall i :: i in ids ==> i < |groups|
    ensures ColumnMetasOf(groups, projected, [id] + ids)
            == Filter(groups[id], InProjection(projected)) + ColumnMetasOf(groups, projected, ids)
  {
    assert ([id] + ids)[1..] == ids;
  }

  // ---------- What those blocks emit ----------

  /** The in-range rows of the given blocks, in order. */
  function RowsOfBlocks(blocks: seq<Block>, ids: seq<nat>, range: KeyRange): seq<Row>
    requires Ids(ids, blocks)
  {
    if ids == [] then []
    else
      assert ids[0] in ids && forall i :: i in ids[1..] ==> i in ids;
      Filter(blocks[ids[0]], range.Has()) + RowsOfBlocks(blocks, ids[1..], range)
  }

  lemma {:induction false} FilterMasked(rows: seq<Row>, range: KeyRange, projected: set<nat>)
    ensures Filter(MaskRows(rows, projected), range.Has()) == MaskRows(Filter(rows, range.Has()), projected)
  {
    if rows != [] {
      FilterMasked(rows[1..], range, projected);
      MaskRowsCons(rows, projected);
      MaskKeeps(rows[0], projected);
      assert MaskRows(rows, projected)[1..] == MaskRows(rows[1..], projected);
    }
  }

  lemma {:induction false} MaskConcat(a: seq<Row>, b: seq<Row>, projected: set<nat>)
    ensures MaskRows(a + b, projected) == MaskRows(a, projected) + MaskRows(b, projected)
  {
  }

  ghost predicate BlocksFit(blocks: seq<Block>, schema: Schema) {
    forall i :: 0 <= i < |blocks| ==> RowsFit(blocks[i], schema)
  }

  /** Row block metadata i describes block i, and reading it back works. */
  ghost predicate RowsDescribe(file: TableFile, blocks: seq<Block>, schema: Schema, projected: set<nat>) {
    |file.rowMeta| == |blocks| && forall i :: 0 <= i < |blocks| ==>
      && file.rowMeta[i].minKey == MinKey(blocks[i]) && file.rowMeta[i].maxKey == MaxKey(blocks[i])
      && file.rowMeta[i].blockId == i
      && ReadRowBlock(file, file.rowMeta[i], schema, projected) == Ok(MaskRows(blocks[i], projected))
  }

  lemma {:induction false} EmittedByRowCursor(file: TableFile, blocks: seq<Block>, schema: Schema, request: Request,
                                              ids: seq<nat>)
    requires Ids(ids, blocks) && RowsDescribe(file, blocks, schema, request.projected)
    ensures EmitRowBlocks(file, RowMetasOf(file.rowMeta, ids), schema, request)
            == Ok(MaskRows(RowsOfBlocks(blocks, ids, request.range), request.projected))
  {
    if ids != [] {
      assert ids[0] in ids && forall i :: i in ids[1..] ==> i in ids;
      EmittedByRowCursor(file, blocks, schema, request, ids[1..]);
      FilterMasked(blocks[ids[0]], request.range, request.projected);
      MaskConcat(Filter(blocks[ids[0]], request.range.Has()), RowsOfBlocks(blocks, ids[1..], request.range),
                 request.projected);
      assert RowMetasOf(file.rowMeta, ids)[1..] == RowMetasOf(file.rowMeta, ids[1..]);
    }
  }

  lemma {:induction false} RowFileDescribes(schema: Schema, blocks: seq<Block>, step: nat, projected: set<nat>)
    requires step >= 1 && BlocksFit(blocks, schema)
    ensures RowsDescribe(RowFile(schema, blocks, step), blocks, schema, projected)
  {
    var file := RowFile(schema, blocks, step);
    forall i | 0 <= i < |blocks|
      ensures ReadRowBlock(file, file.rowMeta[i], schema, projected) == Ok(MaskRows(blocks[i], projected))
    {
      ReadRowBlockBack(schema, blocks, step, i, projected);
    }
  }

  /** `after` is `before` plus the projected ones of the columns [from, width). */
  ghost predicate LoadsColumns(before: Loaded, after: Loaded, block: Block, projected: set<nat>, from: nat, width: nat)
  {
    && after.keys == before.keys
    && (forall c :: c in after.columns <==> c in before.columns || (from <= c < width && c in projected))
    && (forall c :: c in after.columns ==>
          after.columns[c] == if from <= c < width && c in projected then CellsOf(block, c) else before.columns[c])
  }

  /** The blocks of the columns [from, ...) of one logical block, and what reading them gives. */
  ghost predicate GroupReads(file: TableFile, group: seq<ColumnBlockMeta>, from: nat, block: Block, schema: Schema) {
    && from + |group| == Width(schema)
    && forall k :: 0 <= k < |group| ==>
         && group[k].columnIdx == from + k
         && (from + k == 0 ==> ReadKeyBlock(file, group[k]) == Ok(KeysOf(block)))
         && (from + k > 0 ==> ReadCellBlock(file, group[k], schema[from + k - 1]) == Ok(CellsOf(block, from + k)))
  }

  lemma {:induction false} LoadGroupStep(file: TableFile, m: ColumnBlockMeta, rest: seq<ColumnBlockMeta>,
                                         schema: Schema, projected: set<nat>, l: Loaded, next: Loaded)
    requires LoadColumn(file, m, schema, projected, l) == Ok(next)
    ensures LoadGroup(file, [m] + rest, schema, projected, l) == LoadGroup(file, rest, schema, projected, next)
  {
    assert ([m] + rest)[1..] == rest;
  }

  lemma {:induction false} LoadsOneMore(l: Loaded, after: Loaded, block: Block, projected: set<nat>, from: nat,
                                        width: nat)
    requires from < width
    requires from in projected ==>
      LoadsColumns(l.(columns := l.columns[from := CellsOf(block, from)]), after, block, projected, from + 1, width)
    requires from !in projected ==> LoadsColumns(l, after, block, projected, from + 1, width)
    ensures LoadsColumns(l, after, block, projected, from, width)
  {
  }

  lemma {:induction false} LoadProjected(file: TableFile, group: seq<ColumnBlockMeta>, schema: Schema,
                                         projected: set<nat>, block: Block, from: nat, l: Loaded)
    requires 0 < from && GroupReads(file, group, from, block, schema)
    ensures var r := LoadGroup(file, Filter(group, InProjection(projected)), schema, projected, l);
            r.Ok? && LoadsColumns(l, r.value, block, projected, from, Width(schema))
    decreases group
  {
    if group != [] {
      var rest := Filter(group[1..], InProjection(projected));
      var next := if from in projected then l.(columns := l.columns[from := CellsOf(block, from)]) else l;
      assert GroupReads(file, group[1..], from + 1, block, schema);
      LoadProjected(file, group[1..], schema, projected, block, from + 1, next);
      if from in projected {
        LoadGroupStep(file, group[0], rest, schema, projected, l, next);
        assert Filter(group, InProjection(projected)) == [group[0]] + rest;
      } else {
        assert Filter(group, InProjection(projected)) == rest;
      }
      LoadsOneMore(l, LoadGroup(file, rest, schema, projected, next).value, block, projected, from, Width(schema));
    }
  }

  lemma {:induction false} LoadedRowsAreMasked(l: Loaded, block: Block, schema: Schema, projected: set<nat>)
    requires RowsFit(block, schema) && LoadsColumns(Loaded(KeysOf(block), map[]), l, block, projected, 1, Width(schema))
    ensures LoadedRows(l, Width(schema)) == MaskRows(block, projected)
  {
    forall i | 0 <= i < |block| ensures LoadedRow(l, Width(schema), i) == block[i].Mask(projected) {
      var row := block[i];
      assert row in block && RowFits(row, schema);
      forall c | 0 <= c < |schema| ensures LoadedRow(l, Width(schema), i).cells[c] == row.Mask(projected).cells[c] {
        if c + 1 in projected { assert l.columns[c + 1][i] == row.Lookup(c + 1); }
      }
    }
  }

  lemma {:induction false} LoadedGroup(file: TableFile, group: seq<ColumnBlockMeta>, schema: Schema,
                                       projected: set<nat>, block: Block)
    requires GroupReads(file, group, 0, block, schema) && RowsFit(block, schema)
    ensures var r := LoadGroup(file, Filter(group, InProjection(projected)), schema, projected, NOTHING_LOADED);
            r.Ok? && LoadedRows(r.value, Width(schema)) == MaskRows(block, projected)
  {
    var keysOnly := Loaded(KeysOf(block), map[]);
    assert GroupReads(file, group[1..], 1, block, schema);
    LoadProjected(file, group[1..], schema, projected, block, 1, keysOnly);
    var wanted := Filter(group, InProjection(projected));
    assert wanted[0] == group[0] && wanted[1..] == Filter(group[1..], InProjection(projected));
    assert LoadColumn(file, group[0], schema, projected, NOTHING_LOADED) == Ok(keysOnly);
    LoadedRowsAreMasked(LoadGroup(file, wanted[1..], schema, projected, keysOnly).value, block, schema, projected);
  }

  lemma {:induction false} RunOfGroup(group: seq<ColumnBlockMeta>, rest: seq<ColumnBlockMeta>, id: nat)
    requires forall m :: m in group ==> m.blockId == id
    requires rest != [] ==> rest[0].blockId != id
    ensures RunLength(group + rest, id) == |group|
  {
    if group == [] {
      assert group + rest == rest;
    } else {
      assert group[0] in group && forall m :: m in group[1..] ==> m in group;
      RunOfGroup(group[1..], rest, id);
      assert (group + rest)[1..] == group[1..] + rest;
    }
  }

  /** One step of the column cursor: a group whose successor belongs to another block. */
  lemma {:induction false} EmitGroup(file: TableFile, group: seq<ColumnBlockMeta>, rest: seq<ColumnBlockMeta>,
                                     schema: Schema, request: Request, id: nat)
    requires group != [] && forall m :: m in group ==> m.blockId == id
    requires rest != [] ==> rest[0].blockId != id
    requires LoadGroup(file, group, schema, request.projected, NOTHING_LOADED).Ok?
    requires EmitColumnBlocks(file, rest, schema, request).Ok?
    ensures EmitColumnBlocks(file, group + rest, schema, request)
            == Ok(Filter(LoadedRows(LoadGroup(file, group, schema, request.projected, NOTHING_LOADED).value,
                                    Width(schema)),
                         request.range.Has())
                  + EmitColumnBlocks(file, rest, schema, request).value)
  {
    FirstIn(group);
    RunOfGroup(group, rest, id);
    assert (group + rest)[..|group|] == group && (group + rest)[|group|..] == rest;
  }

  /** Group i describes block i. */
  ghost predicate GroupsDescribe(file: TableFile, groups: seq<seq<ColumnBlockMeta>>, blocks: seq<Block>, schema: Schema)
  {
    |groups| == |blocks| && forall i :: 0 <= i < |groups| ==>
      && GroupReads(file, groups[i], 0, blocks[i], schema)
      && forall m :: m in groups[i] ==> m.blockId == i && m.minKey == MinKey(blocks[i]) && m.maxKey == MaxKey(blocks[i])
  }

  lemma {:induction false} GroupStart(file: TableFile, group: seq<ColumnBlockMeta>, block: Block, schema: Schema,
                                      projected: set<nat>, id: nat)
    requires GroupReads(file, group, 0, block, schema) && forall m :: m in group ==> m.blockId == id
    ensures var wanted := Filter(group, InProjection(projected));
            wanted != [] && forall m :: m in wanted ==> m.blockId == id
  {
    FirstIn(group);
    InFilter(group, InProjection(projected));
    assert group[0] in Filter(group, InProjection(projected));
  }

  lemma {:induction false} EmittedByColumnCursor(file: TableFile, groups: seq<seq<ColumnBlockMeta>>, blocks: seq<Block>,
                                                 schema: Schema, request: Request, ids: seq<nat>)
    requires Ids(ids, blocks) && Increasing(ids) && BlocksFit(blocks, schema)
    requires GroupsDescribe(file, groups, blocks, schema)
    ensures EmitColumnBlocks(file, ColumnMetasOf(groups, request.projected, ids), schema, request)
            == Ok(MaskRows(RowsOfBlocks(blocks, ids, request.range), request.projected))
  {
    if ids != [] {
      var id, tail := ids[0], ids[1..];
      assert id in ids && forall i :: i in tail ==> i in ids;
      EmittedByColumnCursor(file, groups, blocks, schema, request, tail);
      var group, rest := Filter(groups[id], InProjection(request.projected)),
                         ColumnMetasOf(groups, request.projected, tail);
      GroupStart(file, groups[id], blocks[id], schema, request.projected, id);
      if tail != [] {
        assert tail[0] in tail && id < tail[0];
        GroupStart(file, groups[tail[0]], blocks[tail[0]], schema, request.projected, tail[0]);
      }
      LoadedGroup(file, groups[id], schema, request.projected, blocks[id]);
      EmitGroup(file, group, rest, schema, request, id);
      FilterMasked(blocks[id], request.range, request.projected);
      MaskConcat(Filter(blocks[id], request.range.Has()), RowsOfBlocks(blocks, tail, request.range), request.projected);
    }
  }

  lemma {:induction false} ColumnFileDescribes(schema: Schema, blocks: seq<Block>, step: nat)
    requires step >= 1 && BlocksFit(blocks, schema)
    ensures GroupsDescribe(ColumnFile(schema, blocks, step), ColumnGroups(Width(schema), blocks), blocks, schema)
  {
    var file, w := ColumnFile(schema, blocks, step), Width(schema);
    forall i | 0 <= i < |blocks|
      ensures GroupReads(file, ColumnGroups(w, blocks)[i], 0, blocks[i], schema)
    {
      var group := ColumnGroups(w, blocks)[i];
      forall k | 0 <= k < |group|
        ensures group[k].columnIdx == k
        ensures k == 0 ==> ReadKeyBlock(file, group[k]) == Ok(KeysOf(blocks[i]))
        ensures k > 0 ==> ReadCellBlock(file, group[k], schema[k - 1]) == Ok(CellsOf(blocks[i], k))
      {
        ReadColumnBlocksBack(schema, blocks, step, i, k);
      }
    }
  }

  // ---------- What reading a table promises ----------

  /** Either layout's metadata describes the blocks, and the index covers them. */
  ghost predicate Describes(file: TableFile, blocks: seq<Block>, schema: Schema, projected: set<nat>, step: nat) {
    && step >= 1 && file.numBlocks == |blocks| && file.index == Entries(Mins(blocks), step, |blocks|)
    && (file.layout.ROW? ==> RowsDescribe(file, blocks, schema, projected))
    && (file.layout.COLUMN? ==> exists groups ::
          file.columnMeta == Flatten(groups) && GroupsDescribe(file, groups, blocks, schema))
  }

  lemma {:induction false} FileDescribes(layout: Layout, schema: Schema, blocks: seq<Block>, step: nat,
                                         projected: set<nat>)
    requires step >= 1 && BlocksFit(blocks, schema)
    ensures Describes(FileOf(layout, schema, blocks, step), blocks, schema, projected, step)
  {
    if layout.ROW? {
      RowFileDescribes(schema, blocks, step, projected);
    } else {
      ColumnFileDescribes(schema, blocks, step);
    }
  }

  lemma {:induction false} FilteredGroup(file: TableFile, group: seq<ColumnBlockMeta>, blocks: seq<Block>,
                                         request: Request, span: BlockSpan, i: nat)
    requires i < |blocks|
    requires forall m :: m in group ==> m.blockId == i && m.minKey == MinKey(blocks[i]) && m.maxKey == MaxKey(blocks[i])
    ensures Filter(group, KeepsColumnBlock(file, request, span))
            == if Keeper(blocks, file, request, span)(i) then Filter(group, InProjection(request.projected)) else []
  {
    var keeps := KeepsColumnBlock(file, request, span);
    if Keeper(blocks, file, request, span)(i) {
      FilterSame(group, keeps, InProjection(request.projected));
    } else {
      FilterNone(group, keeps);
    }
  }

  /** The row cursor over the metadata that passes `test`, when `test` is `keep` of the block id. */
  lemma {:induction false} RowsThrough(file: TableFile, blocks: seq<Block>, schema: Schema, request: Request,
                                       test: RowBlockMeta -> bool, keep: nat -> bool, from: nat, end: nat)
    requires RowsDescribe(file, blocks, schema, request.projected) && from <= end <= |blocks|
    requires forall i :: 0 <= i < |blocks| ==> test(file.rowMeta[i]) == keep(i)
    ensures EmitRowBlocks(file, Filter(file.rowMeta[from..end], test), schema, request)
            == Ok(MaskRows(RowsOfBlocks(blocks, KeptIds(keep, from, end), request.range), request.projected))
  {
    KeptRowMetas(file.rowMeta, test, keep, from, end);
    EmittedByRowCursor(file, blocks, schema, request, KeptIds(keep, from, end));
  }

  lemma {:induction false} SameRowTest(file: TableFile, blocks: seq<Block>, schema: Schema, request: Request,
                                       span: BlockSpan)
    requires RowsDescribe(file, blocks, schema, request.projected) && span.first + span.count <= |blocks|
    ensures forall i :: 0 <= i < |blocks| ==>
      KeepsRowBlock(file, request, span)(file.rowMeta[i]) == Keeper(blocks, file, request, span)(i)
  {
    forall i | 0 <= i < |blocks|
      ensures KeepsRowBlock(file, request, span)(file.rowMeta[i]) == Keeper(blocks, file, request, span)(i)
    {
      assert file.rowMeta[i].blockId == i;
    }
  }

  lemma {:induction false} RowScanIsKeptBlocks(file: TableFile, blocks: seq<Block>, schema: Schema, request: Request,
                                               span: BlockSpan)
    requires RowsDescribe(file, blocks, schema, request.projected) && span.first + span.count <= |blocks|
    ensures var ids := KeptIds(Keeper(blocks, file, request, span), span.first, span.first + span.count);
            ScanRowTable(file, schema, request, span)
            == Ok(MaskRows(RowsOfBlocks(blocks, ids, request.range), request.projected))
  {
    var test, keep := KeepsRowBlock(file, request, span), Keeper(blocks, file, request, span);
    hide EmitRowBlocks, RowsOfBlocks, Filter, KeptIds, MaskRows, Keeper, KeepsRowBlock, ReadRowBlock;
    SameRowTest(file, blocks, schema, request, span);
    RowsThrough(file, blocks, schema, request, test, keep, span.first, span.first + span.count);
  }

  /** The column cursor over the metadata that passes `test`, when `test` keeps or drops whole groups. */
  lemma {:induction false} ColumnsThrough(file: TableFile, groups: seq<seq<ColumnBlockMeta>>, blocks: seq<Block>,
                                          schema: Schema, request: Request, test: ColumnBlockMeta -> bool,
                                          keep: nat -> bool, from: nat, end: nat)
    requires GroupsDescribe(file, groups, blocks, schema) && BlocksFit(blocks, schema) && from <= end <= |blocks|
    requires forall i :: 0 <= i < |blocks| ==>
      Filter(groups[i], test) == if keep(i) then Filter(groups[i], InProjection(request.projected)) else []
    ensures EmitColumnBlocks(file, Filter(Flatten(groups[from..end]), test), schema, request)
            == Ok(MaskRows(RowsOfBlocks(blocks, KeptIds(keep, from, end), request.range), request.projected))
  {
    hide EmitColumnBlocks, RowsOfBlocks, Filter, KeptIds, MaskRows, Flatten, ColumnMetasOf, GroupReads;
    var parts := seq(|groups|, i requires 0 <= i < |groups| => Filter(groups[i], test));
    FilterFlatten(groups[from..end], test, parts[from..end]);
    KeptGroups(groups, request.projected, keep, from, end, parts);
    KeptIdsIncreasing(keep, from, end);
    EmittedByColumnCursor(file, groups, blocks, schema, request, KeptIds(keep, from, end));
  }

  lemma {:induction false} ColumnScanIsKeptBlocks(file: TableFile, groups: seq<seq<ColumnBlockMeta>>,
                                                  blocks: seq<Block>, schema: Schema, request: Request, span: BlockSpan)
    requires file.columnMeta == Flatten(groups) && GroupsDescribe(file, groups, blocks, schema)
             && BlocksFit(blocks, schema)
    requires span.first + span.count <= |blocks|
    ensures var ids := KeptIds(Keeper(blocks, file, request, span), span.first, span.first + span.count);
            ScanColumnTable(file, schema, request, span)
            == Ok(MaskRows(RowsOfBlocks(blocks, ids, request.range), request.projected))
  {
    hide EmitColumnBlocks, RowsOfBlocks, Filter, KeptIds, MaskRows, Flatten, Keeper, KeepsColumnBlock;
    var test, keep, end := KeepsColumnBlock(file, request, span), Keeper(blocks, file, request, span),
                           span.first + span.count;
    forall i | 0 <= i < |blocks|
      ensures Filter(groups[i], test) == if keep(i) then Filter(groups[i], InProjection(request.projected)) else []
    {
      FilteredGroup(file, groups[i], blocks, request, span, i);
    }
    FlattenUniformSlice(groups, Width(schema), span.first, end);
    ColumnsThrough(file, groups, blocks, schema, request, test, keep, span.first, end);
  }

  /** The read is the in-range rows of the kept blocks, under either layout. */
  lemma {:induction false} ScanIsKeptBlocks(file: TableFile, blocks: seq<Block>, schema: Schema, step: nat,
                                            request: Request, span: BlockSpan)
    requires Describes(file, blocks, schema, request.projected, step) && BlocksFit(blocks, schema)
    requires SelectSpan(file.index, request.range, |blocks|) == Ok(span) && span.first + span.count <= |blocks|
    ensures var ids := KeptIds(Keeper(blocks, file, request, span), span.first, span.first + span.count);
            ScanTable(file, schema, request)
                == Ok(MaskRows(RowsOfBlocks(blocks, ids, request.range), request.projected))
  {
    if span.count == 0 {
      assert MaskRows([], request.projected) == [];
    } else if file.layout.ROW? {
      RowScanIsKeptBlocks(file, blocks, schema, request, span);
    } else {
      var groups :| file.columnMeta == Flatten(groups) && GroupsDescribe(file, groups, blocks, schema);
      ColumnScanIsKeptBlocks(file, groups, blocks, schema, request, span);
    }
  }

  lemma {:induction false} PositionInAll(blocks: seq<Block>, i: nat, k: nat)
    requires i < |blocks| && k < |blocks[i]|
    ensures |AllRows(blocks[..i])| + k < |AllRows(blocks[..i + 1])| <= |AllRows(blocks)|
    ensures AllRows(blocks)[|AllRows(blocks[..i])| + k] == blocks[i][k]
  {
    FlattenPart<Row>(blocks, i);
    assert blocks[..i + 1] == blocks[..i] + [blocks[i]];
    FlattenSnoc<Row>(blocks[..i], blocks[i]);
    assert blocks == blocks[..i + 1] + blocks[i + 1..];
    FlattenConcat<Row>(blocks[..i + 1], blocks[i + 1..]);
    assert AllRows(blocks)[|AllRows(blocks[..i])|..|AllRows(blocks[..i])| + |blocks[i]|][k] == blocks[i][k];
  }

  lemma {:induction false} PrefixLength(blocks: seq<Block>, i: nat, j: nat)
    requires i <= j <= |blocks|
    ensures |AllRows(blocks[..i])| <= |AllRows(blocks[..j])|
  {
    assert blocks[..j] == blocks[..i] + blocks[i..j];
    FlattenConcat<Row>(blocks[..i], blocks[i..j]);
  }

  /** Ascending rows stay ascending inside the blocks, and the blocks are in order. */
  lemma {:induction false} OrderedBlocks(blocks: seq<Block>)
    requires WeaklyAscending(AllRows(blocks))
    ensures BlocksInOrder(Mins(blocks), Maxs(blocks))
    ensures forall i :: 0 <= i < |blocks| ==> WeaklyAscending(blocks[i])
  {
    hide Flatten;
    forall i | 0 <= i < |blocks| ensures WeaklyAscending(blocks[i]) {
      forall k, l | 0 <= k <= l < |blocks[i]| ensures blocks[i][k].key <= blocks[i][l].key {
        PositionInAll(blocks, i, k);
        PositionInAll(blocks, i, l);
      }
    }
    forall i, j | 0 <= i < j < |blocks| ensures MaxKey(blocks[i]) <= MinKey(blocks[j]) {
      PositionInAll(blocks, i, |blocks[i]| - 1);
      PositionInAll(blocks, j, 0);
      PrefixLength(blocks, i + 1, j);
    }
  }

  lemma {:induction false} KeyBounds(b: Block, r: Row)
    requires WeaklyAscending(b) && r in b
    ensures MinKey(b) <= r.key <= MaxKey(b)
  {
  }

  lemma {:induction false} AscendingConcat(a: seq<Row>, b: seq<Row>)
    requires WeaklyAscending(a) && WeaklyAscending(b)
    requires forall x, y :: x in a && y in b ==> x.key <= y.key
    ensures WeaklyAscending(a + b)
  {
    forall i, j | 0 <= i <= j < |a + b| ensures (a + b)[i].key <= (a + b)[j].key {
      if i < |a| <= j { assert a[i] in a && b[j - |a|] in b; }
    }
  }

  lemma {:induction false} FilterWeaklyAscending(rows: seq<Row>, p: Row -> bool)
    requires WeaklyAscending(rows)
    ensures WeaklyAscending(Filter(rows, p))
  {
    if rows != [] {
      assert WeaklyAscending(rows[1..]);
      FilterWeaklyAscending(rows[1..], p);
      InFilter(rows[1..], p);
      if p(rows[0]) {
        forall x, y | x in [rows[0]] && y in Filter(rows[1..], p) ensures x.key <= y.key {
          var i :| 0 <= i < |rows[1..]| && rows[1..][i] == y;
          assert rows[1..][i] == rows[i + 1];
        }
        AscendingConcat([rows[0]], Filter(rows[1..], p));
      }
    }
  }

  /** The in-range rows of some blocks in order are ascending, and come from these blocks. */
  lemma {:induction false} RowsOfBlocksAscend(blocks: seq<Block>, ids: seq<nat>, range: KeyRange)
    requires Ids(ids, blocks) && Increasing(ids) && BlocksInOrder(Mins(blocks), Maxs(blocks))
    requires forall i :: 0 <= i < |blocks| ==> WeaklyAscending(blocks[i])
    ensures var rows := RowsOfBlocks(blocks, ids, range);
            && WeaklyAscending(rows)
            && forall r :: r in rows ==> range.Contains(r.key) && exists i :: i in ids && r in blocks[i]
  {
    hide Filter, WeaklyAscending, BlocksInOrder;
    if ids == [] {
      assert WeaklyAscending([]) by { NothingAscends(); }
    } else {
      var id, tail := ids[0], ids[1..];
      assert id in ids && forall i :: i in ids <==> i == id || i in tail;
      RowsOfBlocksAscend(blocks, tail, range);
      var head, rest := Filter(blocks[id], range.Has()), RowsOfBlocks(blocks, tail, range);
      FilterWeaklyAscending(blocks[id], range.Has());
      InFilter(blocks[id], range.Has());
      forall x, y | x in head && y in rest ensures x.key <= y.key {
        var i :| i in tail && y in blocks[i];
        assert id < i;
        BlocksApart(blocks, id, i, x, y);
      }
      AscendingConcat(head, rest);
    }
  }

  lemma {:induction false} NothingAscends()
    ensures WeaklyAscending([])
  {
  }

  lemma {:induction false} BlocksApart(blocks: seq<Block>, i: nat, j: nat, x: Row, y: Row)
    requires BlocksInOrder(Mins(blocks), Maxs(blocks)) && i < j < |blocks|
    requires WeaklyAscending(blocks[i]) && WeaklyAscending(blocks[j]) && x in blocks[i] && y in blocks[j]
    ensures x.key <= MaxKey(blocks[i]) <= MinKey(blocks[j]) <= y.key
  {
    KeyBounds(blocks[i], x);
    KeyBounds(blocks[j], y);
    assert Maxs(blocks)[i] <= Mins(blocks)[j];
  }

  lemma {:induction false} CountOfConcat(a: seq<Row>, b: seq<Row>, r: Row)
    ensures multiset(a + b)[r] == multiset(a)[r] + multiset(b)[r]
  {
  }

  /** The kept blocks show a row at most as often as it is there, and exactly as often when its blocks are kept. */
  lemma {:induction false} KeptCounts(blocks: seq<Block>, keep: nat -> bool, from: nat, end: nat, range: KeyRange,
                                      r: Row)
    requires from <= end <= |blocks|
    ensures var shown, held := RowsOfBlocks(blocks, KeptIds(keep, from, end), range), AllRows(blocks[from..end]);
            && multiset(shown)[r] <= multiset(held)[r]
            && (range.Contains(r.key) && (forall i :: from <= i < end && r in blocks[i] ==> keep(i))
                ==> multiset(shown)[r] == multiset(held)[r])
    decreases end - from
  {
    hide Filter;
    if from < end {
      KeptCounts(blocks, keep, from + 1, end, range, r);
      var ids := KeptIds(keep, from + 1, end);
      assert blocks[from..end][1..] == blocks[from + 1..end];
      CountOfConcat(blocks[from], AllRows(blocks[from + 1..end]), r);
      FilterMultiset(blocks[from], range.Has(), r);
      if keep(from) {
        assert ([from] + ids)[1..] == ids;
        CountOfConcat(Filter(blocks[from], range.Has()), RowsOfBlocks(blocks, ids, range), r);
      }
    }
  }

  /** The rows before, inside and behind a span of blocks. */
  lemma {:induction false} CountsInSpan(blocks: seq<Block>, from: nat, end: nat, r: Row)
    requires from <= end <= |blocks|
    ensures multiset(AllRows(blocks[from..end]))[r] <= multiset(AllRows(blocks))[r]
    ensures (forall i :: 0 <= i < |blocks| && r in blocks[i] ==> from <= i < end)
            ==> multiset(AllRows(blocks[from..end]))[r] == multiset(AllRows(blocks))[r]
  {
    hide Flatten;
    var a, b, d := blocks[..from], blocks[from..end], blocks[end..];
    assert blocks == a + (b + d);
    FlattenConcat<Row>(a, b + d);
    FlattenConcat<Row>(b, d);
    CountOfConcat(AllRows(a), AllRows(b + d), r);
    CountOfConcat(AllRows(b), AllRows(d), r);
    if forall i :: 0 <= i < |blocks| && r in blocks[i] ==> from <= i < end {
      NotInBlocks(a, r);
      NotInBlocks(d, r);
    }
  }

  lemma {:induction false} NotInBlocks(blocks: seq<Block>, r: Row)
    requires forall i :: 0 <= i < |blocks| ==> r !in blocks[i]
    ensures multiset(AllRows(blocks))[r] == 0
  {
    InFlatten<Row>(blocks, r);
  }

  /** The row satisfies every predicate, and none because a NaN compares as equal. */
  ghost predicate Passes(filter: seq<NumericPredicate>, row: Row) {
    forall p :: p in filter ==> PredicateHolds(p, row) && !MeetsNaN(p, row)
  }

  ghost predicate FilterFits(filter: seq<NumericPredicate>, schema: Schema) {
    forall p :: p in filter ==> PredicateFits(p, schema)
  }

  /** The recorded statistics are those of the blocks. */
  ghost predicate StatsDescribe(file: TableFile, blocks: seq<Block>, schema: Schema) {
    forall c :: c in file.stats ==>
      && IsNumericColumn(schema, c) && |file.stats[c]| == |blocks|
      && forall i :: 0 <= i < |blocks| ==> file.stats[c][i] == StatsOf(blocks[i], c, schema[c - 1])
  }

  lemma {:induction false} FileStatsDescribe(layout: Layout, schema: Schema, blocks: seq<Block>, step: nat)
    requires step >= 1
    ensures StatsDescribe(FileOf(layout, schema, blocks, step), blocks, schema)
  {
    assert FileOf(layout, schema, blocks, step).stats == StatsOfBlocks(schema, blocks);
  }

  lemma {:induction false} KeepsPassingStats(block: Block, schema: Schema, p: NumericPredicate, r: Row)
    requires RowsFit(block, schema) && PredicateFits(p, schema) && r in block && PredicateHolds(p, r) && !MeetsNaN(p, r)
    ensures BlockMaySatisfy(StatsOf(block, p.column, schema[p.column - 1]), p)
  {
    assert forall x :: x in block ==> RowFits(x, schema);
    if !BlockMaySatisfy(StatsOf(block, p.column, schema[p.column - 1]), p) {
      PruneExact(block, p, schema[p.column - 1]);
    }
  }

  /** A block with a row that passes the filter survives the statistics. */
  lemma {:induction false} KeepsPassingBlock(file: TableFile, blocks: seq<Block>, schema: Schema,
                                             filter: seq<NumericPredicate>, span: BlockSpan, i: nat, r: Row)
    requires StatsDescribe(file, blocks, schema) && span.first + span.count <= |blocks| && i < |blocks|
    requires RowsFit(blocks[i], schema) && FilterFits(filter, schema) && r in blocks[i] && Passes(filter, r)
    ensures KeepBlock(i, StatsIn(file, span, filter), filter)
  {
    var stats := StatsIn(file, span, filter);
    if span.first <= i < span.first + span.count {
      forall p | p in filter ensures PredicateMaySatisfy(i, stats, p) {
        KeepsPassingStats(blocks[i], schema, p, r);
        if p.column in stats.byColumn {
          assert stats.byColumn[p.column][i - span.first] == file.stats[p.column][i];
        }
      }
    }
  }

  /** The key is there twice. */
  ghost predicate HeldTwice(rows: multiset<Row>, key: Key) {
    exists a: Row, b: Row :: a in rows && b in rows && a.key == key && b.key == key && (a == b ==> rows[a] >= 2)
  }

  /** The range starts on a key that is there twice: the index may lead past all but the last block that has it. */
  ghost predicate MayHide(rows: multiset<Row>, range: KeyRange, key: Key) {
    range.from == Some(key) && HeldTwice(rows, key)
  }

  /** In-range rows in key order, none more often than it is there, and those that pass the filter as often. */
  ghost predicate Selects(selected: seq<Row>, rows: multiset<Row>, request: Request) {
    && WeaklyAscending(selected) && multiset(selected) <= rows
    && (forall r :: r in selected ==> request.range.Contains(r.key))
    && (forall r: Row ::
          request.range.Contains(r.key) && Passes(request.filter, r) && !MayHide(rows, request.range, r.key)
          ==> multiset(selected)[r] == rows[r])
  }

  /** What a cursor over a table emits: such rows of the table, on the projected columns. */
  ghost predicate Answers(emitted: seq<Row>, rows: seq<Row>, request: Request) {
    exists selected :: emitted == MaskRows(selected, request.projected) && Selects(selected, multiset(rows), request)
  }

  /**
   No stage of the pipeline loses an answer or leaves the range, under either layout, even when keys repeat:
   but for a key that the range starts on and that is there twice, and for rows that a NaN lets through.
   */
  lemma {:induction false} ScanTableCorrect(file: TableFile, schema: Schema, rows: seq<Row>, request: Request)
    requires IsTable(file, schema, rows) && WeaklyAscending(rows) && RowsFit(rows, schema)
    requires FilterFits(request.filter, schema)
    ensures ScanTable(file, schema, request).Ok? && Answers(ScanTable(file, schema, request).value, rows, request)
  {
    var blocks: seq<Block>, step: nat :|
      step >= 1 && AllRows(blocks) == rows && file == FileOf(file.layout, schema, blocks, step);
    BlocksOf(blocks, schema);
    FileDescribes(file.layout, schema, blocks, step, request.projected);
    FileStatsDescribe(file.layout, schema, blocks, step);
    ScanBlocksCorrect(file, blocks, schema, step, request);
  }

  lemma {:induction false} BlocksOf(blocks: seq<Block>, schema: Schema)
    requires RowsFit(AllRows(blocks), schema)
    ensures BlocksFit(blocks, schema)
    ensures forall r :: r in AllRows(blocks) <==> exists i :: 0 <= i < |blocks| && r in blocks[i]
  {
    forall r ensures r in AllRows(blocks) <==> exists i :: 0 <= i < |blocks| && r in blocks[i] {
      InFlatten<Row>(blocks, r);
    }
  }

  /** Rows of two blocks with one key: the key is there twice. */
  lemma {:induction false} InTwoBlocks(blocks: seq<Block>, i: nat, j: nat, x: Row, y: Row)
    requires i < j < |blocks| && x in blocks[i] && y in blocks[j] && x.key == y.key
    ensures HeldTwice(multiset(AllRows(blocks)), x.key)
  {
    hide Flatten;
    var a, b := blocks[..j], blocks[j..];
    assert blocks == a + b;
    FlattenConcat<Row>(a, b);
    InFlatten<Row>(a, x);
    InFlatten<Row>(b, y);
    assert a[i] == blocks[i] && b[0] == blocks[j];
    assert multiset(AllRows(blocks)) == multiset(AllRows(a)) + multiset(AllRows(b));
    assert x in multiset(AllRows(a)) && y in multiset(AllRows(b));
  }

  /** A block is only lost when the range starts on a key that is there twice. */
  lemma {:induction false} LostIsHidden(blocks: seq<Block>, step: nat, range: KeyRange, i: nat, r: Row)
    requires step >= 1 && i < |blocks| && SharesFrom(Mins(blocks), Maxs(blocks), step, range, i)
    requires WeaklyAscending(blocks[i]) && r in blocks[i] && range.Contains(r.key)
    ensures MayHide(multiset(AllRows(blocks)), range, r.key)
  {
    KeyBounds(blocks[i], r);
    var j :| i < j < |blocks| && j % step == 0 && Mins(blocks)[j] == range.from.value;
    assert Maxs(blocks)[i] == MaxKey(blocks[i]);
    InTwoBlocks(blocks, i, j, r, blocks[j][0]);
  }

  lemma {:induction false} KeepsAnswer(file: TableFile, blocks: seq<Block>, schema: Schema, step: nat, request: Request,
                                       span: BlockSpan, i: nat, r: Row)
    requires Describes(file, blocks, schema, request.projected, step) && StatsDescribe(file, blocks, schema)
    requires BlocksInOrder(Mins(blocks), Maxs(blocks)) && i < |blocks|
    requires WeaklyAscending(blocks[i]) && RowsFit(blocks[i], schema) && FilterFits(request.filter, schema)
    requires SelectSpan(file.index, request.range, |blocks|) == Ok(span)
    requires r in blocks[i] && request.range.Contains(r.key) && Passes(request.filter, r)
    requires !MayHide(multiset(AllRows(blocks)), request.range, r.key)
    ensures span.Includes(i) && Keeper(blocks, file, request, span)(i)
  {
    hide MayHide, AllRows, WeaklyAscending, RowFits, PredicateHolds;
    SelectionExact(Mins(blocks), Maxs(blocks), step, request.range);
    KeyBounds(blocks[i], r);
    assert Intersects(Mins(blocks)[i], Maxs(blocks)[i], request.range);
    if SharesFrom(Mins(blocks), Maxs(blocks), step, request.range, i) {
      LostIsHidden(blocks, step, request.range, i, r);
    }
    KeepsPassingBlock(file, blocks, schema, request.filter, span, i, r);
  }

  /** How often the kept blocks show a row. */
  lemma {:induction false} AnswerCounts(file: TableFile, blocks: seq<Block>, schema: Schema, step: nat,
                                        request: Request, span: BlockSpan, r: Row)
    requires Describes(file, blocks, schema, request.projected, step) && StatsDescribe(file, blocks, schema)
    requires BlocksInOrder(Mins(blocks), Maxs(blocks)) && BlocksFit(blocks, schema)
    requires FilterFits(request.filter, schema)
    requires forall i :: 0 <= i < |blocks| ==> WeaklyAscending(blocks[i])
    requires SelectSpan(file.index, request.range, |blocks|) == Ok(span) && span.first + span.count <= |blocks|
    ensures var ids := KeptIds(Keeper(blocks, file, request, span), span.first, span.first + span.count);
            var selected, held := RowsOfBlocks(blocks, ids, request.range), multiset(AllRows(blocks));
            && multiset(selected)[r] <= held[r]
            && (request.range.Contains(r.key) && Passes(request.filter, r) && !MayHide(held, request.range, r.key)
                ==> multiset(selected)[r] == held[r])
  {
    hide Describes, SelectSpan, Mins, Maxs, KeptIds, Keeper, RowsOfBlocks, StatsDescribe, MayHide, Passes, AllRows,
         WeaklyAscending, RowFits, BlocksInOrder;
    var keep, end := Keeper(blocks, file, request, span), span.first + span.count;
    KeptCounts(blocks, keep, span.first, end, request.range, r);
    CountsInSpan(blocks, span.first, end, r);
    if request.range.Contains(r.key) && Passes(request.filter, r)
       && !MayHide(multiset(AllRows(blocks)), request.range, r.key) {
      forall i | 0 <= i < |blocks| && r in blocks[i] ensures span.Includes(i) && keep(i) {
        KeepsAnswer(file, blocks, schema, step, request, span, i, r);
      }
    }
  }

  lemma {:induction false} ScanBlocksCorrect(file: TableFile, blocks: seq<Block>, schema: Schema, step: nat,
                                             request: Request)
    requires Describes(file, blocks, schema, request.projected, step) && StatsDescribe(file, blocks, schema)
    requires WeaklyAscending(AllRows(blocks)) && RowsFit(AllRows(blocks), schema) && FilterFits(request.filter, schema)
    ensures ScanTable(file, schema, request).Ok?
            && Answers(ScanTable(file, schema, request).value, AllRows(blocks), request)
  {
    hide ScanTable, SelectSpan, Entries, Mins, Maxs, KeptIds, Keeper, RowsOfBlocks, StatsDescribe, MayHide, Passes,
         RowsDescribe, GroupsDescribe, AllRows, WeaklyAscending, RowFits, BlocksInOrder;
    BlocksOf(blocks, schema);
    OrderedBlocks(blocks);
    SelectionExact(Mins(blocks), Maxs(blocks), step, request.range);
    var span := SelectSpan(file.index, request.range, |blocks|).value;
    ScanIsKeptBlocks(file, blocks, schema, step, request, span);
    var keep, end := Keeper(blocks, file, request, span), span.first + span.count;
    var selected := RowsOfBlocks(blocks, KeptIds(keep, span.first, end), request.range);
    KeptIdsIncreasing(keep, span.first, end);
    RowsOfBlocksAscend(blocks, KeptIds(keep, span.first, end), request.range);
    var held := multiset(AllRows(blocks));
    forall r: Row
      ensures multiset(selected)[r] <= held[r]
      ensures request.range.Contains(r.key) && Passes(request.filter, r) && !MayHide(held, request.range, r.key)
              ==> multiset(selected)[r] == held[r]
    {
      AnswerCounts(file, blocks, schema, step, request, span, r);
    }
    assert Selects(selected, held, request);
  }

  // ---------- Reading a whole table ----------

  lemma {:induction false} AllIds(blocks: seq<Block>, ids: seq<nat>, from: nat)
    requires from <= |blocks| && |ids| == |blocks| - from
    requires forall k :: 0 <= k < |ids| ==> ids[k] == from + k
    ensures RowsOfBlocks(blocks, ids, FULL_RANGE) == AllRows(blocks[from..])
  {
    if ids != [] {
      assert ids[0] in ids;
      AllIds(blocks, ids[1..], from + 1);
      FilterAll(blocks[from], FULL_RANGE.Has());
      assert blocks[from..] == [blocks[from]] + blocks[from + 1..];
    }
  }

  lemma {:induction false} KeptAll(keep: nat -> bool, from: nat, end: nat)
    requires from <= end && forall i :: from <= i < end ==> keep(i)
    ensures var ids := KeptIds(keep, from, end);
            |ids| == end - from && forall k :: 0 <= k < |ids| ==> ids[k] == from + k
    decreases end - from
  {
    if from < end { KeptAll(keep, from + 1, end); }
  }

  /** Without bounds and filter every row is read, even when keys repeat. */
  lemma {:induction false} FullScan(file: TableFile, schema: Schema, rows: seq<Row>, projected: set<nat>)
    requires IsTable(file, schema, rows) && RowsFit(rows, schema)
    ensures ScanTable(file, schema, Request(FULL_RANGE, projected, [])) == Ok(MaskRows(rows, projected))
  {
    var blocks: seq<Block>, step: nat :|
      step >= 1 && AllRows(blocks) == rows && file == FileOf(file.layout, schema, blocks, step);
    BlocksOf(blocks, schema);
    FileDescribes(file.layout, schema, blocks, step, projected);
    FullScanOfBlocks(file, blocks, schema, step, projected);
  }

  /** Without bounds the index selects every block. */
  lemma {:induction false} FullSpan(mins: seq<Key>, step: nat)
    requires step >= 1
    ensures SelectSpan(Entries(mins, step, |mins|), FULL_RANGE, |mins|) == Ok(BlockSpan(0, |mins|))
  {
    hide Entries;
  }

  lemma {:induction false} FullScanOfBlocks(file: TableFile, blocks: seq<Block>, schema: Schema, step: nat,
                                            projected: set<nat>)
    requires Describes(file, blocks, schema, projected, step) && BlocksFit(blocks, schema)
    ensures ScanTable(file, schema, Request(FULL_RANGE, projected, [])) == Ok(MaskRows(AllRows(blocks), projected))
  {
    hide ScanTable, SelectSpan, Entries, Mins, RowsOfBlocks, RowsDescribe, GroupsDescribe, AllRows, KeptIds, MaskRows;
    var request, span := Request(FULL_RANGE, projected, []), BlockSpan(0, |blocks|);
    FullSpan(Mins(blocks), step);
    ScanIsKeptBlocks(file, blocks, schema, step, request, span);
    var keep := Keeper(blocks, file, request, span);
    KeptAll(keep, 0, |blocks|);
    AllIds(blocks, KeptIds(keep, 0, |blocks|), 0);
    assert blocks[0..] == blocks;
  }
}
