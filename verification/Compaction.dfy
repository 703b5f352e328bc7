/** One compaction job: cursors over the source tables, merged row by row into a builder. */
module Compaction {
  import opened Seqs
  import opened Storage
  import opened Planner
  import opened SparseIndex
  import opened Codec
  import opened Tables
  import opened TableScan
  import opened MetadataCache
  import opened BlockCache
  import opened Decoders
  import opened TableCursors
  import opened TableBuilders
  import opened Merging
  import opened Cursors
  import opened Registry
  import opened Engine

  const BLOCK_CACHE_BYTES := 64 * 1024 * 1024
  const METADATA_CACHE_BYTES := 4 * 1024 * 1024
  const PAGE_BLOCKS: U32 := 256

  datatype BuildOptions = BuildOptions(index: IndexOptions, rowTarget: nat, columnRows: nat, columnTarget: nat)

  predicate GoodBuild(o: BuildOptions) {
    1 <= o.index.minStep <= o.index.maxStep && o.rowTarget > 0 && o.columnRows > 0 && o.columnTarget > 0
  }

  // ---------- What the block cache is told ----------

  function Bounded(file: TableFile, offset: nat, size: nat): Bytes {
    if offset + size <= |file.data| then file.data[offset..offset + size] else []
  }

  ghost function RowBytes(file: TableFile, block: nat): Bytes {
    if m :| m in file.rowMeta && m.blockId == block then Bounded(file, m.offset, m.size) else []
  }

  ghost function ColumnBytes(file: TableFile, block: nat, column: nat): Bytes {
    if m :| m in file.columnMeta && m.blockId == block && m.columnIdx == column
    then Bounded(file, m.offset, m.size)
    else []
  }

  ghost function SourceOf(disk: map<U64, TableFile>): CacheKey -> Bytes {
    (k: CacheKey) =>
      if k.table !in disk then []
      else if k.kind.RowBlock? then RowBytes(disk[k.table], k.block)
      else ColumnBytes(disk[k.table], k.block, k.column)
  }

  /** Block and column numbers identify a physical block. */
  ghost predicate Identified(file: TableFile) {
    && (forall m, n :: m in file.rowMeta && n in file.rowMeta && m.blockId == n.blockId ==> m == n)
    && (forall m, n ::
          m in file.columnMeta && n in file.columnMeta && m.blockId == n.blockId && m.columnIdx == n.columnIdx ==>
            m == n)
  }

  lemma {:induction false} FilesAreIdentified(file: TableFile, schema: Schema, rows: seq<Row>)
    requires IsTable(file, schema, rows)
    ensures Identified(file)
  {
    hide Flatten, Offset, EncodeRows, ColumnPiece, Entries, StatsOfBlocks;
    var blocks: seq<Block>, step: nat :|
      step >= 1 && AllRows(blocks) == rows && file == FileOf(file.layout, schema, blocks, step);
    forall m, n |
      m in file.columnMeta && n in file.columnMeta && m.blockId == n.blockId && m.columnIdx == n.columnIdx
      ensures m == n
    {
      MetaPosition(Width(schema), blocks, m);
      MetaPosition(Width(schema), blocks, n);
    }
  }

  lemma {:induction false} MetaPosition(width: nat, blocks: seq<Block>, m: ColumnBlockMeta)
    requires m in Flatten(ColumnGroups(width, blocks))
    ensures m.blockId < |blocks| && m.columnIdx < width && m == ColumnMetaAt(width, blocks, m.blockId, m.columnIdx)
  {
    hide ColumnPieces, Offset;
    InFlatten(ColumnGroups(width, blocks), m);
    var i :| 0 <= i < |blocks| && m in ColumnGroups(width, blocks)[i];
    var c :| 0 <= c < width && ColumnGroup(width, blocks, i)[c] == m;
  }

  /** A table's metadata can be cached, and its index is sorted. */
  lemma {:induction false} FilesAreCovered(file: TableFile, schema: Schema, rows: seq<Row>)
    requires IsTable(file, schema, rows) && WeaklyAscending(rows) && file.numBlocks < U32_LIMIT
             && Width(schema) < U32_LIMIT
    ensures Covers(file, Pages(file.numBlocks, PAGE_BLOCKS, Width(schema))) && SortedIndex(file.index)
  {
    hide Offset, EncodeRows, ColumnPiece, Flatten, Entries;
    var blocks: seq<Block>, step: nat :|
      step >= 1 && AllRows(blocks) == rows && file == FileOf(file.layout, schema, blocks, step);
    FlattenUniformLength(ColumnGroups(Width(schema), blocks), Width(schema));
    OrderedBlocks(blocks);
    EntriesSorted(Mins(blocks), Maxs(blocks), step);
  }

  lemma {:induction false} ReaderIsBacked(reader: SSTableReader, disk: map<U64, TableFile>)
    requires reader.table in disk && reader.file == disk[reader.table] && Identified(reader.file)
    requires forall k: CacheKey :: k.table == reader.table ==> reader.cache.source(k) == SourceOf(disk)(k)
    ensures reader.Backed()
  {
  }

  // ---------- Reading one candidate ----------

  /** All columns, in order. */
  function EveryColumn(schema: Schema): seq<nat> { seq(Width(schema), i => i) }

  lemma {:induction false} EveryColumnIsAll(schema: Schema)
    ensures GoodProjection(Width(schema), EveryColumn(schema)) && ColumnsOf(EveryColumn(schema)) == AllColumns(schema)
  {
    forall c: nat ensures c in ColumnsOf(EveryColumn(schema)) <==> c in AllColumns(schema) {
      if c <= |schema| { assert EveryColumn(schema)[c] == c; }
    }
  }

  /** The rows a cursor has left, one by one. */
  method DrainRowCursor(cursor: SSTableRowCursor) returns (rows: seq<Row>)
    requires cursor.Valid() && cursor.Remaining().Ok?
    modifies cursor, cursor.reader.cache
    ensures rows == old(cursor.Remaining().value) && cursor.reader.Valid()
    ensures cursor.reader.cache.OnlyRead(cursor.reader.table)
  {
    hide SSTableReader.Valid, SSTableRowCursor.Remaining, SSTableRowCursor.Consistent, Filter;
    rows := [];
    while cursor.HasRow()
      invariant cursor.Valid() && cursor.Remaining().Ok?
      invariant rows + cursor.Remaining().value == old(cursor.Remaining().value)
      invariant cursor.reader.cache.OnlyRead(cursor.reader.table)
      decreases |cursor.Remaining().value|
    {
      rows := rows + [cursor.rows[cursor.index]];
      var ok := cursor.Next();
    }
    RowCursorAtEnd(cursor);
  }

  lemma {:induction false} RowCursorAtEnd(cursor: SSTableRowCursor)
    requires cursor.Valid() && !cursor.HasRow()
    ensures cursor.Remaining() == Ok([]) && cursor.reader.Valid()
  {
    assert cursor.blocks[cursor.nextBlock..] == [];
    NothingLeft(cursor.rows, cursor.index, cursor.request.range.Has(), cursor.Later());
  }

  method DrainColumnCursor(cursor: SSTableColumnCursor) returns (rows: seq<Row>)
    requires cursor.Valid() && cursor.Remaining().Ok?
    modifies cursor, cursor.reader.cache
    ensures rows == old(cursor.Remaining().value) && cursor.reader.Valid()
    ensures cursor.reader.cache.OnlyRead(cursor.reader.table)
  {
    hide SSTableReader.Valid, SSTableColumnCursor.Remaining, Filter;
    rows := [];
    while cursor.HasRow()
      invariant cursor.Valid() && cursor.Remaining().Ok?
      invariant rows + cursor.Remaining().value == old(cursor.Remaining().value)
      invariant cursor.reader.cache.OnlyRead(cursor.reader.table)
      decreases |cursor.Remaining().value|
    {
      rows := rows + [LoadedRow(cursor.loaded, Width(cursor.schema), cursor.index)];
      var ok := cursor.Next();
    }
    ColumnCursorAtEnd(cursor);
  }

  lemma {:induction false} ColumnCursorAtEnd(cursor: SSTableColumnCursor)
    requires cursor.Valid() && !cursor.HasRow()
    ensures cursor.Remaining() == Ok([]) && cursor.reader.Valid()
  {
    assert cursor.blocks[cursor.nextBlock..] == [];
    NothingLeft(cursor.Rows(), cursor.index, cursor.request.range.Has(), cursor.Later());
  }

  /** The cache knows the files on disk. */
  ghost predicate Job(c: Setup, disk: map<U64, TableFile>, cache: SSTableBlockCache)
    reads cache
  {
    && cache.Valid() && Width(c.schema) < U32_LIMIT
    && forall k: CacheKey :: k.table in disk ==> cache.source(k) == SourceOf(disk)(k)
  }

  /** A table on disk that can be read. */
  ghost predicate Readable(c: Setup, disk: map<U64, TableFile>, info: TableInfo) {
    info.id in disk && Stored(c, disk[info.id], info) && disk[info.id].numBlocks < U32_LIMIT
  }

  /** The metadata cache was opened on this file. */
  ghost predicate OpenedOn(c: Setup, metadata: SSTableMetadataCache, file: TableFile)
    reads metadata
  {
    metadata.Valid() && metadata.file == file && metadata.pages.columns == Width(c.schema)
  }

  /** A metadata cache for a table on disk. */
  method OpenMetadata(c: Setup, disk: map<U64, TableFile>, info: TableInfo) returns (metadata: SSTableMetadataCache)
    requires Readable(c, disk, info) && Width(c.schema) < U32_LIMIT
    ensures fresh(metadata) && OpenedOn(c, metadata, disk[info.id])
  {
    hide IsTable, TableRows, SSTableMetadataCache.Valid, Covers, RowsFit, WeaklyAscending, SortedIndex;
    var file := disk[info.id];
    FilesAreCovered(file, c.schema, TableRows(file, c.schema));
    metadata := new SSTableMetadataCache(file, Width(c.schema), PAGE_BLOCKS, METADATA_CACHE_BYTES);
  }

  /** A cursor over one table, through a metadata cache and a block cache that others may share. */
  method OpenTable(c: Setup, disk: map<U64, TableFile>, info: TableInfo, metadata: SSTableMetadataCache,
                   cache: SSTableBlockCache, range: KeyRange, projection: seq<nat>, filter: seq<NumericPredicate>)
    returns (cursor: Result<TableCursor>, ghost reader: SSTableReader)
    requires Job(c, disk, cache) && Readable(c, disk, info) && OpenedOn(c, metadata, disk[info.id])
    modifies metadata, cache
    ensures Job(c, disk, cache) && cache.OnlyRead(info.id) && OpenedOn(c, metadata, disk[info.id])
    ensures cursor.Ok? ==>
              && Emits(cursor.value, ScanTable(disk[info.id], c.schema, Request(range, ColumnsOf(projection), filter)))
              && NewOver(cursor.value, reader) && reader.cache == cache && reader.table == info.id
    ensures cursor.Err? ==> ScanTable(disk[info.id], c.schema, Request(range, ColumnsOf(projection), filter)).Err?
                            || !GoodProjection(Width(c.schema), projection)
  {
    hide IsTable, TableRows, SSTableMetadataCache.Valid, SSTableBlockCache.Valid, SourceOf, Covers, GoodProjection,
         ScanTable, Identified, RowsFit, WeaklyAscending, SortedIndex, ColumnsOf;
    var file := disk[info.id];
    FilesAreCovered(file, c.schema, TableRows(file, c.schema));
    FilesAreIdentified(file, c.schema, TableRows(file, c.schema));
    var r := new SSTableReader(file, info.id, cache);
    ReaderIsBacked(r, disk);
    reader := r;
    cursor := MakeSSTableCursor(r, metadata, range, c.schema, projection, filter);
  }

  /** Reading a stored table never fails, whatever range, columns and filter are asked for. */
  lemma {:induction false} ReadNeverFails(c: Setup, file: TableFile, info: TableInfo, request: Request)
    requires Stored(c, file, info)
    ensures ScanTable(file, c.schema, request).Ok?
  {
    hide ScanTable, SelectSpan, Mins, Maxs, KeptIds, Keeper, RowsOfBlocks, RowsDescribe, GroupsDescribe,
         RowFits, BlocksInOrder, WeaklyAscending, TableRows, Flatten, StatsOfBlocks, RowPieces, ColumnPieces,
         ColumnGroups;
    var rows := TableRows(file, c.schema);
    var blocks: seq<Block>, step: nat :|
      step >= 1 && AllRows(blocks) == rows && file == FileOf(file.layout, c.schema, blocks, step);
    BlocksOf(blocks, c.schema);
    OrderedBlocks(blocks);
    FileDescribes(file.layout, c.schema, blocks, step, request.projected);
    SelectionExact(Mins(blocks), Maxs(blocks), step, request.range);
    ScanIsKeptBlocks(file, blocks, c.schema, step, request, SelectSpan(file.index, request.range, |blocks|).value);
  }

  /** What a read of one table shows, row after row. */
  method ReadRequested(c: Setup, disk: map<U64, TableFile>, info: TableInfo, metadata: SSTableMetadataCache,
                       cache: SSTableBlockCache, range: KeyRange, projection: seq<nat>, filter: seq<NumericPredicate>)
    returns (rows: Result<seq<Row>>)
    requires Job(c, disk, cache) && Readable(c, disk, info) && OpenedOn(c, metadata, disk[info.id])
    modifies metadata, cache
    ensures Job(c, disk, cache) && cache.OnlyRead(info.id) && OpenedOn(c, metadata, disk[info.id])
    ensures rows.Ok? ==> rows == ScanTable(disk[info.id], c.schema, Request(range, ColumnsOf(projection), filter))
    ensures GoodProjection(Width(c.schema), projection) ==> rows.Ok?
  {
    hide Stored, SSTableBlockCache.Valid, SSTableMetadataCache.Valid, EmitRowBlocks, EmitColumnBlocks, Filter, SourceOf,
         ScanTable, GoodProjection, ColumnsOf;
    ReadNeverFails(c, disk[info.id], info, Request(range, ColumnsOf(projection), filter));
    var cursor, reader := OpenTable(c, disk, info, metadata, cache, range, projection, filter);
    if cursor.Err? { return Err; }
    match cursor.value {
      case NoCursor => rows := Ok([]);
      case OverRows(r) =>
        var drained := DrainRowCursor(r);
        rows := Ok(drained);
      case OverColumns(k) =>
        var drained := DrainColumnCursor(k);
        rows := Ok(drained);
    }
  }

  /** A full scan of one table, through a metadata cache of its own. */
  method ReadCandidate(c: Setup, disk: map<U64, TableFile>, info: TableInfo, cache: SSTableBlockCache)
    returns (rows: seq<Row>)
    requires Job(c, disk, cache) && Readable(c, disk, info)
    modifies cache
    ensures Job(c, disk, cache) && rows == RowsOf(c, disk, info)
  {
    hide Stored, SSTableBlockCache.Valid, SSTableMetadataCache.Valid, SourceOf, ScanTable, GoodProjection, ColumnsOf,
         AllColumns, EveryColumn, TableRows;
    EveryColumnIsAll(c.schema);
    FullTableRead(c, disk[info.id], info);
    var metadata := OpenMetadata(c, disk, info);
    var read := ReadRequested(c, disk, info, metadata, cache, FULL_RANGE, EveryColumn(c.schema), []);
    rows := read.value;
  }

  lemma {:induction false} FullTableRead(c: Setup, file: TableFile, info: TableInfo)
    requires Stored(c, file, info)
    ensures ScanTable(file, c.schema, Request(FULL_RANGE, AllColumns(c.schema), [])) == Ok(TableRows(file, c.schema))
  {
    hide ScanTable, IsTable, TableRows, MaskRows, RowFits;
    FullScan(file, c.schema, TableRows(file, c.schema), AllColumns(c.schema));
    MaskNone(TableRows(file, c.schema), c.schema);
  }

  // ---------- The job ----------

  ghost predicate Candidates(c: Setup, disk: map<U64, TableFile>, infos: seq<TableInfo>) {
    forall i :: 0 <= i < |infos| ==> Readable(c, disk, infos[i])
  }

  method ReadCandidates(c: Setup, disk: map<U64, TableFile>, infos: seq<TableInfo>) returns (children: seq<seq<Row>>)
    requires Candidates(c, disk, infos) && Width(c.schema) < U32_LIMIT
    ensures children == RowsOfAll(c, disk, infos)
  {
    hide SSTableBlockCache.Valid, Stored, RowsOf;
    var cache := new SSTableBlockCache(BLOCK_CACHE_BYTES, SourceOf(disk));
    children := [];
    for i := 0 to |infos|
      invariant Job(c, disk, cache) && |children| == i
      invariant forall k :: 0 <= k < i ==> children[k] == RowsOf(c, disk, infos[k])
    {
      var rows := ReadCandidate(c, disk, infos[i], cache);
      children := children + [rows];
    }
  }

  /** The merged rows go into a builder of the output layout, one by one. */
  method WriteRows(schema: Schema, o: BuildOptions, merged: MergeCursor, ghost all: seq<Row>)
    returns (r: Result<BuildResult>)
    requires merged.Valid() && merged.Remaining() == all && GoodBuild(o)
    requires WeaklyAscending(all) && RowsFit(all, schema) && 0 < |all| < U32_LIMIT
    modifies merged
    ensures r.Ok? && Built(r.value, ROW, schema, all)
  {
    hide Merge, RowSSTableBuilder.Valid, Built;
    var builder := new RowSSTableBuilder(schema, o.index, o.rowTarget);
    while merged.HasRow()
      invariant merged.Valid() && builder.Valid() && fresh(builder) && fresh(builder.block)
      invariant builder.schema == schema && !builder.finished && builder.rows + merged.Remaining() == all
      decreases |merged.Remaining()|
    {
      var row := merged.CurrentRow();
      NextInOrder(builder.rows, merged.Remaining(), all, schema);
      var ok := builder.Add(row);
      merged.Next();
    }
    MergeAtEnd(merged);
    assert builder.rows + [] == builder.rows;
    r := builder.Finish();
  }

  method WriteColumns(schema: Schema, o: BuildOptions, merged: MergeCursor, ghost all: seq<Row>)
    returns (r: Result<BuildResult>)
    requires merged.Valid() && merged.Remaining() == all && GoodBuild(o)
    requires WeaklyAscending(all) && RowsFit(all, schema) && 0 < |all| < U32_LIMIT
    modifies merged
    ensures r.Ok? && Built(r.value, COLUMN, schema, all)
  {
    hide Merge, ColumnSSTableBuilder.Valid, Built;
    var builder := new ColumnSSTableBuilder(schema, o.index, o.columnRows, o.columnTarget);
    while merged.HasRow()
      invariant merged.Valid() && builder.Valid() && fresh(builder)
                && (forall i :: 0 <= i < |builder.columns| ==> fresh(builder.columns[i]))
      invariant builder.schema == schema && !builder.finished && builder.rows + merged.Remaining() == all
      decreases |merged.Remaining()|
    {
      var row := merged.CurrentRow();
      NextInOrder(builder.rows, merged.Remaining(), all, schema);
      var ok := builder.Add(row);
      merged.Next();
    }
    MergeAtEnd(merged);
    assert builder.rows + [] == builder.rows;
    r := builder.Finish();
  }

  lemma {:induction false} MergeAtEnd(merged: MergeCursor)
    requires merged.Valid() && !merged.HasRow()
    ensures merged.Remaining() == []
  {
    assert Exhausted(merged.children);
  }

  /** The next row of an ascending list is not below the last one, and fits. */
  lemma {:induction false} NextInOrder(done: seq<Row>, rest: seq<Row>, all: seq<Row>, schema: Schema)
    requires done + rest == all && rest != [] && WeaklyAscending(all) && RowsFit(all, schema)
    ensures RowFits(rest[0], schema) && (done != [] ==> done[|done| - 1].key <= rest[0].key)
    ensures done + [rest[0]] + rest[1..] == all
  {
    assert all[|done|] == rest[0] && rest[0] in all;
    if done != [] { assert all[|done| - 1] == done[|done| - 1]; }
  }

  /** run: the new table holds exactly the merge of the candidates' rows. */
  method RunJob(c: Setup, o: BuildOptions, disk: map<U64, TableFile>, candidates: seq<TableInfo>, layout: Layout)
    returns (r: Result<BuildResult>)
    requires Candidates(c, disk, candidates) && Width(c.schema) < U32_LIMIT && GoodBuild(o)
    requires |Flatten(RowsOfAll(c, disk, candidates))| < U32_LIMIT
    ensures r.Err? <==> candidates == []
    ensures r.Ok? ==> Built(r.value, layout, c.schema, Merge(RowsOfAll(c, disk, candidates)))
  {
    hide Merge, RowsOf, Flatten, Built, Stored;
    if candidates == [] { return Err; }
    var children := ReadCandidates(c, disk, candidates);
    ghost var all := Merge(children);
    MergedFits(c, disk, candidates);
    var merged := new MergeCursor(children);
    if layout.COLUMN? {
      r := WriteColumns(c.schema, o, merged, all);
    } else {
      r := WriteRows(c.schema, o, merged, all);
    }
  }

  lemma {:induction false} MergedFits(c: Setup, disk: map<U64, TableFile>, infos: seq<TableInfo>)
    requires Candidates(c, disk, infos) && infos != []
    ensures var all := Merge(RowsOfAll(c, disk, infos));
            && WeaklyAscending(all) && RowsFit(all, c.schema) && 0 < |all| == |Flatten(RowsOfAll(c, disk, infos))|
  {
    hide Merge, TableRows, IsTable, WeaklyAscending, RowsFit, Flatten;
    var children := RowsOfAll(c, disk, infos);
    MergeAscending(children);
    MergeFits(children, c.schema);
    MergeKeepsAll(children);
    assert |multiset(Merge(children))| == |multiset(Flatten(children))|;
    assert children[0] != [];
    InMerge(children, children[0][0]);
  }
}
