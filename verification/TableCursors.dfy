/**
 The cursors over one table and the factory that opens them, as objects: block selection through the
 metadata cache, block bytes through the block cache, rows one at a time. Each object is tied to the
 list of rows that TableScan says it emits.
 */
module TableCursors {
  import opened Seqs
  import opened Storage
  import opened Planner
  import opened Pruning
  import opened SparseIndex
  import opened Codec
  import opened Tables
  import opened Decoders
  import opened MetadataCache
  import opened BlockCache
  import opened TableScan

  function RowCacheKey(table: U64, m: RowBlockMeta): CacheKey { CacheKey(table, RowBlock, m.blockId, 0) }
  function ColumnCacheKey(table: U64, m: ColumnBlockMeta)
    : CacheKey
  {
    CacheKey(table, ColumnBlock, m.blockId, m.columnIdx)
  }

  /** Reads data blocks of one table through the shared block cache. */
  class SSTableReader {
    const file: TableFile
    const table: U64
    const cache: SSTableBlockCache

    /** What the cache was told about the table's keys is what its data file holds. */
    ghost predicate Backed()
      reads cache
    {
      && (forall m :: m in file.rowMeta && m.offset + m.size <= |file.data| ==>
            cache.source(RowCacheKey(table, m)) == file.data[m.offset..m.offset + m.size])
      && (forall m :: m in file.columnMeta && m.offset + m.size <= |file.data| ==>
            cache.source(ColumnCacheKey(table, m)) == file.data[m.offset..m.offset + m.size])
    }

    ghost predicate Valid()
      reads cache
    {
      cache.Valid() && Backed()
    }

    constructor (file: TableFile, table: U64, cache: SSTableBlockCache)
      ensures this.file == file && this.table == table && this.cache == cache
    {
      this.file, this.table, this.cache := file, table, cache;
    }

    method ReadBytes(key: CacheKey, offset: nat, size: nat) returns (r: Result<Bytes>)
      requires Valid() && key.table == table
      requires (offset + size <= |file.data| ==> cache.source(key) == file.data[offset..offset + size])
      modifies cache
      ensures cache.OnlyRead(table)
      ensures Valid() && r == Slice(file.data, offset, size)
    {
      if offset + size > |file.data| { return Err; }
      var bytes := file.data[offset..offset + size];
      var read := cache.ReadBlock(key, () => bytes);
      return Ok(read);
    }

    method ReadRowBytes(m: RowBlockMeta) returns (r: Result<Bytes>)
      requires Valid() && m in file.rowMeta
      modifies cache
      ensures cache.OnlyRead(table)
      ensures Valid() && r == Slice(file.data, m.offset, m.size)
    {
      r := ReadBytes(RowCacheKey(table, m), m.offset, m.size);
    }

    method ReadColumnBytes(m: ColumnBlockMeta) returns (r: Result<Bytes>)
      requires Valid() && m in file.columnMeta
      modifies cache
      ensures cache.OnlyRead(table)
      ensures Valid() && r == Slice(file.data, m.offset, m.size)
    {
      r := ReadBytes(ColumnCacheKey(table, m), m.offset, m.size);
    }
  }

  /** Rows at hand, in front of what later blocks emit. */
  function Following(rows: seq<Row>, later: Result<seq<Row>>): Result<seq<Row>> {
    var more :- later;
    Ok(rows + more)
  }

  function Rest(rows: Result<seq<Row>>): Result<seq<Row>>
    requires rows.Ok? ==> rows.value != []
  {
    if rows.Ok? then Ok(rows.value[1..]) else Err
  }

  class SSTableRowCursor {
    const reader: SSTableReader
    const blocks: seq<RowBlockMeta>
    const schema: Schema
    const mask: seq<bool>
    const request: Request
    var nextBlock: nat
    var rows: seq<Row>
    var index: nat

    /** What later blocks emit. */
    ghost function Later(): Result<seq<Row>>
      requires nextBlock <= |blocks|
      reads this`nextBlock
    {
      EmitRowBlocks(reader.file, blocks[nextBlock..], schema, request)
    }

    /** Everything the cursor still has to emit; Err when a later block cannot be read. */
    ghost function Remaining(): Result<seq<Row>>
      requires Consistent()
      reads this, reader.cache
    {
      Following(Filter(rows[index..], request.range.Has()), Later())
    }

    ghost predicate Consistent()
      reads this, reader.cache
    {
      && reader.Valid() && nextBlock <= |blocks| && index <= |rows|
      && (forall m :: m in blocks ==> m in reader.file.rowMeta)
      && |mask| == Width(schema) && forall c :: 0 < c < |mask| ==> (mask[c] <==> c in request.projected)
    }

    /** The cursor stands on a row of the range, or every block is behind it. */
    ghost predicate Valid()
      reads this, reader.cache
    {
      && Consistent()
      && (index < |rows| ==> request.range.Contains(rows[index].key))
      && (index == |rows| ==> nextBlock == |blocks|)
    }

    constructor (reader: SSTableReader, blocks: seq<RowBlockMeta>, schema: Schema, mask: seq<bool>, request: Request)
      requires reader.Valid() && forall m :: m in blocks ==> m in reader.file.rowMeta
      requires |mask| == Width(schema) && forall c :: 0 < c < |mask| ==> (mask[c] <==> c in request.projected)
      ensures Consistent() && nextBlock == 0 && rows == []
      ensures this.reader == reader && this.blocks == blocks && this.schema == schema && this.request == request
    {
      this.reader, this.blocks, this.schema, this.mask, this.request := reader, blocks, schema, mask, request;
      nextBlock, rows, index := 0, [], 0;
    }

    predicate HasRow()
      reads this
    {
      index < |rows|
    }

    method SkipOutside()
      requires Consistent()
      modifies this`index
      ensures Consistent() && Remaining() == old(Remaining())
      ensures index < |rows| ==> request.range.Contains(rows[index].key)
    {
      hide Filter, EmitRowBlocks;
      while index < |rows| && !request.range.Contains(rows[index].key)
        invariant Consistent()
        invariant Filter(rows[index..], request.range.Has())
                  == old(Filter(rows[index..], request.range.Has()))
        decreases |rows| - index
      {
        FilterFrom(rows, index, request.range.Has());
        index := index + 1;
      }
    }

    /** load_next_non_empty_block. */
    method LoadNextNonEmptyBlock() returns (ok: bool)
      requires Consistent()
      modifies this`rows, this`index, this`nextBlock, reader.cache
      ensures reader.Valid() && reader.cache.OnlyRead(reader.table)
      ensures ok ==> Valid() && Remaining() == old(Later())
      ensures !ok ==> old(Later()).Err?
    {
      hide Filter, ReadRows, SSTableReader.Valid;
      rows, index := [], 0;
      while nextBlock < |blocks|
        invariant Consistent() && rows == [] && index == 0 && Later() == old(Later())
        invariant reader.cache.OnlyRead(reader.table)
        decreases |blocks| - nextBlock
      {
        var m := blocks[nextBlock];
        assert m in blocks && blocks[nextBlock..][1..] == blocks[nextBlock + 1..];
        nextBlock := nextBlock + 1;
        var bytes := reader.ReadRowBytes(m);
        if bytes.Err? { return false; }
        var decoded := DecodeRowBlock(bytes.value, m.rowCount, schema, mask, request.projected);
        if decoded.Err? { return false; }
        rows, index := decoded.value, 0;
        assert rows[0..] == rows && Remaining() == old(Later());
        SkipOutside();
        if index < |rows| { return true; }
        NothingLeft(rows, index, request.range.Has(), Later());
        rows, index := [], 0;
      }
      NothingLeft(rows, index, request.range.Has(), Later());
      return true;
    }

    method Next() returns (ok: bool)
      requires Valid() && HasRow()
      modifies this`rows, this`index, this`nextBlock, reader.cache
      ensures reader.Valid() && reader.cache.OnlyRead(reader.table)
      ensures ok ==> Valid()
      ensures old(Remaining()).Ok? ==> old(Remaining()).value != [] && old(Remaining()).value[0] == old(rows[index])
      ensures ok ==> Remaining() == Rest(old(Remaining()))
      ensures !ok ==> old(Remaining()).Err?
    {
      hide EmitRowBlocks, SSTableReader.Valid, Filter;
      FilterFrom(rows, index, request.range.Has());
      ghost var first, tail, later := rows[index], Filter(rows[index + 1..], request.range.Has()), Later();
      assert old(Remaining()) == Following([first] + tail, later);
      RestOfFollowing(first, tail, later);
      index := index + 1;
      SkipOutside();
      if index < |rows| { return true; }
      NothingLeft(rows, index, request.range.Has(), Later());
      ok := LoadNextNonEmptyBlock();
    }
  }

  lemma {:induction false} NothingLeft(rows: seq<Row>, index: nat, p: Row -> bool, later: Result<seq<Row>>)
    requires index == |rows|
    ensures Filter(rows[index..], p) == [] && Following([], later) == later
    ensures Following(Filter(rows[index..], p), later) == later
  {
    if later.Ok? { assert [] + later.value == later.value; }
  }

  lemma {:induction false} RestOfFollowing(first: Row, tail: seq<Row>, later: Result<seq<Row>>)
    ensures var all := Following([first] + tail, later);
            (all.Ok? ==> all.value != [] && all.value[0] == first) && Rest(all) == Following(tail, later)
  {
    if later.Ok? { assert (([first] + tail) + later.value)[1..] == tail + later.value; }
  }

  lemma {:induction false} RunBounds(metas: seq<ColumnBlockMeta>, start: nat, id: nat)
    requires start <= |metas|
    ensures var end := start + RunLength(metas[start..], id);
            && end <= |metas| && (end < |metas| ==> metas[end].blockId != id)
            && forall i :: start <= i < end ==> metas[i].blockId == id
  {
    var tail := metas[start..];
    forall i | start <= i < start + RunLength(tail, id) ensures metas[i].blockId == id {
      assert metas[i] == tail[i - start];
    }
  }

  lemma {:induction false} FirstLogicalBlock(file: TableFile, metas: seq<ColumnBlockMeta>, schema: Schema,
                                             request: Request)
    requires metas != []
    ensures var n := RunLength(metas, metas[0].blockId);
            && 0 < n <= |metas|
            && var l := LoadGroup(file, metas[..n], schema, request.projected, NOTHING_LOADED);
            EmitColumnBlocks(file, metas, schema, request)
            == if l.Err? then Err
               else Following(Filter(LoadedRows(l.value, Width(schema)), request.range.Has()),
                              EmitColumnBlocks(file, metas[n..], schema, request))
  {
    hide LoadGroup, Filter, LoadedRows;
  }

  /** The column cursor's next logical block, in front of the blocks behind it. */
  lemma {:induction false} NextLogicalBlock(file: TableFile, metas: seq<ColumnBlockMeta>, start: nat, schema: Schema,
                                            request: Request)
    requires start < |metas|
    ensures var end := start + RunLength(metas[start..], metas[start].blockId);
            && start < end <= |metas|
            && var l := LoadGroup(file, metas[start..end], schema, request.projected, NOTHING_LOADED);
            EmitColumnBlocks(file, metas[start..], schema, request)
            == if l.Err? then Err
               else Following(Filter(LoadedRows(l.value, Width(schema)), request.range.Has()),
                              EmitColumnBlocks(file, metas[end..], schema, request))
  {
    hide LoadGroup, Filter, LoadedRows, RunLength, EmitColumnBlocks;
    var tail := metas[start..];
    var n := RunLength(tail, metas[start].blockId);
    FirstLogicalBlock(file, tail, schema, request);
    assert tail[..n] == metas[start..start + n];
    assert tail[n..] == metas[start + n..];
  }

  class SSTableColumnCursor {
    const reader: SSTableReader
    const blocks: seq<ColumnBlockMeta>
    const schema: Schema
    const request: Request
    var nextBlock: nat
    var loaded: Loaded
    var index: nat

    ghost function Later(): Result<seq<Row>>
      requires nextBlock <= |blocks|
      reads this`nextBlock
    {
      EmitColumnBlocks(reader.file, blocks[nextBlock..], schema, request)
    }

    ghost function Rows(): seq<Row>
      reads this`loaded
    {
      LoadedRows(loaded, Width(schema))
    }

    ghost function Remaining(): Result<seq<Row>>
      requires Consistent()
      reads this, reader.cache
    {
      Following(Filter(Rows()[index..], request.range.Has()), Later())
    }

    ghost predicate Consistent()
      reads this, reader.cache
    {
      && reader.Valid() && nextBlock <= |blocks| && index <= |loaded.keys|
      && (forall m :: m in blocks ==> m in reader.file.columnMeta)
    }

    ghost predicate Valid()
      reads this, reader.cache
    {
      && Consistent()
      && (index < |loaded.keys| ==> request.range.Contains(loaded.keys[index]))
      && (index == |loaded.keys| ==> nextBlock == |blocks|)
    }

    constructor (reader: SSTableReader, blocks: seq<ColumnBlockMeta>, schema: Schema, request: Request)
      requires reader.Valid() && forall m :: m in blocks ==> m in reader.file.columnMeta
      ensures Consistent() && nextBlock == 0 && loaded == NOTHING_LOADED
      ensures this.reader == reader && this.blocks == blocks && this.schema == schema && this.request == request
    {
      this.reader, this.blocks, this.schema, this.request := reader, blocks, schema, request;
      nextBlock, loaded, index := 0, NOTHING_LOADED, 0;
    }

    predicate HasRow()
      reads this
    {
      index < |loaded.keys|
    }

    /** value(): only the key and the loaded columns can be asked for. */
    method Value(column: nat) returns (r: Result<Cell>)
      requires Valid()
      ensures r.Ok? ==> HasRow() && column < Width(schema) && r.value == Rows()[index].Column(column)
      ensures r.Err? <==> !HasRow() || column >= Width(schema)
                          || (column > 0 && (column !in loaded.columns || index >= |loaded.columns[column]|))
    {
      if index >= |loaded.keys| || column >= Width(schema) { return Err; }
      if column == 0 { return Ok(Some(Int(loaded.keys[index]))); }
      if column !in loaded.columns || index >= |loaded.columns[column]| { return Err; }
      return Ok(loaded.columns[column][index]);
    }

    method SkipOutside()
      requires Consistent()
      modifies this`index
      ensures Consistent() && Remaining() == old(Remaining())
      ensures index < |loaded.keys| ==> request.range.Contains(loaded.keys[index])
    {
      hide Filter, EmitColumnBlocks;
      while index < |loaded.keys| && !request.range.Contains(loaded.keys[index])
        invariant Consistent()
        invariant Filter(Rows()[index..], request.range.Has())
                  == old(Filter(Rows()[index..], request.range.Has()))
        decreases |loaded.keys| - index
      {
        FilterFrom(Rows(), index, request.range.Has());
        index := index + 1;
      }
    }

    /** One physical block of the logical block being loaded. */
    method LoadBlock(m: ColumnBlockMeta) returns (ok: bool)
      requires Consistent() && m in reader.file.columnMeta && index == 0
      modifies this`loaded, reader.cache
      ensures reader.Valid() && reader.cache.OnlyRead(reader.table)
      ensures ok ==> Consistent() && LoadColumn(reader.file, m, schema, request.projected, old(loaded)) == Ok(loaded)
      ensures !ok ==> LoadColumn(reader.file, m, schema, request.projected, old(loaded)).Err?
    {
      hide SSTableReader.Valid, ReadColumn, ReadKeys;
      if m.columnIdx >= Width(schema) { return false; }
      if m.columnIdx != 0 && m.columnIdx !in request.projected { return true; }
      var bytes := reader.ReadColumnBytes(m);
      if bytes.Err? { return false; }
      if m.columnIdx == 0 {
        var keys := DecodeKeyBlock(bytes.value, m.valuesCount);
        if keys.Err? { return false; }
        loaded := loaded.(keys := keys.value);
      } else {
        var cells := DecodeValueColumnBlock(bytes.value, m.valuesCount, schema[m.columnIdx - 1]);
        if cells.Err? { return false; }
        loaded := loaded.(columns := loaded.columns[m.columnIdx := cells.value]);
      }
      return true;
    }

    /** The physical blocks with the logical id of the next one. */
    method LoadLogicalBlock() returns (ok: bool)
      requires Consistent() && nextBlock < |blocks| && loaded == NOTHING_LOADED && index == 0
      modifies this`loaded, this`nextBlock, reader.cache
      ensures reader.Valid() && reader.cache.OnlyRead(reader.table)
      ensures ok ==>
                Consistent() && old(nextBlock) < nextBlock
                && Following(Filter(Rows(), request.range.Has()), Later()) == old(Later())
      ensures !ok ==> old(Later()).Err?
    {
      hide SSTableReader.Valid, LoadColumn, Filter, LoadedRows, EmitColumnBlocks, RunLength;
      var id := blocks[nextBlock].blockId;
      ghost var start := nextBlock;
      ghost var end := start + RunLength(blocks[start..], id);
      RunBounds(blocks, start, id);
      NextLogicalBlock(reader.file, blocks, start, schema, request);
      ghost var all := LoadGroup(reader.file, blocks[start..end], schema, request.projected, NOTHING_LOADED);
      while nextBlock < |blocks| && id == blocks[nextBlock].blockId
        invariant Consistent() && start <= nextBlock <= end && index == 0
        invariant reader.cache.OnlyRead(reader.table)
        invariant LoadGroup(reader.file, blocks[nextBlock..end], schema, request.projected, loaded) == all
        decreases |blocks| - nextBlock
      {
        var m := blocks[nextBlock];
        assert m in blocks && blocks[nextBlock..end][1..] == blocks[nextBlock + 1..end];
        nextBlock := nextBlock + 1;
        var read := LoadBlock(m);
        if !read { return false; }
      }
      return true;
    }

    /** load_next_non_empty_block. */
    method LoadNextNonEmptyBlock() returns (ok: bool)
      requires Consistent()
      modifies this`loaded, this`index, this`nextBlock, reader.cache
      ensures reader.Valid() && reader.cache.OnlyRead(reader.table)
      ensures ok ==> Valid() && Remaining() == old(Later())
      ensures !ok ==> old(Later()).Err?
    {
      hide Filter, SSTableReader.Valid, EmitColumnBlocks;
      loaded, index := NOTHING_LOADED, 0;
      while nextBlock < |blocks|
        invariant Consistent() && loaded == NOTHING_LOADED && index == 0 && Later() == old(Later())
        invariant reader.cache.OnlyRead(reader.table)
        decreases |blocks| - nextBlock
      {
        var read := LoadLogicalBlock();
        if !read { return false; }
        assert Rows()[0..] == Rows();
        SkipOutside();
        if index < |loaded.keys| { return true; }
        NothingLeft(Rows(), index, request.range.Has(), Later());
        loaded, index := NOTHING_LOADED, 0;
      }
      NothingLeft(Rows(), index, request.range.Has(), Later());
      return true;
    }

    method Next() returns (ok: bool)
      requires Valid() && HasRow()
      modifies this`loaded, this`index, this`nextBlock, reader.cache
      ensures reader.Valid() && reader.cache.OnlyRead(reader.table)
      ensures ok ==> Valid()
      ensures old(Remaining()).Ok? ==> old(Remaining()).value != [] && old(Remaining()).value[0] == old(Rows()[index])
      ensures ok ==> Remaining() == Rest(old(Remaining()))
      ensures !ok ==> old(Remaining()).Err?
    {
      hide EmitColumnBlocks, SSTableReader.Valid, Filter;
      FilterFrom(Rows(), index, request.range.Has());
      ghost var first, tail, later := Rows()[index], Filter(Rows()[index + 1..], request.range.Has()), Later();
      assert old(Remaining()) == Following([first] + tail, later);
      RestOfFollowing(first, tail, later);
      index := index + 1;
      SkipOutside();
      if index < |loaded.keys| { return true; }
      NothingLeft(Rows(), index, request.range.Has(), Later());
      ok := LoadNextNonEmptyBlock();
    }
  }

  // ---------- make_sstable_cursor ----------

  function RowInRange(range: KeyRange): RowBlockMeta -> bool {
    (m: RowBlockMeta) => Intersects(m.minKey, m.maxKey, range)
  }

  function ColumnInRange(range: KeyRange): ColumnBlockMeta -> bool {
    (m: ColumnBlockMeta) => Intersects(m.minKey, m.maxKey, range)
  }

  function RowKept(stats: StatsRange, filter: seq<NumericPredicate>): RowBlockMeta -> bool {
    (m: RowBlockMeta) => KeepBlock(m.blockId, stats, filter)
  }

  function ColumnKept(stats: StatsRange, filter: seq<NumericPredicate>): ColumnBlockMeta -> bool {
    (m: ColumnBlockMeta) => KeepBlock(m.blockId, stats, filter)
  }

  predicate StatsComplete(stats: StatsRange) {
    forall c :: c in stats.byColumn ==> |stats.byColumn[c]| == stats.count
  }

  method FilterCandidateRowBlocks(candidates: seq<RowBlockMeta>, range: KeyRange) returns (selected: seq<RowBlockMeta>)
    ensures selected == Filter(candidates, RowInRange(range))
  {
    selected := [];
    for i := 0 to |candidates|
      invariant selected == Filter(candidates[..i], RowInRange(range))
    {
      FilterSnoc(candidates[..i], candidates[i], RowInRange(range));
      assert candidates[..i + 1] == candidates[..i] + [candidates[i]];
      if Intersects(candidates[i].minKey, candidates[i].maxKey, range) { selected := selected + [candidates[i]]; }
    }
    assert candidates[..|candidates|] == candidates;
  }

  method FilterCandidateColumnBlocks(candidates: seq<ColumnBlockMeta>, range: KeyRange)
    returns (selected: seq<ColumnBlockMeta>)
    ensures selected == Filter(candidates, ColumnInRange(range))
  {
    selected := [];
    for i := 0 to |candidates|
      invariant selected == Filter(candidates[..i], ColumnInRange(range))
    {
      FilterSnoc(candidates[..i], candidates[i], ColumnInRange(range));
      assert candidates[..i + 1] == candidates[..i] + [candidates[i]];
      if Intersects(candidates[i].minKey, candidates[i].maxKey, range) { selected := selected + [candidates[i]]; }
    }
    assert candidates[..|candidates|] == candidates;
  }

  /** filter_row_blocks of the pruner. */
  method FilterRowBlocks(blocks: seq<RowBlockMeta>, stats: StatsRange, filter: seq<NumericPredicate>)
    returns (selected: seq<RowBlockMeta>)
    requires StatsComplete(stats)
    ensures selected == Filter(blocks, RowKept(stats, filter))
  {
    if blocks == [] || stats.byColumn == map[] || filter == [] {
      FilterAll(blocks, RowKept(stats, filter));
      return blocks;
    }
    selected := [];
    for i := 0 to |blocks|
      invariant selected == Filter(blocks[..i], RowKept(stats, filter))
    {
      FilterSnoc(blocks[..i], blocks[i], RowKept(stats, filter));
      assert blocks[..i + 1] == blocks[..i] + [blocks[i]];
      var may := MaySatisfy(blocks[i].blockId, stats, filter);
      if may { selected := selected + [blocks[i]]; }
    }
    assert blocks[..|blocks|] == blocks;
  }

  /** filter_logical_block_ids of the pruner. */
  method FilterLogicalBlockIds(ids: seq<nat>, stats: StatsRange, filter: seq<NumericPredicate>)
    returns (selected: seq<nat>)
    requires StatsComplete(stats)
    ensures forall id :: id in selected <==> id in ids && KeepBlock(id, stats, filter)
  {
    if ids == [] || stats.byColumn == map[] || filter == [] { return ids; }
    selected := [];
    for i := 0 to |ids|
      invariant forall id :: id in selected <==> id in ids[..i] && KeepBlock(id, stats, filter)
    {
      assert ids[..i + 1] == ids[..i] + [ids[i]];
      var may := MaySatisfy(ids[i], stats, filter);
      if may { selected := selected + [ids[i]]; }
    }
    assert ids[..|ids|] == ids;
  }

  /** The logical ids of physical blocks, without repeating the previous one. */
  method LogicalBlockIds(blocks: seq<ColumnBlockMeta>) returns (ids: seq<nat>)
    ensures forall id :: id in ids <==> exists m :: m in blocks && m.blockId == id
  {
    ids := [];
    for i := 0 to |blocks|
      invariant forall id :: id in ids ==> exists m :: m in blocks && m.blockId == id
      invariant forall k :: 0 <= k < i ==> blocks[k].blockId in ids
    {
      if ids == [] || ids[|ids| - 1] != blocks[i].blockId {
        assert blocks[i] in blocks;
        ids := ids + [blocks[i].blockId];
      }
    }
  }

  /** Pruning physical column blocks by the statistics of their logical blocks. */
  method PruneColumnBlocks(blocks: seq<ColumnBlockMeta>, stats: StatsRange, filter: seq<NumericPredicate>)
    returns (pruned: seq<ColumnBlockMeta>)
    requires StatsComplete(stats)
    ensures pruned == Filter(blocks, ColumnKept(stats, filter))
  {
    hide KeepBlock;
    var ids := LogicalBlockIds(blocks);
    var selected := FilterLogicalBlockIds(ids, stats, filter);
    pruned := [];
    for i := 0 to |blocks|
      invariant pruned == Filter(blocks[..i], ColumnKept(stats, filter))
    {
      FilterSnoc(blocks[..i], blocks[i], ColumnKept(stats, filter));
      assert blocks[..i + 1] == blocks[..i] + [blocks[i]] && blocks[i] in blocks;
      if blocks[i].blockId in selected { pruned := pruned + [blocks[i]]; }
    }
    assert blocks[..|blocks|] == blocks;
  }

  method ProjectColumnBlocks(blocks: seq<ColumnBlockMeta>, projection: seq<nat>)
    returns (projected: seq<ColumnBlockMeta>)
    ensures projected == Filter(blocks, InProjection(ColumnsOf(projection)))
  {
    projected := [];
    for i := 0 to |blocks|
      invariant projected == Filter(blocks[..i], InProjection(ColumnsOf(projection)))
    {
      FilterSnoc(blocks[..i], blocks[i], InProjection(ColumnsOf(projection)));
      assert blocks[..i + 1] == blocks[..i] + [blocks[i]];
      if blocks[i].columnIdx == 0 || blocks[i].columnIdx in projection { projected := projected + [blocks[i]]; }
    }
    assert blocks[..|blocks|] == blocks;
  }

  /** referenced_columns: the columns of the predicates, each once. */
  method ReferencedColumns(filter: seq<NumericPredicate>) returns (columns: seq<nat>)
    ensures forall c :: c in columns <==> MentionsColumn(filter, c)
  {
    columns := [];
    for i := 0 to |filter|
      invariant forall c :: c in columns ==> MentionsColumn(filter, c)
      invariant forall k :: 0 <= k < i ==> filter[k].column in columns
    {
      if filter[i].column !in columns {
        assert filter[i] in filter;
        columns := columns + [filter[i].column];
      }
    }
  }

  datatype TableCursor = NoCursor | OverRows(rows: SSTableRowCursor) | OverColumns(columns: SSTableColumnCursor)

  ghost function CursorObjects(c: TableCursor): set<object> {
    match c
    case NoCursor => {}
    case OverRows(r) => {r}
    case OverColumns(k) => {k}
  }

  /** A new object over this reader. */
  twostate predicate NewOver(new c: TableCursor, new reader: SSTableReader)
  {
    match c
    case NoCursor => true
    case OverRows(r) => fresh(r) && r.reader == reader
    case OverColumns(k) => fresh(k) && k.reader == reader
  }

  /** The cursor is ready and will emit exactly these rows. */
  ghost predicate Emits(c: TableCursor, rows: Result<seq<Row>>)
    reads CursorObjects(c), if c.OverRows? then {c.rows.reader.cache} else {},
        if c.OverColumns? then {c.columns.reader.cache} else {}
  {
    match c
    case NoCursor => rows == Ok([])
    case OverRows(r) => r.Valid() && r.Remaining() == rows
    case OverColumns(k) => k.Valid() && k.Remaining() == rows
  }

  /** The candidates that pass both tests are those the scan reads. */
  lemma {:induction false} RowSelection(file: TableFile, candidates: seq<RowBlockMeta>, request: Request,
                                        span: BlockSpan)
    ensures Filter(Filter(candidates, RowInRange(request.range)),
                   RowKept(StatsIn(file, span, request.filter), request.filter))
            == Filter(candidates, KeepsRowBlock(file, request, span))
    ensures request.filter == [] ==>
              Filter(candidates, RowInRange(request.range)) == Filter(candidates, KeepsRowBlock(file, request, span))
  {
    hide StatsIn, Intersects;
    FilterBoth(candidates, RowInRange(request.range), RowKept(StatsIn(file, span, request.filter), request.filter),
               KeepsRowBlock(file, request, span));
    if request.filter == [] {
      FilterSame(candidates, RowInRange(request.range), KeepsRowBlock(file, request, span));
    }
  }

  lemma {:induction false} ColumnSelection(file: TableFile, candidates: seq<ColumnBlockMeta>, request: Request,
                                           span: BlockSpan)
    ensures Filter(Filter(Filter(candidates, ColumnInRange(request.range)),
                          ColumnKept(StatsIn(file, span, request.filter), request.filter)),
                   InProjection(request.projected))
            == Filter(candidates, KeepsColumnBlock(file, request, span))
    ensures request.filter == [] ==>
              Filter(Filter(candidates, ColumnInRange(request.range)), InProjection(request.projected))
              == Filter(candidates, KeepsColumnBlock(file, request, span))
  {
    hide StatsIn, Intersects;
    var inRange, kept := ColumnInRange(request.range), ColumnKept(StatsIn(file, span, request.filter), request.filter);
    var both := (m: ColumnBlockMeta) => inRange(m) && kept(m);
    FilterBoth(candidates, inRange, kept, both);
    FilterBoth(candidates, both, InProjection(request.projected), KeepsColumnBlock(file, request, span));
    if request.filter == [] {
      FilterBoth(candidates, inRange, InProjection(request.projected), KeepsColumnBlock(file, request, span));
    }
  }

  lemma {:induction false} NoneKept<T(!new)>(blocks: seq<T>, p: T -> bool)
    requires blocks == []
    ensures Filter(blocks, p) == blocks
  {
  }

  lemma {:induction false} KeptAreListed<T(!new)>(all: seq<T>, from: nat, end: nat, p: T -> bool)
    requires from <= end <= |all|
    ensures forall m :: m in Filter(all[from..end], p) ==> m in all
  {
    InFilter(all[from..end], p);
  }

  /** Reading the statistics of the filter's columns through the cache. */
  method ReadStats(metadata: SSTableMetadataCache, span: BlockSpan, filter: seq<NumericPredicate>)
    returns (stats: StatsRange)
    requires metadata.Valid() && 0 < span.count && span.first + span.count <= metadata.pages.numBlocks
    modifies metadata
    ensures metadata.Valid() && stats == StatsIn(metadata.file, span, filter) && StatsComplete(stats)
  {
    hide SSTableMetadataCache.Valid;
    var columns := ReferencedColumns(filter);
    var r := metadata.ReadNumericStatsRange(span.first, span.count, columns);
    stats := r.value;
    assert stats.byColumn == StatsIn(metadata.file, span, filter).byColumn;
  }

  /** Whether the pruner runs: it reads no statistics without blocks or without a filter. */
  method SelectRowBlocks(metadata: SSTableMetadataCache, request: Request, span: BlockSpan)
    returns (blocks: seq<RowBlockMeta>)
    requires metadata.Valid() && metadata.file.layout.ROW? && 0 < span.count
             && span.first + span.count <= metadata.pages.numBlocks
    modifies metadata
    ensures metadata.Valid() && span.first + span.count <= |metadata.file.rowMeta|
    ensures blocks == Filter(metadata.file.rowMeta[span.first..span.first + span.count],
                             KeepsRowBlock(metadata.file, request, span))
  {
    hide SSTableMetadataCache.Valid, StatsIn, KeepsRowBlock, Filter, RowKept, RowInRange;
    var candidates := metadata.ReadRowMetadataRange(span.first, span.count);
    blocks := FilterCandidateRowBlocks(candidates.value, request.range);
    RowSelection(metadata.file, candidates.value, request, span);
    if blocks != [] && request.filter != [] {
      var stats := ReadStats(metadata, span, request.filter);
      blocks := FilterRowBlocks(blocks, stats, request.filter);
    } else if request.filter != [] {
      NoneKept(blocks, RowKept(StatsIn(metadata.file, span, request.filter), request.filter));
    }
  }

  method SelectColumnBlocks(metadata: SSTableMetadataCache, request: Request, projection: seq<nat>, span: BlockSpan)
    returns (blocks: seq<ColumnBlockMeta>)
    requires metadata.Valid() && metadata.file.layout.COLUMN? && 0 < span.count
             && span.first + span.count <= metadata.pages.numBlocks
    requires metadata.pages.columns > 0 && request.projected == ColumnsOf(projection)
    modifies metadata
    ensures metadata.Valid() && Covers(metadata.file, metadata.pages)
    ensures blocks == Filter(ColumnEntries(metadata.file, metadata.pages, span.first, span.first + span.count),
                             KeepsColumnBlock(metadata.file, request, span))
  {
    hide SSTableMetadataCache.Valid, StatsIn, KeepsColumnBlock, Filter, ColumnKept, ColumnInRange, Covers,
         ColumnEntries, InProjection;
    var candidates := metadata.ReadColumnMetadataRange(span.first, span.count);
    var filtered := FilterCandidateColumnBlocks(candidates.value, request.range);
    ColumnSelection(metadata.file, candidates.value, request, span);
    if filtered != [] && request.filter != [] {
      var stats := ReadStats(metadata, span, request.filter);
      filtered := PruneColumnBlocks(filtered, stats, request.filter);
    } else if request.filter != [] {
      NoneKept(filtered, ColumnKept(StatsIn(metadata.file, span, request.filter), request.filter));
    }
    blocks := ProjectColumnBlocks(filtered, projection);
  }

  /**
   make_sstable_cursor: whatever the two caches hold, the cursor emits exactly what ScanTable says;
   opening fails only where that fails, or on a projection with an unknown or repeated column.
   */
  method MakeSSTableCursor(reader: SSTableReader, metadata: SSTableMetadataCache, range: KeyRange, schema: Schema,
                           projection: seq<nat>, filter: seq<NumericPredicate>)
    returns (r: Result<TableCursor>)
    requires reader.Valid() && metadata.Valid() && metadata.file == reader.file
    requires metadata.pages.columns == Width(schema) && SortedIndex(reader.file.index)
    modifies metadata, reader.cache
    ensures reader.Valid() && reader.cache.OnlyRead(reader.table)
    ensures r.Ok? ==>
              Emits(r.value, ScanTable(reader.file, schema, Request(range, ColumnsOf(projection), filter)))
              && NewOver(r.value, reader)
    ensures r.Err? ==> ScanTable(reader.file, schema, Request(range, ColumnsOf(projection), filter)).Err?
                       || !GoodProjection(Width(schema), projection)
    ensures metadata.Valid()
  {
    hide SSTableMetadataCache.Valid, SSTableReader.Valid, SelectSpan, EmitRowBlocks, EmitColumnBlocks,
         KeepsRowBlock, KeepsColumnBlock, Filter, GoodProjection;
    var request := Request(range, ColumnsOf(projection), filter);
    metadata.Covered();
    var selected := SelectMetadataRange(reader.file.index, range, reader.file.numBlocks);
    if selected.Err? { return Err; }
    var span := selected.value;
    if span.count == 0 { return Ok(NoCursor); }
    SpanInside(reader.file.index, range, reader.file.numBlocks);
    if reader.file.layout.ROW? {
      r := OpenRowCursor(reader, metadata, request, schema, projection, span);
    } else {
      r := OpenColumnCursor(reader, metadata, request, schema, projection, span);
    }
  }

  lemma {:induction false} SpanInside(index: seq<IndexEntry>, range: KeyRange, total: nat)
    requires SelectSpan(index, range, total).Ok?
    ensures var span := SelectSpan(index, range, total).value; span.first + span.count <= total
  {
  }

  method OpenRowCursor(reader: SSTableReader, metadata: SSTableMetadataCache, request: Request, schema: Schema,
                       projection: seq<nat>, span: BlockSpan)
    returns (r: Result<TableCursor>)
    requires reader.Valid() && metadata.Valid() && metadata.file == reader.file && reader.file.layout.ROW?
    requires 0 < span.count && span.first + span.count <= metadata.pages.numBlocks
             && request.projected == ColumnsOf(projection)
    modifies metadata, reader.cache
    ensures reader.Valid() && reader.cache.OnlyRead(reader.table)
    ensures r.Ok? ==>
              Emits(r.value, ScanRowTable(reader.file, schema, request, span)) && NewOver(r.value, reader)
    ensures r.Err? ==>
              ScanRowTable(reader.file, schema, request, span).Err? || !GoodProjection(Width(schema), projection)
    ensures metadata.Valid()
  {
    hide SSTableMetadataCache.Valid, SSTableReader.Valid, KeepsRowBlock, Filter, GoodProjection;
    var blocks := SelectRowBlocks(metadata, request, span);
    KeptAreListed(reader.file.rowMeta, span.first, span.first + span.count, KeepsRowBlock(reader.file, request, span));
    if blocks == [] { return Ok(NoCursor); }
    var mask := MakeProjectionMask(Width(schema), projection);
    if mask.Err? { return Err; }
    var cursor := new SSTableRowCursor(reader, blocks, schema, mask.value, request);
    assert blocks[0..] == blocks;
    var ok := cursor.LoadNextNonEmptyBlock();
    return if ok then Ok(OverRows(cursor)) else Err;
  }

  method OpenColumnCursor(reader: SSTableReader, metadata: SSTableMetadataCache, request: Request, schema: Schema,
                          projection: seq<nat>, span: BlockSpan)
    returns (r: Result<TableCursor>)
    requires reader.Valid() && metadata.Valid() && metadata.file == reader.file && reader.file.layout.COLUMN?
    requires metadata.pages.columns == Width(schema) && request.projected == ColumnsOf(projection)
    requires 0 < span.count && span.first + span.count <= metadata.pages.numBlocks
    modifies metadata, reader.cache
    ensures reader.Valid() && reader.cache.OnlyRead(reader.table)
    ensures r.Ok? ==>
              Emits(r.value, ScanColumnTable(reader.file, schema, request, span)) && NewOver(r.value, reader)
    ensures r.Err? ==> ScanColumnTable(reader.file, schema, request, span).Err?
    ensures metadata.Valid()
  {
    hide SSTableMetadataCache.Valid, SSTableReader.Valid, KeepsColumnBlock, Filter, Covers;
    metadata.Covered();
    ColumnSpan(reader.file, metadata.pages, span.first, span.first + span.count);
    var blocks := SelectColumnBlocks(metadata, request, projection, span);
    KeptAreListed(reader.file.columnMeta, span.first * Width(schema), (span.first + span.count) * Width(schema),
                  KeepsColumnBlock(reader.file, request, span));
    if blocks == [] { return Ok(NoCursor); }
    var cursor := new SSTableColumnCursor(reader, blocks, schema, request);
    assert blocks[0..] == blocks;
    var ok := cursor.LoadNextNonEmptyBlock();
    return if ok then Ok(OverColumns(cursor)) else Err;
  }

  lemma {:induction false} ColumnSpan(file: TableFile, pages: Pages, from: nat, end: nat)
    requires |file.columnMeta| == pages.numBlocks * pages.columns && from <= end <= pages.numBlocks
    ensures 0 <= from * pages.columns <= end * pages.columns <= |file.columnMeta|
    ensures ColumnEntries(file, pages, from, end) == file.columnMeta[from * pages.columns..end * pages.columns]
  {
    MulSum(from, end - from, pages.columns);
    MulSum(end, pages.numBlocks - end, pages.columns);
  }
}
