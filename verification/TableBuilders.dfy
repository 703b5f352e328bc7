/** The table builders: rows in key order go in, the files of a table come out. */
module TableBuilders {
  import opened Seqs
  import opened Storage
  import opened Codec
  import opened Pruning
  import opened SparseIndex
  import opened Tables
  import opened BlockBuilders

  datatype BuildResult = BuildResult(file: TableFile, min: Key, max: Key)

  /** What a finished build of these rows is: their table, and the bounds of their keys. */
  ghost predicate Built(r: BuildResult, layout: Layout, schema: Schema, rows: seq<Row>) {
    && rows != [] && r.file.layout == layout && IsTable(r.file, schema, rows)
    && r.min == rows[0].key && r.max == rows[|rows| - 1].key
  }

  ghost predicate GoodOptions(options: IndexOptions) { 1 <= options.minStep <= options.maxStep }

  lemma {:induction false} AscendingSnoc(rows: seq<Row>, row: Row)
    requires WeaklyAscending(rows) && (rows != [] ==> rows[|rows| - 1].key <= row.key)
    ensures WeaklyAscending(rows + [row])
  {
  }

  lemma {:induction false} AscendingPart(rows: seq<Row>, front: seq<Row>, back: seq<Row>)
    requires rows == front + back && WeaklyAscending(rows)
    ensures WeaklyAscending(back)
  {
    forall i, j | 0 <= i <= j < |back| ensures back[i].key <= back[j].key {
      assert back[i] == rows[|front| + i] && back[j] == rows[|front| + j];
    }
  }

  // ---------- Statistics per block, turned into statistics per column ----------

  ghost predicate BlockStatsAre(stats: seq<map<nat, BlockStats>>, blocks: seq<Block>, schema: Schema) {
    |stats| == |blocks| && forall i :: 0 <= i < |blocks| ==> stats[i] == AllStats(blocks[i], schema)
  }

  /** write_stats_file. */
  method WriteStats(blockStats: seq<map<nat, BlockStats>>, schema: Schema, ghost blocks: seq<Block>)
    returns (stats: map<nat, seq<BlockStats>>)
    requires BlockStatsAre(blockStats, blocks, schema)
    ensures stats == StatsOfBlocks(schema, blocks)
  {
    hide StatsOf;
    stats := map[];
    for c: nat := 0 to Width(schema)
      invariant forall k: nat :: k in stats <==> k < c && IsNumericColumn(schema, k)
      invariant forall k :: k in stats ==> stats[k] == StatsOfBlocks(schema, blocks)[k]
    {
      if IsNumericColumn(schema, c) {
        var column := [];
        for i := 0 to |blockStats|
          invariant |column| == i && forall k :: 0 <= k < i ==> column[k] == StatsOf(blocks[k], c, schema[c - 1])
        {
          assert c in AllStats(blocks[i], schema);
          column := column + [blockStats[i][c]];
        }
        assert column == StatsOfBlocks(schema, blocks)[c];
        stats := stats[c := column];
      }
    }
  }

  /** There are at most as many blocks as rows. */
  lemma {:induction false} BlocksBelowRows(blocks: seq<Block>)
    ensures |blocks| <= |AllRows(blocks)|
  {
    if blocks != [] { BlocksBelowRows(blocks[1..]); }
  }

  // ---------- Row layout ----------

  lemma {:induction false} PiecesSnoc(blocks: seq<Block>, b: Block)
    ensures RowPieces(blocks + [b]) == RowPieces(blocks) + [EncodeRows(b)]
    ensures Flatten(RowPieces(blocks + [b])) == Flatten(RowPieces(blocks)) + EncodeRows(b)
  {
    FlattenSnoc(RowPieces(blocks), EncodeRows(b));
  }

  /** One more block leaves the metadata of the earlier ones as it was. */
  lemma {:induction false} RowMetasSnoc(blocks: seq<Block>, b: Block)
    ensures RowMetas(blocks + [b])
            == RowMetas(blocks) + [RowBlockMeta(MinKey(b), MaxKey(b), |Flatten(RowPieces(blocks))|, |EncodeRows(b)|,
                                                |b|, |blocks|)]
  {
    hide Flatten, EncodeRows;
    PiecesSnoc(blocks, b);
    var more := blocks + [b];
    forall i | 0 <= i < |more|
      ensures RowMetas(more)[i] == if i < |blocks| then RowMetaAt(blocks, i) else RowMetaAt(more, |blocks|)
    {
      assert i <= |blocks|;
      assert RowPieces(more)[..i] == RowPieces(blocks)[..i];
    }
    assert RowPieces(more)[..|blocks|] == RowPieces(blocks);
  }

  class RowSSTableBuilder {
    const schema: Schema
    const options: IndexOptions
    const block: RowSSTBlockBuilder
    var data: Bytes
    var metas: seq<RowBlockMeta>
    var candidates: seq<Key>
    var blockStats: seq<map<nat, BlockStats>>
    var globalMin: Key
    var globalMax: Key
    var lastKey: Key
    var firstRow: bool
    var finished: bool
    ghost var blocks: seq<Block>
    ghost var rows: seq<Row>

    /** The finished blocks are written out. */
    ghost predicate Flushed()
      reads this`data, this`metas, this`candidates, this`blockStats, this`blocks
    {
      && data == Flatten(RowPieces(blocks)) && metas == RowMetas(blocks) && candidates == Mins(blocks)
      && BlockStatsAre(blockStats, blocks, schema)
    }

    /** The rows of the open block are in the block builder. */
    ghost predicate Written()
      reads this, block
    {
      && block.Valid() && block.schema == schema && GoodOptions(options) && Flushed()
      && rows == AllRows(blocks) + block.rows
    }

    ghost predicate Valid()
      reads this, block
    {
      && Written() && WeaklyAscending(rows) && firstRow == (rows == [])
      && (rows != [] ==> lastKey == rows[|rows| - 1].key && block.rows != [])
      && globalMin == MinOfKeys(rows) && globalMax == MaxOfKeys(rows)
    }

    constructor (schema: Schema, options: IndexOptions, target: nat)
      requires target > 0 && GoodOptions(options)
      ensures Valid() && !finished && rows == [] && fresh(block) && this.schema == schema
    {
      this.schema, this.options := schema, options;
      block := new RowSSTBlockBuilder(schema, target);
      data, metas, candidates, blockStats := [], [], [], [];
      globalMin, globalMax, lastKey, firstRow, finished := INT64_MAX, INT64_MIN, 0, true, false;
      blocks, rows := [], [];
    }

    method FlushBlock()
      requires Written() && block.rows != [] && WeaklyAscending(rows)
      modifies this`data, this`metas, this`candidates, this`blockStats, this`blocks, block
      ensures Written() && block.rows == [] && blocks == old(blocks) + [old(block.rows)]
    {
      hide Flatten, EncodeRows, AllStats, MinOfKeys, MaxOfKeys, RowMetas, RowPieces, WeaklyAscending,
           RowSSTBlockBuilder.Valid;
      ghost var done: Block := block.rows;
      AscendingPart(rows, AllRows(blocks), done);
      BoundsOfAscending(done);
      PiecesSnoc(blocks, done);
      RowMetasSnoc(blocks, done);
      FlattenSnoc<Row>(blocks, done);
      var result := block.Finish();
      var r := result.value;
      metas := metas + [RowBlockMeta(r.min, r.max, |data|, |r.data|, r.count, |metas|)];
      data := data + r.data;
      candidates := candidates + [r.min];
      blockStats := blockStats + [r.stats];
      blocks := blocks + [done];
      assert AllRows(blocks) + [] == AllRows(blocks);
    }

    /** add: refuses a key below the last one; an equal key is accepted. */
    method Add(row: Row) returns (ok: bool)
      requires Valid() && RowFits(row, schema)
      modifies this, block
      ensures finished == old(finished) && (ok ==> Valid())
      ensures ok <==> !old(finished) && (old(rows) == [] || old(rows[|rows| - 1].key) <= row.key)
      ensures ok ==> rows == old(rows) + [row]
      ensures ok ==> var cut: seq<seq<Row>> := if |EncodeRows(old(block.rows))| >= block.target
                                               then [old(block.rows)] else [];
                     blocks == old(blocks) + cut && block.rows == (if cut == [] then old(block.rows) else []) + [row]
    {
      hide Flushed, MinOfKeys, MaxOfKeys, RowSSTBlockBuilder.Valid, AllRows, WeaklyAscending;
      if finished { return false; }
      block.FullMeans();
      if block.rows == [] { block.OpenWhenEmpty(); }
      if block.full {
        FlushBlock();
        block.OpenWhenEmpty();
      }
      if !firstRow && row.key < lastKey { return false; }
      PutRow(row);
      return true;
    }

    method PutRow(row: Row)
      requires Written() && WeaklyAscending(rows) && globalMin == MinOfKeys(rows) && globalMax == MaxOfKeys(rows)
      requires |row.cells| == |schema| && !block.full && (rows != [] ==> rows[|rows| - 1].key <= row.key)
      modifies this`firstRow, this`lastKey, this`globalMin, this`globalMax, this`rows, block
      ensures Valid() && rows == old(rows) + [row] && blocks == old(blocks) && block.rows == old(block.rows) + [row]
    {
      hide Flushed, MinOfKeys, MaxOfKeys, RowSSTBlockBuilder.Valid, AllRows, WeaklyAscending;
      AscendingSnoc(rows, row);
      BoundsSnoc(rows, row);
      ghost var before := block.rows;
      assert AllRows(blocks) + (before + [row]) == rows + [row];
      var low, high := if row.key < globalMin then row.key else globalMin,
          if globalMax < row.key then row.key else globalMax;
      firstRow, lastKey, globalMin, globalMax, rows := false, row.key, low, high, rows + [row];
      var added := block.Add(row);
    }

    /** finish: an empty or finished build fails; else the files hold exactly the rows that were added. */
    method Finish() returns (r: Result<BuildResult>)
      requires Valid() && |rows| < U32_LIMIT
      modifies this, block
      ensures r.Err? <==> old(finished) || old(rows) == []
      ensures r.Ok? ==> finished && Built(r.value, ROW, schema, old(rows))
      ensures r.Ok? ==> blocks == old(blocks) + [old(block.rows)] && |blocks| < U32_LIMIT
                        && r.value.file == FileOf(ROW, schema, blocks, ChooseStep(|blocks|, options))
    {
      hide Flatten, EncodeRows, AllStats, MinOfKeys, MaxOfKeys, RowMetas, RowPieces, RowSSTBlockBuilder.Valid,
           BlockStatsAre, Mins, WeaklyAscending, StatsOfBlocks, Entries;
      if finished || firstRow { return Err; }
      FlushBlock();
      BlocksBelowRows(blocks);
      var step := ChooseStep(|metas|, options);
      var index := WriteIndex(candidates, step);
      var stats := WriteStats(blockStats, schema, blocks);
      finished := true;
      var file := TableFile(ROW, data, metas, [], index, stats, |metas|);
      assert AllRows(blocks) + [] == AllRows(blocks);
      BoundsOfAscending(rows);
      assert file == FileOf(ROW, schema, blocks, step);
      r := Ok(BuildResult(file, globalMin, globalMax));
    }
  }

  // ---------- Column layout ----------

  lemma {:induction false} ColumnPiecesSnoc(width: nat, blocks: seq<Block>, b: Block)
    ensures ColumnPieces(width, blocks + [b]) == ColumnPieces(width, blocks) + BlockPieces(width, b)
    ensures |ColumnPieces(width, blocks)| == |blocks| * width
  {
    var before := Map(blocks, (x: Block) => BlockPieces(width, x));
    FlattenSnoc(before, BlockPieces(width, b));
    assert Map(blocks + [b], (x: Block) => BlockPieces(width, x)) == before + [BlockPieces(width, b)];
    FlattenUniformLength(before, width);
  }

  /** Metadata of the physical blocks of a logical block that starts at `offset`. */
  function NewGroup(width: nat, b: Block, offset: nat, id: nat): (group: seq<ColumnBlockMeta>)
    ensures |group| == width
  {
    seq(width, c requires 0 <= c < width =>
      ColumnBlockMeta(MinKey(b), MaxKey(b), offset + |Flatten(BlockPieces(width, b)[..c])|, |ColumnPiece(b, c)|, |b|,
                      id, c))
  }

  lemma {:induction false} OffsetInFront(pieces: seq<Bytes>, more: seq<Bytes>, k: nat)
    requires k <= |pieces|
    ensures Offset(pieces + more, k) == Offset(pieces, k)
  {
    assert (pieces + more)[..k] == pieces[..k];
  }

  lemma {:induction false} OffsetBehind(pieces: seq<Bytes>, more: seq<Bytes>, c: nat)
    requires c <= |more|
    ensures Offset(pieces + more, |pieces| + c) == |Flatten(pieces)| + |Flatten(more[..c])|
  {
    assert (pieces + more)[..|pieces| + c] == pieces + more[..c];
    FlattenConcat(pieces, more[..c]);
  }

  lemma {:induction false} GroupPosition(width: nat, blocks: nat, i: nat, c: nat)
    requires i < blocks && c < width
    ensures 0 <= i * width + c < blocks * width
  {
    MulSum(i, 1, width);
    MulSum(i + 1, blocks - i - 1, width);
  }

  /** One more block leaves the groups of the earlier ones as they were. */
  lemma {:induction false} ColumnGroupsSnoc(width: nat, blocks: seq<Block>, b: Block)
    ensures ColumnGroups(width, blocks + [b])
            == ColumnGroups(width, blocks) + [NewGroup(width, b, |Flatten(ColumnPieces(width, blocks))|, |blocks|)]
  {
    hide Flatten, ColumnPieces, ColumnPiece, BlockPieces, Offset;
    ColumnPiecesSnoc(width, blocks, b);
    var more, pieces, last := blocks + [b], ColumnPieces(width, blocks), BlockPieces(width, b);
    forall i | 0 <= i < |blocks|
      ensures ColumnGroup(width, more, i) == ColumnGroup(width, blocks, i)
    {
      forall c | 0 <= c < width ensures ColumnMetaAt(width, more, i, c) == ColumnMetaAt(width, blocks, i, c) {
        GroupPosition(width, |blocks|, i, c);
        OffsetInFront(pieces, last, i * width + c);
      }
    }
    var fresh0 := NewGroup(width, b, |Flatten(pieces)|, |blocks|);
    forall c | 0 <= c < width ensures ColumnMetaAt(width, more, |blocks|, c) == fresh0[c] {
      OffsetBehind(pieces, last, c);
    }
    assert ColumnGroup(width, more, |blocks|) == fresh0;
  }

  class ColumnSSTableBuilder {
    const schema: Schema
    const options: IndexOptions
    const targetRows: nat
    const columns: seq<ColumnSSTBlockBuilder>
    var keyBuffer: seq<Key>
    var data: Bytes
    var metas: seq<ColumnBlockMeta>
    var blockId: nat
    var candidates: seq<Key>
    var blockStats: seq<map<nat, BlockStats>>
    var globalMin: Key
    var globalMax: Key
    var lastKey: Key
    var firstRow: bool
    var finished: bool
    ghost var open: seq<Row>
    ghost var blocks: seq<Block>
    ghost var rows: seq<Row>

    /** One block builder for each value column, no two the same object. */
    ghost predicate Builders() {
      && |columns| == |schema| && targetRows > 0 && GoodOptions(options)
      && (forall i, j :: 0 <= i < j < |columns| ==> columns[i] != columns[j])
      && (forall i :: 0 <= i < |columns| ==> columns[i].column == i + 1 && columns[i].valueType == schema[i])
    }

    /** The column builders from index i on hold `late`, those before it `early`. */
    ghost predicate Hold(early: seq<Row>, late: seq<Row>, i: nat)
      reads columns
    {
      forall k :: 0 <= k < |columns| ==> columns[k].Valid() && columns[k].rows == if k < i then early else late
    }

    ghost predicate Flushed()
      reads this`data, this`metas, this`blockId, this`candidates, this`blockStats, this`blocks
    {
      && data == Flatten(ColumnPieces(Width(schema), blocks)) && metas == Flatten(ColumnGroups(Width(schema), blocks))
      && blockId == |blocks| && candidates == Mins(blocks) && BlockStatsAre(blockStats, blocks, schema)
    }

    /** What is kept about all rows so far. */
    ghost predicate Noted()
      reads this`rows, this`firstRow, this`lastKey, this`globalMin, this`globalMax
    {
      && WeaklyAscending(rows) && firstRow == (rows == []) && (rows != [] ==> lastKey == rows[|rows| - 1].key)
      && globalMin == MinOfKeys(rows) && globalMax == MaxOfKeys(rows)
    }

    ghost predicate Valid()
      reads this, columns
    {
      && Builders() && Hold(open, open, 0) && Flushed() && Noted()
      && keyBuffer == KeysOf(open) && rows == AllRows(blocks) + open
      && (rows != [] ==> open != [])
    }

    constructor (schema: Schema, options: IndexOptions, targetRows: nat, targetBytes: nat)
      requires targetRows > 0 && targetBytes > 0 && GoodOptions(options)
      ensures Valid() && !finished && rows == [] && this.schema == schema
      ensures forall i :: 0 <= i < |columns| ==> fresh(columns[i])
    {
      hide ColumnSSTBlockBuilder.Valid;
      var builders: seq<ColumnSSTBlockBuilder> := [];
      for i := 0 to |schema|
        invariant |builders| == i
        invariant forall k :: 0 <= k < i ==> fresh(builders[k]) && builders[k].Valid() && builders[k].rows == []
        invariant forall k :: 0 <= k < i ==> builders[k].column == k + 1 && builders[k].valueType == schema[k]
        invariant forall j, k :: 0 <= j < k < i ==> builders[j] != builders[k]
      {
        var c := new ColumnSSTBlockBuilder(i + 1, schema[i], targetBytes);
        builders := builders + [c];
      }
      this.schema, this.options, this.targetRows, columns := schema, options, targetRows, builders;
      keyBuffer, data, metas, blockId, candidates, blockStats := [], [], [], 0, [], [];
      globalMin, globalMax, lastKey, firstRow, finished := INT64_MAX, INT64_MIN, 0, true, false;
      open, blocks, rows := [], [], [];
    }

    method AnyColBuilderFull() returns (full: bool)
      ensures full <==> exists i :: 0 <= i < |columns| && columns[i].full
    {
      for i := 0 to |columns|
        invariant forall k :: 0 <= k < i ==> !columns[k].full
      {
        if columns[i].full { return true; }
      }
      return false;
    }

    lemma {:induction false} OnePerColumn()
      requires Builders()
      ensures |columns| == |schema|
    {
    }

    lemma {:induction false} AllHold(done: seq<Row>)
      requires Hold([], done, |columns|)
      ensures Hold([], [], 0)
    {
    }

    /** The block of one value column, whose builder starts afresh. */
    method FinishColumn(i: nat, ghost done: Block) returns (r: ColumnBlockResult)
      requires Builders() && Hold([], done, i) && i < |columns| && WeaklyAscending(done)
      modifies columns
      ensures Hold([], done, i + 1)
      ensures r == ColumnBlockResult(EncodeColumn(CellsOf(done, i + 1)), MinKey(done), MaxKey(done), |done|,
                                     StatsOf(done, i + 1, schema[i]))
    {
      hide ColumnSSTBlockBuilder.Valid, EncodeColumn, StatsOf, MinOfKeys, MaxOfKeys, WeaklyAscending;
      BoundsOfAscending(done);
      var result := columns[i].Finish();
      r := result.value;
    }

    /** The bytes and the metadata of the key block and of every column block, and the statistics. */
    method WriteBlocks(ghost done: Block)
      returns (bytes: Bytes, group: seq<ColumnBlockMeta>, stats: map<nat, BlockStats>)
      requires Builders() && Hold([], done, 0) && keyBuffer == KeysOf(done) && WeaklyAscending(done)
      modifies columns
      ensures Hold([], [], 0)
      ensures bytes == Flatten(BlockPieces(Width(schema), done))
      ensures group == NewGroup(Width(schema), done, |data|, blockId)
      ensures stats == AllStats(done, schema)
    {
      hide EncodeKeys, EncodeColumn, StatsOf, AllStats, Flatten, WeaklyAscending, NewGroup, CellsOf, Builders, Hold;
      OnePerColumn();
      bytes := EncodeKeys(keyBuffer);
      group := [ColumnBlockMeta(keyBuffer[0], keyBuffer[|keyBuffer| - 1], |data|, |bytes|, |keyBuffer|, blockId, 0)];
      stats := map[];
      FirstPiece(Width(schema), done, |data|, blockId);
      for i := 0 to |columns|
        invariant Hold([], done, i)
        invariant bytes == Flatten(BlockPieces(Width(schema), done)[..i + 1])
        invariant group == NewGroup(Width(schema), done, |data|, blockId)[..i + 1]
        invariant StatsUpTo(stats, done, schema, i + 1)
      {
        var r := FinishColumn(i, done);
        NextPiece(Width(schema), done, i + 1, |data|, blockId);
        group := group + [ColumnBlockMeta(r.min, r.max, |data| + |bytes|, |r.data|, r.count, blockId, i + 1)];
        bytes := bytes + r.data;
        if IsNumericColumn(schema, i + 1) { stats := stats[i + 1 := r.stats]; }
      }
      assert BlockPieces(Width(schema), done)[..Width(schema)] == BlockPieces(Width(schema), done);
      StatsOfAll(stats, done, schema);
      AllHold(done);
    }

    method FlushBlock()
      requires Valid() && open != []
      modifies this`data, this`metas, this`blockId, this`candidates, this`blockStats, this`keyBuffer, this`open,
               this`blocks, columns
      ensures Builders() && Hold(open, open, 0) && Flushed() && open == [] && keyBuffer == []
      ensures rows == AllRows(blocks) && blocks == old(blocks) + [old(open)]
    {
      hide Flatten, AllStats, ColumnGroups, ColumnPieces, NewGroup, BlockPieces, WeaklyAscending, Noted,
           Builders, ColumnSSTBlockBuilder.Valid;
      NotedFacts();
      ghost var done: Block := open;
      AscendingPart(rows, AllRows(blocks), done);
      ColumnPiecesSnoc(Width(schema), blocks, done);
      ColumnGroupsSnoc(Width(schema), blocks, done);
      FlattenConcat(ColumnPieces(Width(schema), blocks), BlockPieces(Width(schema), done));
      FlattenSnoc(ColumnGroups(Width(schema), blocks), NewGroup(Width(schema), done, |data|, blockId));
      FlattenSnoc<Row>(blocks, done);
      var bytes, group, stats := WriteBlocks(done);
      metas := metas + group;
      data := data + bytes;
      candidates := candidates + [keyBuffer[0]];
      blockStats := blockStats + [stats];
      blockId := blockId + 1;
      keyBuffer := [];
      open := [];
      blocks := blocks + [done];
    }

    /** add: refuses a key below the last one; an equal key is accepted. */
    method Add(row: Row) returns (ok: bool)
      requires Valid() && RowFits(row, schema)
      modifies this, columns
      ensures finished == old(finished) && (ok ==> Valid())
      ensures ok <==> !old(finished) && (old(rows) == [] || old(rows[|rows| - 1].key) <= row.key)
      ensures ok ==> rows == old(rows) + [row]
      ensures ok ==> old(BlockFull()) ==> blocks == old(blocks) + [old(open)] && open == [row]
      ensures ok ==> !old(BlockFull()) ==> blocks == old(blocks) && open == old(open) + [row]
    {
      hide Flushed, AllRows, Hold, Builders, Noted, RowFits, KeysOf, BlockFull;
      WidthOf(row, schema);
      NotedFacts();
      NoKeys(open);
      if finished { return false; }
      if !firstRow && row.key < lastKey { return false; }
      var full := AnyColBuilderFull();
      FullMeans();
      if |keyBuffer| >= targetRows || full {
        if open == [] { NothingFull(); }
        FlushBlock();
        NoKeys(open);
        NothingFull();
      }
      PutRow(row);
      return true;
    }

    lemma {:induction false} NotedFacts()
      requires Noted()
      ensures firstRow == (rows == []) && (rows != [] ==> lastKey == rows[|rows| - 1].key) && WeaklyAscending(rows)
    {
    }

    /** The open block has its rows together, or one of its column blocks its bytes. */
    ghost predicate BlockFull()
      reads this`open, columns
    {
      || |open| >= targetRows
      || exists i :: 0 <= i < |columns| && |EncodeColumn(CellsOf(open, columns[i].column))| >= columns[i].target
    }

    lemma {:induction false} FullMeans()
      requires Builders() && Hold(open, open, 0) && keyBuffer == KeysOf(open)
      ensures BlockFull() <==> |keyBuffer| >= targetRows || exists i :: 0 <= i < |columns| && columns[i].full
    {
      hide EncodeColumn, ColumnSSTBlockBuilder.Valid;
      forall i | 0 <= i < |columns|
        ensures columns[i].full <==> |EncodeColumn(CellsOf(open, columns[i].column))| >= columns[i].target
      {
        columns[i].FullMeans();
      }
    }

    /** An empty block is not full. */
    lemma {:induction false} NothingFull()
      requires Builders() && Hold(open, open, 0) && open == [] && keyBuffer == []
      ensures |keyBuffer| < targetRows && forall i :: 0 <= i < |columns| ==> !columns[i].full
    {
      forall i | 0 <= i < |columns| ensures !columns[i].full { columns[i].OpenWhenEmpty(); }
    }

    method PutRow(row: Row)
      requires Builders() && Hold(open, open, 0) && Flushed() && keyBuffer == KeysOf(open)
               && rows == AllRows(blocks) + open && Noted()
      requires |row.cells| == |schema| && (rows != [] ==> rows[|rows| - 1].key <= row.key)
      requires forall i :: 0 <= i < |columns| ==> !columns[i].full
      modifies this`firstRow, this`lastKey, this`globalMin, this`globalMax, this`rows, this`keyBuffer, this`open,
               columns
      ensures Valid() && rows == old(rows) + [row] && open == old(open) + [row]
    {
      hide Flushed, Noted, AllRows, Builders, Hold, KeysOf;
      KeysSnoc(open, row);
      ghost var before := open;
      assert AllRows(blocks) + (open + [row]) == rows + [row];
      NoteRow(row);
      keyBuffer, open := keyBuffer + [row.key], open + [row];
      PutCells(row, before);
    }

    method NoteRow(row: Row)
      requires Noted() && (rows != [] ==> rows[|rows| - 1].key <= row.key)
      modifies this`firstRow, this`lastKey, this`globalMin, this`globalMax, this`rows
      ensures Noted() && rows == old(rows) + [row]
    {
      hide MinOfKeys, MaxOfKeys, WeaklyAscending;
      AscendingSnoc(rows, row);
      BoundsSnoc(rows, row);
      globalMin := if row.key < globalMin then row.key else globalMin;
      globalMax := if globalMax < row.key then row.key else globalMax;
      firstRow, lastKey, rows := false, row.key, rows + [row];
    }

    /** Every column builder takes in its cell. */
    method PutCells(row: Row, ghost before: seq<Row>)
      requires Builders() && Hold(before, before, 0) && |row.cells| == |schema|
      requires forall i :: 0 <= i < |columns| ==> !columns[i].full
      modifies columns
      ensures Hold(before + [row], before + [row], 0)
    {
      hide ColumnSSTBlockBuilder.Valid;
      for i := 0 to |columns|
        invariant Hold(before + [row], before, i)
        invariant forall k :: i <= k < |columns| ==> !columns[k].full
      {
        var added := columns[i].Add(row);
      }
    }

    /** finish: an empty or finished build fails; else the files hold exactly the rows that were added. */
    method Finish() returns (r: Result<BuildResult>)
      requires Valid() && |rows| < U32_LIMIT
      modifies this, columns
      ensures r.Err? <==> old(finished) || old(rows) == []
      ensures r.Ok? ==> finished && Built(r.value, COLUMN, schema, old(rows))
      ensures r.Ok? ==> blocks == old(blocks) + [old(open)] && |blocks| < U32_LIMIT
                        && r.value.file == FileOf(COLUMN, schema, blocks, ChooseStep(|blocks|, options))
    {
      hide Flatten, AllStats, MinOfKeys, MaxOfKeys, ColumnGroups, ColumnPieces, ColumnSSTBlockBuilder.Valid,
           BlockStatsAre, Mins, WeaklyAscending, StatsOfBlocks, Entries, Hold;
      if finished || firstRow { return Err; }
      FlushBlock();
      BlocksBelowRows(blocks);
      var step := ChooseStep(blockId, options);
      var index := WriteIndex(candidates, step);
      var stats := WriteStats(blockStats, schema, blocks);
      finished := true;
      var file := TableFile(COLUMN, data, [], metas, index, stats, blockId);
      BoundsOfAscending(rows);
      assert file == FileOf(COLUMN, schema, blocks, step);
      r := Ok(BuildResult(file, globalMin, globalMax));
    }
  }

  lemma {:induction false} WidthOf(row: Row, schema: Schema)
    requires RowFits(row, schema)
    ensures |row.cells| == |schema|
  {
  }

  lemma {:induction false} NoKeys(rows: seq<Row>)
    ensures rows == [] ==> KeysOf(rows) == []
    ensures |KeysOf(rows)| == |rows|
  {
  }

  lemma {:induction false} KeysSnoc(rows: seq<Row>, row: Row)
    ensures KeysOf(rows + [row]) == KeysOf(rows) + [row.key]
  {
  }

  lemma {:induction false} FirstPiece(width: nat, b: Block, offset: nat, id: nat)
    requires width > 0
    ensures Flatten(BlockPieces(width, b)[..1]) == EncodeKeys(KeysOf(b))
    ensures NewGroup(width, b, offset, id)[..1]
            == [ColumnBlockMeta(KeysOf(b)[0], KeysOf(b)[|b| - 1], offset, |EncodeKeys(KeysOf(b))|, |KeysOf(b)|, id, 0)]
  {
    assert BlockPieces(width, b)[..1] == [EncodeKeys(KeysOf(b))];
    assert Flatten([EncodeKeys(KeysOf(b))]) == EncodeKeys(KeysOf(b)) + Flatten([]);
    assert Flatten(BlockPieces(width, b)[..0]) == [];
  }

  lemma {:induction false} NextPiece(width: nat, b: Block, c: nat, offset: nat, id: nat)
    requires 0 < c < width
    ensures var before := Flatten(BlockPieces(width, b)[..c]);
            && Flatten(BlockPieces(width, b)[..c + 1]) == before + EncodeColumn(CellsOf(b, c))
            && NewGroup(width, b, offset, id)[..c + 1]
               == NewGroup(width, b, offset, id)[..c]
                  + [ColumnBlockMeta(MinKey(b), MaxKey(b), offset + |before|, |EncodeColumn(CellsOf(b, c))|, |b|, id,
                                     c)]
  {
    hide EncodeColumn, CellsOf;
    assert BlockPieces(width, b)[..c + 1] == BlockPieces(width, b)[..c] + [EncodeColumn(CellsOf(b, c))];
    FlattenSnoc(BlockPieces(width, b)[..c], EncodeColumn(CellsOf(b, c)));
  }

  /** The statistics of the numeric columns below `end`. */
  ghost predicate StatsUpTo(stats: map<nat, BlockStats>, rows: seq<Row>, schema: Schema, end: nat) {
    && (forall c: nat :: c in stats <==> c < end && IsNumericColumn(schema, c))
    && forall c: nat :: c in stats ==> stats[c] == StatsOf(rows, c, schema[c - 1])
  }

  lemma {:induction false} StatsOfAll(stats: map<nat, BlockStats>, rows: seq<Row>, schema: Schema)
    requires StatsUpTo(stats, rows, schema, Width(schema))
    ensures stats == AllStats(rows, schema)
  {
    hide StatsOf;
  }
}
