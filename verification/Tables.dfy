/** What the files of one sorted table contain, as a function of how its rows were cut into blocks. */
module Tables {
  import opened Seqs
  import opened Storage
  import opened Codec
  import opened SparseIndex
  import opened Pruning

  datatype Layout = ROW | COLUMN

  datatype RowBlockMeta =
    RowBlockMeta(minKey: Key, maxKey: Key, offset: nat, size: nat, rowCount: nat, blockId: nat)

  datatype ColumnBlockMeta =
    ColumnBlockMeta(minKey: Key, maxKey: Key, offset: nat, size: nat, valuesCount: nat, blockId: nat, columnIdx: nat)

  /** The data, metadata, index and statistics files of a table. */
  datatype TableFile = TableFile(
    layout: Layout,
    data: Bytes,
    rowMeta: seq<RowBlockMeta>,
    columnMeta: seq<ColumnBlockMeta>,
    index: seq<IndexEntry>,
    stats: map<nat, seq<BlockStats>>,
    numBlocks: nat)

  type Block = b: seq<Row> | b != [] witness [Row(0, [])]

  function MinKey(b: Block): Key { b[0].key }
  function MaxKey(b: Block): Key { b[|b| - 1].key }

  function Mins(blocks: seq<Block>): (mins: seq<Key>)
    ensures |mins| == |blocks|
  {
    Map(blocks, MinKey)
  }

  function Maxs(blocks: seq<Block>): (maxs: seq<Key>)
    ensures |maxs| == |blocks|
  {
    Map(blocks, MaxKey)
  }

  function AllRows(blocks: seq<Block>): seq<Row> { Flatten(blocks) }

  function Offset(pieces: seq<Bytes>, k: nat): nat
    requires k <= |pieces|
  {
    |Flatten(pieces[..k])|
  }

  function IsNumericColumn(schema: Schema, column: nat): bool {
    0 < column <= |schema| && !schema[column - 1].STRING?
  }

  function StatsOfBlocks(schema: Schema, blocks: seq<Block>): map<nat, seq<BlockStats>> {
    map c: nat | 0 <= c <= |schema| && IsNumericColumn(schema, c) ::
      Map(blocks, (b: Block) => StatsOf(b, c, schema[c - 1]))
  }

  /** Every value column of integers or doubles has statistics, one entry a block, and no other column has. */
  lemma {:induction false} StatsAreThere(schema: Schema, blocks: seq<Block>, column: nat)
    ensures column in StatsOfBlocks(schema, blocks)
            <==> 0 < column <= |schema| && (schema[column - 1] == INT64 || schema[column - 1] == DOUBLE)
    ensures column in StatsOfBlocks(schema, blocks) ==>
              var stats := StatsOfBlocks(schema, blocks)[column];
              && |stats| == |blocks|
              && forall i :: 0 <= i < |blocks| ==> stats[i] == StatsOf(blocks[i], column, schema[column - 1])
  {
  }

  // ---------- Row layout ----------

  function RowPieces(blocks: seq<Block>): seq<Bytes> { Map(blocks, (b: Block) => EncodeRows(b)) }

  function RowMetaAt(blocks: seq<Block>, i: nat): RowBlockMeta
    requires i < |blocks|
  {
    RowBlockMeta(MinKey(blocks[i]), MaxKey(blocks[i]), Offset(RowPieces(blocks), i), |EncodeRows(blocks[i])|,
                 |blocks[i]|, i)
  }

  function RowMetas(blocks: seq<Block>): (metas: seq<RowBlockMeta>)
    ensures |metas| == |blocks| && forall i :: 0 <= i < |blocks| ==> metas[i] == RowMetaAt(blocks, i)
  {
    seq(|blocks|, i requires 0 <= i < |blocks| => RowMetaAt(blocks, i))
  }

  function RowFile(schema: Schema, blocks: seq<Block>, step: nat): TableFile
    requires step >= 1
  {
    TableFile(ROW, Flatten(RowPieces(blocks)), RowMetas(blocks), [],
              Entries(Mins(blocks), step, |blocks|), StatsOfBlocks(schema, blocks), |blocks|)
  }

  // ---------- Column layout ----------

  function KeysOf(b: seq<Row>): seq<Key> { Map(b, (r: Row) => r.key) }
  function CellsOf(b: seq<Row>, column: nat): seq<Cell> { Map(b, (r: Row) => r.Lookup(column)) }

  function ColumnPiece(b: Block, column: nat): Bytes {
    if column == 0 then EncodeKeys(KeysOf(b)) else EncodeColumn(CellsOf(b, column))
  }

  /** The physical blocks of one logical block: the keys, then every value column. */
  function BlockPieces(width: nat, b: Block): (pieces: seq<Bytes>)
    ensures |pieces| == width
  {
    seq(width, c requires 0 <= c < width => ColumnPiece(b, c))
  }

  function ColumnPieces(width: nat, blocks: seq<Block>): seq<Bytes> {
    Flatten(Map(blocks, (b: Block) => BlockPieces(width, b)))
  }

  function ColumnMetaAt(width: nat, blocks: seq<Block>, i: nat, c: nat): ColumnBlockMeta
    requires i < |blocks| && c < width
  {
    FlattenUniformAt(Map(blocks, (b: Block) => BlockPieces(width, b)), width, i, c);
    ColumnBlockMeta(MinKey(blocks[i]), MaxKey(blocks[i]), Offset(ColumnPieces(width, blocks), i * width + c),
                    |ColumnPiece(blocks[i], c)|, |blocks[i]|, i, c)
  }

  function ColumnGroup(width: nat, blocks: seq<Block>, i: nat): (group: seq<ColumnBlockMeta>)
    requires i < |blocks|
    ensures |group| == width
  {
    seq(width, c requires 0 <= c < width => ColumnMetaAt(width, blocks, i, c))
  }

  function ColumnGroups(width: nat, blocks: seq<Block>): (groups: seq<seq<ColumnBlockMeta>>)
    ensures |groups| == |blocks| && Uniform(groups, width)
  {
    seq(|blocks|, i requires 0 <= i < |blocks| => ColumnGroup(width, blocks, i))
  }

  /** Physical columns of a table: the key and the value columns. */
  function Width(schema: Schema): nat { |schema| + 1 }

  function ColumnFile(schema: Schema, blocks: seq<Block>, step: nat): TableFile
    requires step >= 1
  {
    TableFile(COLUMN, Flatten(ColumnPieces(Width(schema), blocks)), [], Flatten(ColumnGroups(Width(schema), blocks)),
              Entries(Mins(blocks), step, |blocks|), StatsOfBlocks(schema, blocks), |blocks|)
  }

  function FileOf(layout: Layout, schema: Schema, blocks: seq<Block>, step: nat): TableFile
    requires step >= 1
  {
    if layout.ROW? then RowFile(schema, blocks, step) else ColumnFile(schema, blocks, step)
  }

  /** The file holds exactly these rows, cut into some blocks and indexed with some step. */
  ghost predicate IsTable(file: TableFile, schema: Schema, rows: seq<Row>) {
    exists blocks: seq<Block>, step: nat ::
      step >= 1 && AllRows(blocks) == rows && file == FileOf(file.layout, schema, blocks, step)
  }

  // ---------- Reading a block back ----------

  function Slice(data: Bytes, offset: nat, size: nat): Result<Bytes> {
    if offset + size <= |data| then Ok(data[offset..offset + size]) else Err
  }

  /** Rows of a row block, masked by the projection. */
  function ReadRowBlock(file: TableFile, meta: RowBlockMeta, schema: Schema, projected: set<nat>): Result<seq<Row>> {
    var bytes :- Slice(file.data, meta.offset, meta.size);
    var rows :- ReadRows(meta.rowCount, schema, projected, bytes);
    Ok(rows.value)
  }

  lemma {:induction false} PieceSlice(pieces: seq<Bytes>, k: nat)
    requires k < |pieces|
    ensures Slice(Flatten(pieces), Offset(pieces, k), |pieces[k]|) == Ok(pieces[k])
  {
    FlattenPart(pieces, k);
  }

  lemma {:induction false} RowSlice(schema: Schema, blocks: seq<Block>, step: nat, i: nat)
    requires step >= 1 && i < |blocks|
    ensures var meta := RowMetaAt(blocks, i);
            Slice(RowFile(schema, blocks, step).data, meta.offset, meta.size) == Ok(EncodeRows(blocks[i]))
  {
    PieceSlice(RowPieces(blocks), i);
  }

  lemma {:induction false} ReadRowBlockBack(schema: Schema, blocks: seq<Block>, step: nat, i: nat, projected: set<nat>)
    requires step >= 1 && i < |blocks| && RowsFit(blocks[i], schema)
    ensures ReadRowBlock(RowFile(schema, blocks, step), RowMetaAt(blocks, i), schema, projected)
            == Ok(MaskRows(blocks[i], projected))
  {
    RowSlice(schema, blocks, step, i);
    RowBlockRoundTrip(blocks[i], schema, projected, []);
    assert EncodeRows(blocks[i]) + [] == EncodeRows(blocks[i]);
  }

  function ReadKeyBlock(file: TableFile, meta: ColumnBlockMeta): Result<seq<Key>> {
    var bytes :- Slice(file.data, meta.offset, meta.size);
    var keys :- ReadKeys(meta.valuesCount, bytes);
    Ok(keys.value)
  }

  function ReadCellBlock(file: TableFile, meta: ColumnBlockMeta, t: ValueType): Result<seq<Cell>> {
    var bytes :- Slice(file.data, meta.offset, meta.size);
    var cells :- ReadColumn(t, meta.valuesCount, bytes);
    Ok(cells.value)
  }

  lemma {:induction false} ColumnSlice(schema: Schema, blocks: seq<Block>, step: nat, i: nat, c: nat)
    requires step >= 1 && i < |blocks| && c < Width(schema)
    ensures var meta := ColumnMetaAt(Width(schema), blocks, i, c);
            Slice(ColumnFile(schema, blocks, step).data, meta.offset, meta.size) == Ok(ColumnPiece(blocks[i], c))
  {
    var width := Width(schema);
    FlattenUniformAt(Map(blocks, (b: Block) => BlockPieces(width, b)), width, i, c);
    var k := i * width + c;
    PieceSlice(ColumnPieces(width, blocks), k);
    assert ColumnPieces(width, blocks)[k] == ColumnPiece(blocks[i], c);
  }

  lemma {:induction false} CellsOfFit(b: seq<Row>, schema: Schema, c: nat)
    requires RowsFit(b, schema) && 0 < c <= |schema|
    ensures forall k :: 0 <= k < |b| ==> CellFits(CellsOf(b, c)[k], schema[c - 1])
  {
    forall k | 0 <= k < |b| ensures CellFits(CellsOf(b, c)[k], schema[c - 1]) {
      assert b[k] in b && RowFits(b[k], schema);
    }
  }

  lemma {:induction false} ReadColumnBlocksBack(schema: Schema, blocks: seq<Block>, step: nat, i: nat, c: nat)
    requires step >= 1 && i < |blocks| && c < Width(schema) && RowsFit(blocks[i], schema)
    ensures var file, meta := ColumnFile(schema, blocks, step), ColumnMetaAt(Width(schema), blocks, i, c);
            && (c == 0 ==> ReadKeyBlock(file, meta) == Ok(KeysOf(blocks[i])))
            && (c > 0 ==> ReadCellBlock(file, meta, schema[c - 1]) == Ok(CellsOf(blocks[i], c)))
  {
    hide Slice, Offset, Flatten, EncodeKeys, EncodeColumn, ReadKeys, ReadColumn, RowFits, CellFits, StatsOfBlocks,
         Entries;
    ColumnSlice(schema, blocks, step, i, c);
    if c == 0 {
      KeyBlockRoundTrip(KeysOf(blocks[i]), []);
      assert EncodeKeys(KeysOf(blocks[i])) + [] == EncodeKeys(KeysOf(blocks[i]));
    } else {
      var cells := CellsOf(blocks[i], c);
      CellsOfFit(blocks[i], schema, c);
      ColumnBlockRoundTrip(cells, schema[c - 1], []);
      assert EncodeColumn(cells) + [] == EncodeColumn(cells);
    }
  }
}
