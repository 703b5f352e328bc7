/** How large the files of a table are, and why they cost no more than their rows account for. */
module FileSizes {
  import opened Seqs
  import opened Storage
  import opened Codec
  import opened SparseIndex
  import opened Tables
  import opened TableBuilders
  import opened SortedMaps
  import opened Merging
  import opened Registry
  import opened Engine
  import opened Conservation
  import opened Drain
  import opened LsmTree

  // ---------- The sizes on disk ----------

  const ROW_META_SIZE: nat := 40
  const COLUMN_META_SIZE: nat := 44
  const INDEX_ENTRY_SIZE: nat := 12
  const INFO_SIZE: nat := 21
  const STATS_HEADER_SIZE: nat := 16
  const STATS_DESCRIPTOR_SIZE: nat := 17
  const STATS_ENTRY_SIZE: nat := 17

  function NumericColumns(schema: Schema): (n: nat)
    ensures n <= |schema|
  {
    if schema == [] then 0 else NumericColumns(schema[1..]) + if schema[0].STRING? then 0 else 1
  }

  lemma {:induction false} NumericSnoc(schema: Schema, last: ValueType)
    ensures NumericColumns(schema + [last]) == NumericColumns(schema) + if last == STRING then 0 else 1
  {
    if schema == [] {
      assert (schema + [last])[1..] == [];
    } else {
      NumericSnoc(schema[1..], last);
      assert (schema + [last])[1..] == schema[1..] + [last];
    }
  }

  /** As many columns are counted as have statistics. */
  lemma {:induction false} NumericExactly(schema: Schema, blocks: seq<Block>)
    ensures NumericColumns(schema) == |StatsOfBlocks(schema, blocks).Keys|
  {
    if schema == [] {
      assert StatsOfBlocks(schema, blocks).Keys == {};
    } else {
      var n := |schema| - 1;
      var front := schema[..n];
      NumericExactly(front, blocks);
      NumericSnoc(front, schema[n]);
      assert schema == front + [schema[n]];
      var before := StatsOfBlocks(front, blocks).Keys;
      assert n + 1 !in before;
      forall c: nat | c <= n ensures IsNumericColumn(schema, c) <==> IsNumericColumn(front, c) {}
      assert StatsOfBlocks(schema, blocks).Keys == before + if schema[n] == STRING then {} else {n + 1};
    }
  }

  /** The statistics file: a header, and for each numeric column a descriptor and an entry per block. */
  function StatsBytes(schema: Schema, blocks: nat): nat {
    STATS_HEADER_SIZE + NumericColumns(schema) * (STATS_DESCRIPTOR_SIZE + STATS_ENTRY_SIZE * blocks)
  }

  /** sstable_size_bytes: the data, metadata, index, info and statistics files. */
  function FileBytes(schema: Schema, file: TableFile): nat {
    |file.data| + ROW_META_SIZE * |file.rowMeta| + COLUMN_META_SIZE * |file.columnMeta|
    + INDEX_ENTRY_SIZE * |file.index| + INFO_SIZE + StatsBytes(schema, file.numBlocks)
  }

  /** The sum is taken in 64 bits. */
  function SizeOf(schema: Schema): BuildResult -> U64 {
    (r: BuildResult) => FileBytes(schema, r.file) % U64_LIMIT
  }

  // ---------- What a row accounts for ----------

  /** Its part of a physical column: a key, or at most a byte of the null bitmap and the value. */
  function PieceCost(column: nat): Row -> nat {
    (row: Row) => if column == 0 then 8 else 1 + |EncodeCells([row.Lookup(column)])|
  }

  function ColumnsCost(width: nat): Row -> nat {
    (row: Row) => CostOfColumns(width, row)
  }

  function CostOfColumns(width: nat, row: Row): nat {
    if width == 0 then 0 else CostOfColumns(width - 1, row) + PieceCost(width - 1)(row)
  }

  function EncodedSize(): Row -> nat { (row: Row) => |EncodeRow(row)| }

  /** A block entry in every file, and the fixed parts of the files, once for each row. */
  function Overhead(schema: Schema): nat {
    ROW_META_SIZE + COLUMN_META_SIZE * Width(schema) + INDEX_ENTRY_SIZE + INFO_SIZE + StatsBytes(schema, 1)
  }

  function RowCost(schema: Schema): Row -> nat {
    (row: Row) => |EncodeRow(row)| + CostOfColumns(Width(schema), row) + Overhead(schema)
  }

  // ---------- Sums over rows ----------

  lemma {:induction false} WeightSum(rows: seq<Row>, f: Row -> nat, g: Row -> nat, sum: Row -> nat)
    requires forall r :: sum(r) == f(r) + g(r)
    ensures Weight(rows, sum) == Weight(rows, f) + Weight(rows, g)
  {
    if rows != [] { WeightSum(rows[1..], f, g, sum); }
  }

  function Constant(n: nat): Row -> nat { (row: Row) => n }

  lemma {:induction false} WeightConstant(rows: seq<Row>, n: nat)
    ensures Weight(rows, Constant(n)) == |rows| * n
  {
    if rows != [] {
      WeightConstant(rows[1..], n);
      MulSum(1, |rows| - 1, n);
    }
  }

  lemma {:induction false} RowCostParts(rows: seq<Row>, schema: Schema)
    ensures Weight(rows, RowCost(schema))
            == Weight(rows, EncodedSize()) + Weight(rows, ColumnsCost(Width(schema))) + |rows| * Overhead(schema)
  {
    hide Weight, EncodeRow, CostOfColumns, Overhead;
    var both := (row: Row) => |EncodeRow(row)| + CostOfColumns(Width(schema), row);
    WeightSum(rows, EncodedSize(), ColumnsCost(Width(schema)), both);
    WeightSum(rows, both, Constant(Overhead(schema)), RowCost(schema));
    WeightConstant(rows, Overhead(schema));
  }

  // ---------- Data bytes ----------

  lemma {:induction false} EncodedRowsSize(rows: seq<Row>)
    ensures |EncodeRows(rows)| == Weight(rows, EncodedSize())
  {
    hide EncodeRow;
    if rows != [] { EncodedRowsSize(rows[1..]); }
  }

  lemma {:induction false} RowDataSize(blocks: seq<Block>)
    ensures |Flatten(RowPieces(blocks))| == Weight(AllRows(blocks), EncodedSize())
  {
    hide EncodeRows, EncodedSize;
    if blocks != [] {
      var front, last: Block := blocks[..|blocks| - 1], blocks[|blocks| - 1];
      assert blocks == front + [last];
      RowDataSize(front);
      assert RowPieces(blocks) == RowPieces(front) + [EncodeRows(last)];
      FlattenSnoc(RowPieces(front), EncodeRows(last));
      FlattenSnoc<Row>(front, last);
      WeightConcat(AllRows(front), last, EncodedSize());
      EncodedRowsSize(last);
    }
  }

  lemma {:induction false} CellsSize(cells: seq<Cell>, more: seq<Cell>)
    ensures |EncodeCells(cells + more)| == |EncodeCells(cells)| + |EncodeCells(more)|
  {
    hide EncodeValue;
    if cells == [] {
      assert cells + more == more;
    } else {
      CellsSize(cells[1..], more);
      assert (cells + more)[1..] == cells[1..] + more;
    }
  }

  lemma {:induction false} NothingEncoded()
    ensures EncodeCells([]) == []
  {
  }

  lemma {:induction false} KeysSize(keys: seq<Key>)
    ensures |EncodeKeys(keys)| == 8 * |keys|
  {
    if keys != [] { KeysSize(keys[1..]); }
  }

  /** One physical block of a column. */
  lemma {:induction false} PieceSize(rows: seq<Row>, column: nat)
    requires column > 0
    ensures |EncodeCells(CellsOf(rows, column))| + |rows| == Weight(rows, PieceCost(column))
  {
    hide EncodeCells;
    if rows == [] {
      assert CellsOf(rows, column) == [];
      NothingEncoded();
    } else {
      PieceSize(rows[1..], column);
      assert CellsOf(rows, column) == [rows[0].Lookup(column)] + CellsOf(rows[1..], column);
      CellsSize([rows[0].Lookup(column)], CellsOf(rows[1..], column));
    }
  }

  lemma {:induction false} ColumnPieceSize(b: Block, column: nat)
    ensures |ColumnPiece(b, column)| <= Weight(b, PieceCost(column))
  {
    hide EncodeCells, EncodeKeys, Weight;
    if column == 0 {
      KeysSize(KeysOf(b));
      WeightConstant(b, 8);
      WeightSum(b, Constant(8), Constant(0), PieceCost(0));
      WeightConstant(b, 0);
    } else {
      PieceSize(b, column);
      assert |Bitmap(Nulls(CellsOf(b, column)))| == BitmapSize(|b|) <= |b|;
    }
  }

  lemma {:induction false} BlockSize(b: Block, width: nat)
    ensures |Flatten(BlockPieces(width, b))| <= Weight(b, ColumnsCost(width))
  {
    hide ColumnPiece, Weight, PieceCost;
    if width == 0 {
      assert BlockPieces(0, b) == [];
    } else {
      BlockSize(b, width - 1);
      ColumnPieceSize(b, width - 1);
      assert BlockPieces(width, b) == BlockPieces(width - 1, b) + [ColumnPiece(b, width - 1)];
      FlattenSnoc(BlockPieces(width - 1, b), ColumnPiece(b, width - 1));
      WeightSum(b, ColumnsCost(width - 1), PieceCost(width - 1), ColumnsCost(width));
    }
  }

  lemma {:induction false} ColumnDataSize(blocks: seq<Block>, width: nat)
    ensures |Flatten(ColumnPieces(width, blocks))| <= Weight(AllRows(blocks), ColumnsCost(width))
  {
    hide ColumnPieces, BlockPieces, ColumnsCost;
    if blocks == [] {
      ColumnPiecesSnoc(width, [], [Row(0, [])]);
      assert |ColumnPieces(width, [])| == 0;
    } else {
      var front, last: Block := blocks[..|blocks| - 1], blocks[|blocks| - 1];
      assert blocks == front + [last];
      ColumnDataSize(front, width);
      ColumnPiecesSnoc(width, front, last);
      FlattenConcat(ColumnPieces(width, front), BlockPieces(width, last));
      FlattenSnoc<Row>(front, last);
      WeightConcat(AllRows(front), last, ColumnsCost(width));
      BlockSize(last, width);
    }
  }

  // ---------- The other files ----------

  lemma {:induction false} IndexSize(mins: seq<Key>, step: nat, n: nat)
    requires step >= 1 && n <= |mins|
    ensures |Entries(mins, step, n)| <= n
  {
    if n > 0 { IndexSize(mins, step, n - 1); }
  }

  /** Everything but the data costs at most the overhead, once for each row. */
  lemma {:induction false} RestSize(schema: Schema, blocks: nat, rows: nat)
    requires 1 <= blocks <= rows
    ensures ROW_META_SIZE * blocks + COLUMN_META_SIZE * (blocks * Width(schema)) + INDEX_ENTRY_SIZE * blocks + INFO_SIZE
              + StatsBytes(schema, blocks)
            <= rows * Overhead(schema)
  {
    var w, n := Width(schema), NumericColumns(schema);
    var perBlock := ROW_META_SIZE + COLUMN_META_SIZE * w + INDEX_ENTRY_SIZE + STATS_ENTRY_SIZE * n;
    var fixed := INFO_SIZE + STATS_HEADER_SIZE + STATS_DESCRIPTOR_SIZE * n;
    assert Overhead(schema) == perBlock + fixed;
    assert blocks * perBlock == ROW_META_SIZE * blocks + COLUMN_META_SIZE * (blocks * w) + INDEX_ENTRY_SIZE * blocks
                                + STATS_ENTRY_SIZE * (blocks * n);
    assert n * (STATS_DESCRIPTOR_SIZE + STATS_ENTRY_SIZE * blocks)
           == STATS_DESCRIPTOR_SIZE * n + STATS_ENTRY_SIZE * (blocks * n);
    Enough(blocks, rows, perBlock, fixed);
  }

  lemma {:induction false} Enough(blocks: nat, rows: nat, perBlock: nat, fixed: nat)
    requires 1 <= blocks <= rows
    ensures blocks * perBlock + fixed <= rows * (perBlock + fixed)
  {
    MulSum(blocks, rows - blocks, perBlock);
    MulSum(1, rows - 1, fixed);
    assert rows * (perBlock + fixed) == rows * perBlock + rows * fixed;
  }

  /** Data and metadata of a table in each layout. */
  lemma {:induction false} RowFilesSize(schema: Schema, blocks: seq<Block>, step: nat)
    requires step >= 1
    ensures var file := RowFile(schema, blocks, step);
            && |file.data| == Weight(AllRows(blocks), EncodedSize()) && |file.rowMeta| == |blocks|
            && file.columnMeta == []
            && file.index == Entries(Mins(blocks), step, |blocks|) && file.numBlocks == |blocks|
  {
    hide Flatten, RowPieces, RowMetaAt, Weight, StatsOfBlocks, EncodedSize, Entries, Mins, AllRows;
    RowDataSize(blocks);
  }

  lemma {:induction false} ColumnFilesSize(schema: Schema, blocks: seq<Block>, step: nat)
    requires step >= 1
    ensures var file := ColumnFile(schema, blocks, step);
            && |file.data| <= Weight(AllRows(blocks), ColumnsCost(Width(schema))) && file.rowMeta == []
            && |file.columnMeta| == |blocks| * Width(schema)
            && file.index == Entries(Mins(blocks), step, |blocks|) && file.numBlocks == |blocks|
  {
    hide Flatten, ColumnPieces, Weight, StatsOfBlocks, ColumnsCost, Entries, Mins, AllRows;
    ColumnDataSize(blocks, Width(schema));
    FlattenUniformLength(ColumnGroups(Width(schema), blocks), Width(schema));
  }

  /** The files of a table are never larger than its rows account for. */
  lemma {:induction false} FilesWithinCost(schema: Schema, r: BuildResult, layout: Layout, rows: seq<Row>)
    requires Built(r, layout, schema, rows)
    ensures FileBytes(schema, r.file) <= Weight(rows, RowCost(schema))
  {
    hide Flatten, Weight, StatsBytes, Overhead, RowCost, EncodedSize, ColumnsCost, RowFile, ColumnFile, Entries,
         AllRows;
    var blocks: seq<Block>, step: nat :|
      step >= 1 && AllRows(blocks) == rows && r.file == FileOf(r.file.layout, schema, blocks, step);
    BlocksBelowRows(blocks);
    assert blocks != [] by { NoBlocks(blocks); }
    RowCostParts(rows, schema);
    IndexSize(Mins(blocks), step, |blocks|);
    RestSize(schema, |blocks|, |rows|);
    if r.file.layout.ROW? {
      RowFilesSize(schema, blocks, step);
    } else {
      ColumnFilesSize(schema, blocks, step);
    }
  }

  lemma {:induction false} NoBlocks(blocks: seq<Block>)
    ensures blocks == [] ==> AllRows(blocks) == []
  {
  }

  /** So the sizes that the engine records are within a cost of their rows, as the drain's termination asks for. */
  lemma {:induction false} RealSizesFit(c: Setup, pathOf: U64 -> Bytes)
    ensures WithinCost(c, Files(pathOf, SizeOf(c.schema)), RowCost(c.schema))
  {
    hide Built, FileBytes, RowCost, Weight;
    var files := Files(pathOf, SizeOf(c.schema));
    forall r: BuildResult, layout, rows | Built(r, layout, c.schema, rows)
      ensures files.sizeOf(r) <= Weight(rows, RowCost(c.schema))
    {
      FilesWithinCost(c.schema, r, layout, rows);
      Remainder(FileBytes(c.schema, r.file));
    }
  }

  lemma {:induction false} Remainder(n: nat)
    ensures n % U64_LIMIT <= n
  {
  }

  // ---------- A run on real files that never rests ----------

  /** No table's files are smaller: one block's metadata and index entry, and the fixed parts. */
  const LEAST_FILE_BYTES: nat := ROW_META_SIZE + INDEX_ENTRY_SIZE + INFO_SIZE + STATS_HEADER_SIZE

  lemma {:induction false} FilesAtLeast(schema: Schema, r: BuildResult, layout: Layout, rows: seq<Row>)
    requires Built(r, layout, schema, rows)
    ensures FileBytes(schema, r.file) >= LEAST_FILE_BYTES
  {
    hide RowFile, ColumnFile, Entries, AllRows, Weight, EncodedSize, ColumnsCost, Mins;
    var blocks: seq<Block>, step: nat :|
      step >= 1 && AllRows(blocks) == rows && r.file == FileOf(r.file.layout, schema, blocks, step);
    assert blocks != [] by { NoBlocks(blocks); }
    if r.file.layout.ROW? {
      RowFilesSize(schema, blocks, step);
    } else {
      ColumnFilesSize(schema, blocks, step);
      MulSum(1, |blocks| - 1, Width(schema));
    }
  }

  /** The sizes of the run are those of the files it writes. */
  ghost predicate RealSizes(c: Setup, steps: seq<Step>) {
    forall i :: 0 <= i < |steps| ==> IsReal(c, steps[i])
  }

  ghost predicate IsReal(c: Setup, step: Step) {
    step.EndFlush? || step.EndCompact? ==> step.size == SizeOf(c.schema)(step.result)
  }

  /** Rows that weigh less than 2^64 bytes make files whose size does not wrap. */
  lemma {:induction false} RealSizeIs(c: Setup, r: BuildResult, layout: Layout, rows: seq<Row>, row: Row)
    requires Built(r, layout, c.schema, rows) && multiset(rows) <= multiset{row} && RowCost(c.schema)(row) < U64_LIMIT
    ensures LEAST_FILE_BYTES <= SizeOf(c.schema)(r)
  {
    hide FileBytes, RowCost, Built;
    FilesWithinCost(c.schema, r, layout, rows);
    FilesAtLeast(c.schema, r, layout, rows);
    WeightWithin(rows, [row], RowCost(c.schema));
    assert Weight([row], RowCost(c.schema)) == RowCost(c.schema)(row) + Weight([], RowCost(c.schema));
  }

  lemma {:induction false} OneRow(row: Row)
    ensures Enumerate(map[row.key := row]) == [row]
  {
    EnumerateUnique(map[row.key := row], [row]);
  }

  /** One insert and one flush, with a threshold of one row. */
  lemma {:induction false} FlushedRun(c: Setup, row: Row) returns (steps: seq<Step>, size: U64)
    requires RowFits(row, c.schema) && c.config.threshold <= 1 && RowCost(c.schema)(row) < U64_LIMIT
    ensures Legal(c, steps) && |steps| == 3 && steps[0] == Insert(row) && !steps[1].Insert? && !steps[2].Insert?
    ensures RealSizes(c, steps) && size >= LEAST_FILE_BYTES && Versions(c, Run(c, steps)) == multiset{row}
    ensures IsAlone(c, Run(c, steps), 0, size) && Run(c, steps).nextId == 1
  {
    hide Legal, Run, RowFits, Built, Enumerate, SizeOf, RowCost, Inv, Versions, FileBytes;
    NothingRun(c);
    Extended(c, [], Insert(row));
    assert [] + [Insert(row)] == [Insert(row)];
    var one: RowMap := map[row.key := row];
    assert EMPTY.active[row.key := row] == one;
    OneRow(row);
    Extended(c, [Insert(row)], BeginFlush);
    var begun := [Insert(row)] + [BeginFlush];
    var result := CanBeBuilt(ROW, c.schema, Run(c, begun).phase.rows);
    size := SizeOf(c.schema)(result);
    RealSizeIs(c, result, ROW, Enumerate(one), row);
    Extended(c, begun, EndFlush(result, [], size));
    steps := begun + [EndFlush(result, [], size)];
    Reachable(c, steps);
    OneVersion(c, row, begun, EndFlush(result, [], size));
    FirstLevel(InfoOf(0, 0, result, [], size));
  }

  lemma {:induction false} FirstLevel(info: TableInfo)
    requires info.level == 0
    ensures AddTo([], info) == Alone(info, 0)
  {
    assert Resize([], 1) == [[]] && [] + [info] == [info];
  }

  /** After one insert and steps of the worker, the tree holds that row. */
  lemma {:induction false} OneVersion(c: Setup, row: Row, begun: seq<Step>, step: Step)
    requires begun == [Insert(row)] + [BeginFlush] && Legal(c, begun + [step]) && !step.Insert?
    ensures Versions(c, Run(c, begun + [step])) == multiset{row}
  {
    hide Enabled, Apply, Versions;
    var all := begun + [step];
    assert all[..2] == begun && begun[..1] == [Insert(row)] && [Insert(row)][..0] == [];
    NothingRun(c);
    Reachable(c, []);
    Reachable(c, [Insert(row)]);
    Reachable(c, begun);
    EmptyHolds(c);
    StepVersions(c, EMPTY, Insert(row));
    StepVersions(c, Run(c, [Insert(row)]), BeginFlush);
    StepVersions(c, Run(c, begun), step);
  }

  lemma {:induction false} EmptyHolds(c: Setup)
    ensures Versions(c, EMPTY) == multiset{} && EMPTY.active == map[]
  {
    NothingToEnumerate();
  }

  /** The next round on a lone table of one row, with the real size of its files. */
  lemma {:induction false} NextRound(c: Setup, s: State, row: Row, level: nat, size: U64) returns (compact: Step)
    requires IsAlone(c, s, level, size) && Versions(c, s) == multiset{row} && RowCost(c.schema)(row) < U64_LIMIT
    requires Enabled(c, s, BeginCompact) && Pick(c.config, s.levels).value.source == level && level + 1 < U32_LIMIT
    ensures compact.EndCompact? && IsReal(c, compact) && compact.size >= LEAST_FILE_BYTES
    ensures Enabled(c, Apply(c, s, BeginCompact), compact)
    ensures var t := Apply(c, Apply(c, s, BeginCompact), compact);
            && IsAlone(c, t, level + 1, compact.size) && t.nextId == s.nextId + 1 && Versions(c, t) == multiset{row}
  {
    hide MemoryOk, Pick, Merge, Built, AddTo, RemoveAll, InfoOk, Versions, SizeOf, RowCost, Alone;
    var u := Apply(c, s, BeginCompact);
    var children := RowsOfAll(c, s.disk, s.levels[level]);
    PicksUp(c.config, s.levels);
    CandidateRows(c, s, level);
    LevelWithinVersions(c, s.disk, s.levels, level);
    LevelIsHeld(c, s, level);
    MergeKeepsAll(children);
    var result := CanBeBuilt(u.phase.task.layout, c.schema, Merge(children));
    RealSizeIs(c, result, u.phase.task.layout, Merge(children), row);
    compact := EndCompact(result, [], SizeOf(c.schema)(result));
    RoundMovesUp(c, s, compact, level, size);
    RoundVersions(c, s, BeginCompact, compact);
  }

  lemma {:induction false} LevelIsHeld(c: Setup, s: State, level: nat)
    ensures TableVersions(c, s.disk, s.levels) <= Versions(c, s)
  {
  }

  /** A lone table larger than the base is picked: on level 0 by a trigger of one table, above it with ratio 1. */
  lemma {:induction false} AlwaysPicked(c: Setup, s: State, level: nat, size: U64)
    requires IsAlone(c, s, level, size) && size > c.config.base && c.config.ratio == 1 && c.config.trigger == 1
    requires s.nextId + 1 < U64_LIMIT
    ensures Enabled(c, s, BeginCompact) && Pick(c.config, s.levels).value.source == level && Pending(c, s)
  {
    hide Inv, Pick;
    var info: TableInfo :| info.fileSize == size && s.levels == Alone(info, level);
    if level == 0 {
      FirstPick(c.config, info);
    } else {
      FlatThreshold(c.config, level);
      AlonePicks(c.config, info, level);
    }
  }

  /**
   After a single insert, with ratio 1 and a base below the size of the smallest files, there are legal runs of
   any number of compactions, each recording the size of the files it wrote, at whose end work is still pending.
   */
  lemma {:induction false} FlatRunsOn(c: Setup, row: Row, rounds: nat) returns (steps: seq<Step>, size: U64)
    requires RowFits(row, c.schema) && RowCost(c.schema)(row) < U64_LIMIT
    requires c.config.threshold <= 1 && c.config.trigger == 1 && c.config.ratio == 1
    requires c.config.base < LEAST_FILE_BYTES && rounds < U32_LIMIT
    ensures Legal(c, steps) && |steps| == 3 + 2 * rounds && steps[0] == Insert(row) && RealSizes(c, steps)
    ensures forall i :: 0 < i < |steps| ==> !steps[i].Insert?
    ensures size >= LEAST_FILE_BYTES && IsAlone(c, Run(c, steps), rounds, size) && Run(c, steps).nextId == rounds + 1
    ensures Versions(c, Run(c, steps)) == multiset{row} && Pending(c, Run(c, steps))
    decreases rounds
  {
    hide Legal, Run, RowFits, IsAlone, Pending, RowCost, Versions, Pick, Enabled, Apply, SizeOf;
    if rounds == 0 {
      steps, size := FlushedRun(c, row);
    } else {
      var before, held := FlatRunsOn(c, row, rounds - 1);
      var s := Run(c, before);
      AlwaysPicked(c, s, rounds - 1, held);
      var compact := NextRound(c, s, row, rounds - 1, held);
      Extended(c, before, BeginCompact);
      Extended(c, before + [BeginCompact], compact);
      steps, size := before + [BeginCompact] + [compact], compact.size;
    }
    AlwaysPicked(c, Run(c, steps), rounds, size);
  }
}
