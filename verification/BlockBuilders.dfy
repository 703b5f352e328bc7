/** The block builders: they fill a byte buffer row by row, and keep count, key bounds and statistics. */
module BlockBuilders {
  import opened Storage
  import opened Codec
  import opened Pruning
  import opened Tables

  // ---------- Null bitmaps, bit by bit ----------

  function PowerOfTwo(n: nat): nat { if n == 0 then 1 else 2 * PowerOfTwo(n - 1) }

  lemma {:induction false} SetBit(flags: seq<bool>, i: nat)
    requires i < |flags| <= 8 && !flags[i]
    ensures ByteOf(flags[i := true]) == ByteOf(flags) + PowerOfTwo(i)
  {
    if i > 0 {
      SetBit(flags[1..], i - 1);
      assert flags[i := true][1..] == flags[1..][i - 1 := true];
    } else {
      assert flags[i := true][1..] == flags[1..];
    }
  }

  lemma {:induction false} BitmapSplit(flags: seq<bool>)
    requires |flags| > 8
    ensures Bitmap(flags) == [ByteOf(flags[..8])] + Bitmap(flags[8..])
  {
  }

  /** Setting a clear flag, bit b of byte q, adds one bit to its byte. */
  lemma {:induction false} SetFlagAt(flags: seq<bool>, q: nat, b: nat)
    requires b < 8 && 8 * q + b < |flags| && !flags[8 * q + b]
    ensures q < |Bitmap(flags)| && Bitmap(flags)[q] + PowerOfTwo(b) < 256
    ensures Bitmap(flags[8 * q + b := true]) == Bitmap(flags)[q := Bitmap(flags)[q] + PowerOfTwo(b)]
  {
    if |flags| <= 8 {
      SetBit(flags, b);
    } else if q == 0 {
      SetFirstByte(flags, b);
    } else {
      SetFlagAt(flags[8..], q - 1, b);
      SetLaterByte(flags, q, b);
    }
  }

  lemma {:induction false} SetLaterByte(flags: seq<bool>, q: nat, b: nat)
    requires b < 8 < |flags| && 1 <= q && 8 * q + b < |flags|
    requires q - 1 < |Bitmap(flags[8..])| && Bitmap(flags[8..])[q - 1] + PowerOfTwo(b) < 256
    requires Bitmap(flags[8..][8 * (q - 1) + b := true])
             == Bitmap(flags[8..])[q - 1 := Bitmap(flags[8..])[q - 1] + PowerOfTwo(b)]
    ensures q < |Bitmap(flags)| && Bitmap(flags)[q] + PowerOfTwo(b) < 256
    ensures Bitmap(flags[8 * q + b := true]) == Bitmap(flags)[q := Bitmap(flags)[q] + PowerOfTwo(b)]
  {
    hide Bitmap, ByteOf, PowerOfTwo;
    var after := flags[8 * q + b := true];
    BitmapSplit(flags);
    BitmapSplit(after);
    assert after[..8] == flags[..8] && after[8..] == flags[8..][8 * (q - 1) + b := true];
  }

  lemma {:induction false} SetFirstByte(flags: seq<bool>, b: nat)
    requires b < 8 < |flags| && !flags[b]
    ensures 0 < |Bitmap(flags)| && Bitmap(flags)[0] + PowerOfTwo(b) < 256
    ensures Bitmap(flags[b := true]) == Bitmap(flags)[0 := Bitmap(flags)[0] + PowerOfTwo(b)]
  {
    hide Bitmap, ByteOf;
    var after := flags[b := true];
    BitmapSplit(flags);
    BitmapSplit(after);
    SetBit(flags[..8], b);
    assert after[..8] == flags[..8][b := true] && after[8..] == flags[8..];
  }

  lemma {:induction false} SetFlag(flags: seq<bool>, i: nat)
    requires i < |flags| && !flags[i]
    ensures i / 8 < |Bitmap(flags)| && Bitmap(flags)[i / 8] + PowerOfTwo(i % 8) < 256
    ensures Bitmap(flags[i := true]) == Bitmap(flags)[i / 8 := Bitmap(flags)[i / 8] + PowerOfTwo(i % 8)]
  {
    SetFlagAt(flags, i / 8, i % 8);
  }

  lemma {:induction false} ByteOfSnocFalse(flags: seq<bool>)
    requires |flags| < 8
    ensures ByteOf(flags + [false]) == ByteOf(flags)
  {
    if flags != [] {
      ByteOfSnocFalse(flags[1..]);
      assert (flags + [false])[1..] == flags[1..] + [false];
    }
  }

  /** One more clear flag opens a new zero byte when the last one is full. */
  lemma {:induction false} SnocFalse(flags: seq<bool>)
    ensures Bitmap(flags + [false]) == if |flags| % 8 == 0 then Bitmap(flags) + [0] else Bitmap(flags)
  {
    if |flags| < 8 {
      ByteOfSnocFalse(flags);
    } else if |flags| == 8 {
      assert (flags + [false])[..8] == flags && (flags + [false])[8..] == [false];
      assert Bitmap([false]) == [0];
    } else {
      SnocFalse(flags[8..]);
      assert (flags + [false])[..8] == flags[..8] && (flags + [false])[8..] == flags[8..] + [false];
    }
  }

  function Clear(n: nat): (flags: seq<bool>)
    ensures |flags| == n
  {
    seq(n, i => false)
  }

  lemma {:induction false} ClearBitmap(n: nat)
    ensures Bitmap(Clear(n)) == seq(BitmapSize(n), i => 0)
  {
    if n > 0 {
      ClearBitmap(n - 1);
      SnocFalse(Clear(n - 1));
      assert Clear(n) == Clear(n - 1) + [false];
    }
  }

  // ---------- Growing encodings ----------

  lemma {:induction false} EncodeRowsSnoc(rows: seq<Row>, row: Row)
    ensures EncodeRows(rows + [row]) == EncodeRows(rows) + EncodeRow(row)
  {
    hide EncodeRow;
    if rows == [] {
      assert rows + [row] == [row] && [row][1..] == [];
    } else {
      EncodeRowsSnoc(rows[1..], row);
      assert (rows + [row])[1..] == rows[1..] + [row];
    }
  }

  lemma {:induction false} EncodeCellsCons(cell: Cell, cells: seq<Cell>)
    ensures EncodeCells([cell] + cells) == (if cell.Some? then EncodeValue(cell.value) else []) + EncodeCells(cells)
    ensures EncodeCells([]) == []
  {
    hide EncodeValue;
    assert ([cell] + cells)[1..] == cells;
  }

  lemma {:induction false} EncodeCellsSnoc(cells: seq<Cell>, cell: Cell)
    ensures EncodeCells(cells + [cell]) == EncodeCells(cells) + if cell.Some? then EncodeValue(cell.value) else []
  {
    hide EncodeValue, EncodeCells;
    var last := if cell.Some? then EncodeValue(cell.value) else [];
    if cells == [] {
      assert cells + [cell] == [cell] + [];
      EncodeCellsCons(cell, []);
    } else {
      var first := if cells[0].Some? then EncodeValue(cells[0].value) else [];
      EncodeCellsSnoc(cells[1..], cell);
      assert cells == [cells[0]] + cells[1..] && cells + [cell] == [cells[0]] + (cells[1..] + [cell]);
      EncodeCellsCons(cells[0], cells[1..]);
      EncodeCellsCons(cells[0], cells[1..] + [cell]);
      assert first + (EncodeCells(cells[1..]) + last) == first + EncodeCells(cells[1..]) + last;
    }
  }

  lemma {:induction false} CellsSnoc(rows: seq<Row>, row: Row, column: nat)
    ensures CellsOf(rows + [row], column) == CellsOf(rows, column) + [row.Lookup(column)]
  {
  }

  /** Statistics of every numeric value column. */
  function AllStats(rows: seq<Row>, schema: Schema): map<nat, BlockStats> {
    map c: nat | 0 <= c <= |schema| && IsNumericColumn(schema, c) :: StatsOf(rows, c, schema[c - 1])
  }

  lemma {:induction false} StatsSnoc(rows: seq<Row>, row: Row, column: nat, t: ValueType)
    ensures StatsOf(rows + [row], column, t) == UpdateStats(StatsOf(rows, column, t), row.Lookup(column))
  {
    assert (rows + [row])[..|rows|] == rows;
  }

  function MinOfKeys(rows: seq<Row>): Key {
    if rows == [] then INT64_MAX
    else
      var before, last := MinOfKeys(rows[..|rows| - 1]), rows[|rows| - 1].key;
      if last < before then last else before
  }

  function MaxOfKeys(rows: seq<Row>): Key {
    if rows == [] then INT64_MIN
    else
      var before, last := MaxOfKeys(rows[..|rows| - 1]), rows[|rows| - 1].key;
      if before < last then last else before
  }

  lemma {:induction false} BoundsSnoc(rows: seq<Row>, row: Row)
    ensures MinOfKeys(rows + [row]) == if row.key < MinOfKeys(rows) then row.key else MinOfKeys(rows)
    ensures MaxOfKeys(rows + [row]) == if MaxOfKeys(rows) < row.key then row.key else MaxOfKeys(rows)
  {
    assert (rows + [row])[..|rows|] == rows;
  }

  /** In ascending rows the bounds are the first and the last key. */
  lemma {:induction false} BoundsOfAscending(rows: seq<Row>)
    requires WeaklyAscending(rows) && rows != []
    ensures MinOfKeys(rows) == rows[0].key && MaxOfKeys(rows) == rows[|rows| - 1].key
  {
    var before := rows[..|rows| - 1];
    if before != [] { BoundsOfAscending(before); }
  }

  // ---------- Row blocks ----------

  datatype RowBlockResult = RowBlockResult(data: Bytes, min: Key, max: Key, count: nat, stats: map<nat, BlockStats>)

  class RowSSTBlockBuilder {
    const schema: Schema
    const target: nat
    var buffer: Bytes
    var min: Key
    var max: Key
    var count: nat
    var full: bool
    var stats: map<nat, BlockStats>
    ghost var rows: seq<Row>

    ghost predicate Valid()
      reads this
    {
      && target > 0
      && buffer == EncodeRows(rows) && count == |rows|
      && min == MinOfKeys(rows) && max == MaxOfKeys(rows)
      && full == (|buffer| >= target)
      && stats == AllStats(rows, schema)
    }

    constructor (schema: Schema, target: nat)
      requires target > 0
      ensures Valid() && rows == [] && this.schema == schema && this.target == target
    {
      this.schema, this.target := schema, target;
      buffer, min, max, count, full, rows := [], INT64_MAX, INT64_MIN, 0, false, [];
      stats := AllStats([], schema);
    }

    lemma {:induction false} OpenWhenEmpty()
      requires Valid() && rows == []
      ensures !full
    {
    }

    lemma {:induction false} FullMeans()
      requires Valid()
      ensures full <==> |EncodeRows(rows)| >= target
    {
    }

    method Reset()
      requires target > 0
      modifies this
      ensures Valid() && rows == []
    {
      buffer, min, max, count, full, rows := [], INT64_MAX, INT64_MIN, 0, false, [];
      stats := AllStats([], schema);
    }

    /** encode_row: key, null bitmap, values. */
    method EncodedRow(row: Row) returns (bytes: Bytes)
      requires |row.cells| == |schema|
      ensures bytes == EncodeRow(row)
    {
      hide EncodeValue, Bitmap;
      var bitmap: Bytes := seq(BitmapSize(|schema|), i => 0);
      ghost var flags := Clear(|schema|);
      ClearBitmap(|schema|);
      for i := 0 to |schema|
        invariant |flags| == |schema| && bitmap == Bitmap(flags)
        invariant forall k :: 0 <= k < i ==> flags[k] == row.cells[k].None?
        invariant forall k :: i <= k < |schema| ==> !flags[k]
      {
        if row.cells[i].None? {
          SetFlag(flags, i);
          flags := flags[i := true];
          bitmap := bitmap[i / 8 := bitmap[i / 8] + PowerOfTwo(i % 8)];
        }
      }
      assert flags == Nulls(row.cells);
      bytes := EncodeLE(ToUnsigned(row.key), 8) + bitmap;
      ghost var front := bytes;
      for i := 0 to |schema|
        invariant bytes == front + EncodeCells(row.cells[..i])
      {
        EncodeCellsSnoc(row.cells[..i], row.cells[i]);
        assert row.cells[..i + 1] == row.cells[..i] + [row.cells[i]];
        if row.cells[i].Some? { bytes := bytes + EncodeValue(row.cells[i].value); }
      }
      assert row.cells[..|schema|] == row.cells;
    }

    /** update_numeric_stats: every numeric column takes in its cell. */
    method UpdatedStats(row: Row) returns (updated: map<nat, BlockStats>)
      requires stats == AllStats(rows, schema)
      ensures updated == AllStats(rows + [row], schema)
    {
      hide StatsOf;
      updated := stats;
      for c: nat := 0 to Width(schema)
        invariant updated.Keys == stats.Keys
        invariant forall k :: k in updated ==>
                    updated[k] == if k < c then StatsOf(rows + [row], k, schema[k - 1]) else stats[k]
      {
        if c in updated {
          StatsSnoc(rows, row, c, schema[c - 1]);
          updated := updated[c := UpdateStats(updated[c], row.Lookup(c))];
        }
      }
    }

    method Add(row: Row) returns (ok: bool)
      requires Valid() && |row.cells| == |schema|
      modifies this
      ensures Valid() && ok == !old(full)
      ensures rows == if ok then old(rows) + [row] else old(rows)
    {
      hide StatsOf, EncodeRow, EncodeRows, AllStats, MinOfKeys, MaxOfKeys;
      if full { return false; }
      BoundsSnoc(rows, row);
      min := if row.key < min then row.key else min;
      max := if max < row.key then row.key else max;
      var bytes := EncodedRow(row);
      EncodeRowsSnoc(rows, row);
      buffer := buffer + bytes;
      stats := UpdatedStats(row);
      count := count + 1;
      rows := rows + [row];
      if |buffer| >= target { full := true; }
      return true;
    }

    method Finish() returns (r: Result<RowBlockResult>)
      requires Valid()
      modifies this
      ensures Valid() && rows == []
      ensures r.Err? <==> old(rows) == []
      ensures r.Ok? ==> r.value == RowBlockResult(EncodeRows(old(rows)), MinOfKeys(old(rows)), MaxOfKeys(old(rows)),
                                                  |old(rows)|, AllStats(old(rows), schema))
    {
      if count == 0 { return Err; }
      r := Ok(RowBlockResult(buffer, min, max, count, stats));
      Reset();
    }
  }

  // ---------- Column blocks ----------

  datatype ColumnBlockResult = ColumnBlockResult(data: Bytes, min: Key, max: Key, count: nat, stats: BlockStats)

  class ColumnSSTBlockBuilder {
    const column: nat
    const valueType: ValueType
    const target: nat
    var buffer: Bytes
    var bitmap: Bytes
    var min: Key
    var max: Key
    var count: nat
    var full: bool
    var stats: BlockStats
    ghost var rows: seq<Row>

    ghost predicate Valid()
      reads this
    {
      && target > 0
      && bitmap == Bitmap(Nulls(CellsOf(rows, column))) && buffer == EncodeCells(CellsOf(rows, column))
      && count == |rows|
      && min == MinOfKeys(rows) && max == MaxOfKeys(rows)
      && full == (|buffer| + |bitmap| >= target)
      && stats == StatsOf(rows, column, valueType)
    }

    constructor (column: nat, valueType: ValueType, target: nat)
      requires target > 0
      ensures Valid() && rows == []
      ensures this.column == column && this.valueType == valueType && this.target == target
    {
      this.column, this.valueType, this.target := column, valueType, target;
      buffer, bitmap, min, max, count, full, rows := [], [], INT64_MAX, INT64_MIN, 0, false, [];
      stats := EmptyStats(valueType);
    }

    lemma {:induction false} OpenWhenEmpty()
      requires Valid() && rows == []
      ensures !full
    {
    }

    lemma {:induction false} FullMeans()
      requires Valid()
      ensures full <==> |EncodeColumn(CellsOf(rows, column))| >= target
    {
    }

    method Reset()
      requires target > 0
      modifies this
      ensures Valid() && rows == []
    {
      buffer, bitmap, min, max, count, full, rows := [], [], INT64_MAX, INT64_MIN, 0, false, [];
      stats := EmptyStats(valueType);
    }

    /** The null bit and the bytes of one more cell. */
    method EncodeCell(row: Row)
      requires bitmap == Bitmap(Nulls(CellsOf(rows, column))) && buffer == EncodeCells(CellsOf(rows, column))
               && count == |rows|
      modifies this`buffer, this`bitmap
      ensures bitmap == Bitmap(Nulls(CellsOf(rows + [row], column)))
              && buffer == EncodeCells(CellsOf(rows + [row], column))
    {
      hide Bitmap, EncodeCells, EncodeValue;
      var cell := row.Lookup(column);
      CellsSnoc(rows, row, column);
      ghost var cells := CellsOf(rows, column);
      ghost var flags := Nulls(cells);
      SnocFalse(flags);
      EncodeCellsSnoc(cells, cell);
      if |bitmap| <= count / 8 { bitmap := bitmap + [0]; }
      assert bitmap == Bitmap(flags + [false]);
      if cell.None? {
        SetFlag(flags + [false], count);
        assert (flags + [false])[count := true] == flags + [true];
        bitmap := bitmap[count / 8 := bitmap[count / 8] + PowerOfTwo(count % 8)];
      } else {
        buffer := buffer + EncodeValue(cell.value);
      }
      assert Nulls(cells + [cell]) == flags + [cell.None?];
    }

    method Add(row: Row) returns (ok: bool)
      requires Valid() && row.HasColumn(column)
      modifies this
      ensures Valid() && ok == !old(full)
      ensures rows == if ok then old(rows) + [row] else old(rows)
    {
      hide Bitmap, EncodeCells, MinOfKeys, MaxOfKeys, StatsOf, UpdateStats, CellsOf, Nulls;
      if full { return false; }
      BoundsSnoc(rows, row);
      StatsSnoc(rows, row, column, valueType);
      min := if row.key < min then row.key else min;
      max := if max < row.key then row.key else max;
      EncodeCell(row);
      stats := UpdateStats(stats, row.Lookup(column));
      count := count + 1;
      rows := rows + [row];
      if |buffer| + |bitmap| >= target { full := true; }
      return true;
    }

    method Finish() returns (r: Result<ColumnBlockResult>)
      requires Valid()
      modifies this
      ensures Valid() && rows == []
      ensures r.Err? <==> old(rows) == []
      ensures r.Ok? ==> r.value == ColumnBlockResult(EncodeColumn(CellsOf(old(rows), column)), MinOfKeys(old(rows)),
                                                     MaxOfKeys(old(rows)), |old(rows)|,
                                                     StatsOf(old(rows), column, valueType))
    {
      if count == 0 { return Err; }
      r := Ok(ColumnBlockResult(bitmap + buffer, min, max, count, stats));
      Reset();
    }
  }
}
