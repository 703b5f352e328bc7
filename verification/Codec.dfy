/**
 The byte layouts of row blocks and column blocks: the encoders of the block builders and the
 decoders of the two cursors. The functions consume a prefix of the buffer and return the rest; the
 methods of Decoders walk a position through it.
 */
module Codec {
  import opened Seqs
  import opened Storage

  type Bytes = seq<Byte>

  /** A value read from the front of a buffer, and what follows it. */
  datatype Read<+T> = Read(value: T, rest: Bytes)

  // ---------- Little-endian integers ----------

  function EncodeLE(n: nat, width: nat): (b: Bytes)
    ensures |b| == width
  {
    if width == 0 then [] else [n % 256] + EncodeLE(n / 256, width - 1)
  }

  function DecodeLE(b: Bytes): nat {
    if b == [] then 0 else b[0] + 256 * DecodeLE(b[1..])
  }

  function Pow256(width: nat): nat { if width == 0 then 1 else 256 * Pow256(width - 1) }

  lemma {:induction false} LERoundTrip(n: nat, width: nat)
    requires n < Pow256(width)
    ensures DecodeLE(EncodeLE(n, width)) == n
  {
    if width > 0 {
      LERoundTrip(n / 256, width - 1);
      assert EncodeLE(n, width)[1..] == EncodeLE(n / 256, width - 1);
    }
  }

  lemma {:induction false} DecodeLEBound(b: Bytes)
    ensures DecodeLE(b) < Pow256(|b|)
  {
    if b != [] { DecodeLEBound(b[1..]); }
  }

  lemma {:induction false} Widths()
    ensures Pow256(2) == U16_LIMIT && Pow256(4) == U32_LIMIT && Pow256(8) == U64_LIMIT
  {
    assert Pow256(4) == U32_LIMIT;
    assert Pow256(6) == 0x1_0000_0000_0000;
  }

  /** Two's complement. */
  function ToUnsigned(k: Key): U64 { if k < 0 then k + U64_LIMIT else k }
  function ToSigned(u: U64): Key { if u > INT64_MAX then u - U64_LIMIT else u }

  function Take(size: nat, b: Bytes): Result<Read<Bytes>> {
    if size > |b| then Err else Ok(Read(b[..size], b[size..]))
  }

  function ReadU64(b: Bytes): Result<Read<U64>> {
    var r :- Take(8, b);
    assert DecodeLE(r.value) < U64_LIMIT by { DecodeLEBound(r.value); Widths(); }
    Ok(Read(DecodeLE(r.value), r.rest))
  }

  function ReadU32(b: Bytes): Result<Read<U32>> {
    var r :- Take(4, b);
    assert DecodeLE(r.value) < U32_LIMIT by { DecodeLEBound(r.value); Widths(); }
    Ok(Read(DecodeLE(r.value), r.rest))
  }

  function ReadKey(b: Bytes): Result<Read<Key>> {
    var r :- ReadU64(b);
    Ok(Read(ToSigned(r.value), r.rest))
  }

  lemma {:induction false} TakeFront(front: Bytes, rest: Bytes)
    ensures Take(|front|, front + rest) == Ok(Read(front, rest))
  {
    assert (front + rest)[..|front|] == front && (front + rest)[|front|..] == rest;
  }

  lemma {:induction false} ReadU64Back(n: U64, rest: Bytes)
    ensures ReadU64(EncodeLE(n, 8) + rest) == Ok(Read(n, rest))
  {
    TakeFront(EncodeLE(n, 8), rest);
    Widths();
    LERoundTrip(n, 8);
  }

  lemma {:induction false} ReadU32Back(n: U32, rest: Bytes)
    ensures ReadU32(EncodeLE(n, 4) + rest) == Ok(Read(n, rest))
  {
    TakeFront(EncodeLE(n, 4), rest);
    Widths();
    LERoundTrip(n, 4);
  }

  lemma {:induction false} ReadKeyBack(k: Key, rest: Bytes)
    ensures ReadKey(EncodeLE(ToUnsigned(k), 8) + rest) == Ok(Read(k, rest))
  {
    ReadU64Back(ToUnsigned(k), rest);
  }

  // ---------- Null bitmaps ----------

  /** A byte whose bit i is flags[i]. */
  function ByteOf(flags: seq<bool>): (b: nat)
    requires |flags| <= 8
    ensures b < 256
    ensures |flags| <= 7 ==> b < 128
    ensures |flags| <= 6 ==> b < 64
    ensures |flags| <= 5 ==> b < 32
    ensures |flags| <= 4 ==> b < 16
    ensures |flags| <= 3 ==> b < 8
    ensures |flags| <= 2 ==> b < 4
    ensures |flags| <= 1 ==> b < 2
    ensures |flags| == 0 ==> b == 0
  {
    if flags == [] then 0 else (if flags[0] then 1 else 0) + 2 * ByteOf(flags[1..])
  }

  /** `b & (1 << i)` is not zero. */
  predicate Bit(b: nat, i: nat) {
    if i == 0 then b % 2 == 1 else Bit(b / 2, i - 1)
  }

  lemma {:induction false} BitOfByte(flags: seq<bool>, i: nat)
    requires i < |flags| <= 8
    ensures Bit(ByteOf(flags), i) == flags[i]
  {
    if i > 0 { BitOfByte(flags[1..], i - 1); }
  }

  function BitmapSize(flags: nat): nat { (flags + 7) / 8 }

  function Bitmap(flags: seq<bool>): (b: Bytes)
    ensures |b| == BitmapSize(|flags|)
  {
    if flags == [] then []
    else if |flags| <= 8 then [ByteOf(flags)]
    else [ByteOf(flags[..8])] + Bitmap(flags[8..])
  }

  lemma {:induction false} BitmapBit(flags: seq<bool>, i: nat)
    requires i < |flags|
    ensures Bit(Bitmap(flags)[i / 8], i % 8) == flags[i]
  {
    if i < 8 {
      BitOfByte(if |flags| <= 8 then flags else flags[..8], i);
    } else {
      BitmapBit(flags[8..], i - 8);
      assert i / 8 == (i - 8) / 8 + 1 && i % 8 == (i - 8) % 8;
      assert Bitmap(flags)[1..] == Bitmap(flags[8..]);
    }
  }

  // ---------- Values ----------

  function EncodeValue(v: Value): Bytes {
    match v
    case Int(n) => EncodeLE(ToUnsigned(n), 8)
    case Double(bits) => EncodeLE(bits, 8)
    case Str(s) => EncodeLE(|s| % U32_LIMIT, 4) + s
  }

  function ReadValue(t: ValueType, b: Bytes): Result<Read<Value>> {
    match t
    case INT64 =>
      var r :- ReadKey(b);
      Ok(Read(Int(r.value), r.rest))
    case DOUBLE =>
      var r :- ReadU64(b);
      Ok(Read(Double(r.value), r.rest))
    case STRING =>
      var size :- ReadU32(b);
      var r :- Take(size.value, size.rest);
      Ok(Read(Str(r.value), r.rest))
  }

  /** skip_value: moves past a value without building it. */
  function SkipValue(t: ValueType, b: Bytes): Result<Bytes> {
    match t
    case INT64 => var r :- Take(8, b); Ok(r.rest)
    case DOUBLE => var r :- Take(8, b); Ok(r.rest)
    case STRING =>
      var size :- ReadU32(b);
      var r :- Take(size.value, size.rest);
      Ok(r.rest)
  }

  /** On any bytes at all, skipping and reading move equally far and fail together. */
  lemma {:induction false} SkipIsRead(t: ValueType, b: Bytes)
    ensures SkipValue(t, b).Ok? <==> ReadValue(t, b).Ok?
    ensures SkipValue(t, b).Ok? ==> SkipValue(t, b).value == ReadValue(t, b).value.rest
  {
  }

  lemma {:induction false} ReadValueBack(v: Value, t: ValueType, rest: Bytes)
    requires CellFits(Some(v), t)
    ensures ReadValue(t, EncodeValue(v) + rest) == Ok(Read(v, rest))
  {
    hide EncodeLE, ReadU32, ReadU64, ReadKey, ToUnsigned, Take;
    match v
    case Int(n) => ReadKeyBack(n, rest);
    case Double(bits) => ReadU64Back(bits, rest);
    case Str(s) =>
      assert EncodeLE(|s|, 4) + s + rest == EncodeLE(|s|, 4) + (s + rest);
      ReadU32Back(|s|, s + rest);
      TakeFront(s, rest);
  }

  function EncodeCells(cells: seq<Cell>): Bytes {
    if cells == [] then []
    else (if cells[0].Some? then EncodeValue(cells[0].value) else []) + EncodeCells(cells[1..])
  }

  function Nulls(cells: seq<Cell>): seq<bool> { Map(cells, (c: Cell) => c.None?) }

  // ---------- Row blocks ----------

  function EncodeRow(row: Row): Bytes {
    EncodeLE(ToUnsigned(row.key), 8) + Bitmap(Nulls(row.cells)) + EncodeCells(row.cells)
  }

  function EncodeRows(rows: seq<Row>): Bytes {
    if rows == [] then [] else EncodeRow(rows[0]) + EncodeRows(rows[1..])
  }

  /** Cells of the columns from..; those that are NULL or not projected stay empty. */
  function ReadCells(schema: Schema, from: nat, nulls: Bytes, projected: set<nat>, b: Bytes): Result<Read<seq<Cell>>>
    requires from <= |schema| && BitmapSize(|schema|) <= |nulls|
    decreases |schema| - from
  {
    if from == |schema| then Ok(Read([], b))
    else if Bit(nulls[from / 8], from % 8) then
      var tail :- ReadCells(schema, from + 1, nulls, projected, b);
      Ok(Read([None] + tail.value, tail.rest))
    else if from + 1 !in projected then
      var skipped :- SkipValue(schema[from], b);
      var tail :- ReadCells(schema, from + 1, nulls, projected, skipped);
      Ok(Read([None] + tail.value, tail.rest))
    else
      var v :- ReadValue(schema[from], b);
      var tail :- ReadCells(schema, from + 1, nulls, projected, v.rest);
      Ok(Read([Some(v.value)] + tail.value, tail.rest))
  }

  function ReadRow(schema: Schema, projected: set<nat>, b: Bytes): Result<Read<Row>> {
    var key :- ReadKey(b);
    var nulls :- Take(BitmapSize(|schema|), key.rest);
    var cells :- ReadCells(schema, 0, nulls.value, projected, nulls.rest);
    Ok(Read(Row(key.value, cells.value), cells.rest))
  }

  function ReadRows(count: nat, schema: Schema, projected: set<nat>, b: Bytes): Result<Read<seq<Row>>> {
    if count == 0 then Ok(Read([], b))
    else
      var row :- ReadRow(schema, projected, b);
      var tail :- ReadRows(count - 1, schema, projected, row.rest);
      Ok(Read([row.value] + tail.value, tail.rest))
  }

  function MaskRows(rows: seq<Row>, columns: set<nat>): (masked: seq<Row>)
    ensures |masked| == |rows| && forall i :: 0 <= i < |rows| ==> masked[i] == rows[i].Mask(columns)
  {
    Map(rows, Masking(columns))
  }

  function Masking(columns: set<nat>): Row -> Row {
    (r: Row) => r.Mask(columns)
  }

  lemma {:induction false} EncodeCellsStep(cells: seq<Cell>, from: nat, rest: Bytes)
    requires from < |cells|
    ensures EncodeCells(cells[from..]) + rest
            == (if cells[from].Some? then EncodeValue(cells[from].value) else [])
                + (EncodeCells(cells[from + 1..]) + rest)
  {
    assert cells[from..][1..] == cells[from + 1..];
  }

  lemma {:induction false} ReadCellsBack(schema: Schema, from: nat, cells: seq<Cell>, projected: set<nat>,
                                         masked: seq<Cell>, rest: Bytes)
    requires from <= |schema| == |cells| == |masked|
    requires forall i :: 0 <= i < |schema| ==> CellFits(cells[i], schema[i])
    requires forall i :: 0 <= i < |schema| ==> masked[i] == if i + 1 in projected then cells[i] else None
    ensures ReadCells(schema, from, Bitmap(Nulls(cells)), projected, EncodeCells(cells[from..]) + rest)
            == Ok(Read(masked[from..], rest))
    decreases |schema| - from
  {
    if from == |schema| {
      assert EncodeCells(cells[from..]) + rest == rest && masked[from..] == [];
    } else {
      var tail := EncodeCells(cells[from + 1..]) + rest;
      hide ReadValue, SkipValue, EncodeValue, Bitmap, Bit, EncodeCells;
      BitmapBit(Nulls(cells), from);
      ReadCellsBack(schema, from + 1, cells, projected, masked, rest);
      EncodeCellsStep(cells, from, rest);
      assert masked[from..] == [masked[from]] + masked[from + 1..];
      if cells[from].Some? {
        ReadValueBack(cells[from].value, schema[from], tail);
        SkipIsRead(schema[from], EncodeValue(cells[from].value) + tail);
      } else {
        assert [] + tail == tail;
      }
    }
  }

  lemma {:induction false} ReadRowBack(row: Row, schema: Schema, projected: set<nat>, rest: Bytes)
    requires RowFits(row, schema)
    ensures ReadRow(schema, projected, EncodeRow(row) + rest) == Ok(Read(row.Mask(projected), rest))
  {
    hide ReadCells, EncodeCells, Bitmap, EncodeLE, ReadKey, Take, CellFits;
    var nulls, cells := Bitmap(Nulls(row.cells)), EncodeCells(row.cells);
    assert EncodeRow(row) + rest == EncodeLE(ToUnsigned(row.key), 8) + (nulls + (cells + rest));
    ReadKeyBack(row.key, nulls + (cells + rest));
    TakeFront(nulls, cells + rest);
    var masked := row.Mask(projected).cells;
    assert row.cells[0..] == row.cells && masked[0..] == masked;
    ReadCellsBack(schema, 0, row.cells, projected, masked, rest);
  }

  lemma {:induction false} ReadRowsStep(schema: Schema, projected: set<nat>, b: Bytes, row: Row, tail: Bytes,
                                        rows: seq<Row>, rest: Bytes)
    requires ReadRow(schema, projected, b) == Ok(Read(row, tail))
    requires ReadRows(|rows|, schema, projected, tail) == Ok(Read(rows, rest))
    ensures ReadRows(|rows| + 1, schema, projected, b) == Ok(Read([row] + rows, rest))
  {
  }

  lemma {:induction false} RowsFitSplit(rows: seq<Row>, schema: Schema)
    requires rows != [] && RowsFit(rows, schema)
    ensures RowFits(rows[0], schema) && RowsFit(rows[1..], schema)
  {
    FirstIn(rows);
    assert forall r :: r in rows[1..] ==> r in rows;
  }

  /** A row block decodes, under any projection, to exactly the masked rows, and to its last byte. */
  lemma {:induction false} RowBlockRoundTrip(rows: seq<Row>, schema: Schema, projected: set<nat>, rest: Bytes)
    requires RowsFit(rows, schema)
    ensures ReadRows(|rows|, schema, projected, EncodeRows(rows) + rest) == Ok(Read(MaskRows(rows, projected), rest))
  {
    if rows == [] {
      assert EncodeRows(rows) + rest == rest;
    } else {
      hide ReadRow, ReadRows, EncodeRow, RowsFit, MaskRows;
      RowsFitSplit(rows, schema);
      RowBlockRoundTrip(rows[1..], schema, projected, rest);
      var tail := EncodeRows(rows[1..]) + rest;
      assert EncodeRows(rows) + rest == EncodeRow(rows[0]) + tail;
      ReadRowBack(rows[0], schema, projected, tail);
      MaskRowsCons(rows, projected);
      ReadRowsStep(schema, projected, EncodeRows(rows) + rest, rows[0].Mask(projected), tail,
                   MaskRows(rows[1..], projected), rest);
    }
  }

  lemma {:induction false} MaskRowsCons(rows: seq<Row>, columns: set<nat>)
    requires rows != []
    ensures MaskRows(rows, columns) == [rows[0].Mask(columns)] + MaskRows(rows[1..], columns)
  {
  }

  // ---------- Column blocks ----------

  function EncodeKeys(keys: seq<Key>): Bytes {
    if keys == [] then [] else EncodeLE(ToUnsigned(keys[0]), 8) + EncodeKeys(keys[1..])
  }

  function ReadKeys(count: nat, b: Bytes): Result<Read<seq<Key>>> {
    if count == 0 then Ok(Read([], b))
    else
      var key :- ReadKey(b);
      var tail :- ReadKeys(count - 1, key.rest);
      Ok(Read([key.value] + tail.value, tail.rest))
  }

  lemma {:induction false} KeyBlockRoundTrip(keys: seq<Key>, rest: Bytes)
    ensures ReadKeys(|keys|, EncodeKeys(keys) + rest) == Ok(Read(keys, rest))
  {
    if keys == [] {
      assert EncodeKeys(keys) + rest == rest;
    } else {
      KeyBlockRoundTrip(keys[1..], rest);
      var tail := EncodeKeys(keys[1..]) + rest;
      assert EncodeKeys(keys) + rest == EncodeLE(ToUnsigned(keys[0]), 8) + tail;
      ReadKeyBack(keys[0], tail);
      assert keys == [keys[0]] + keys[1..];
    }
  }

  function EncodeColumn(cells: seq<Cell>): Bytes {
    Bitmap(Nulls(cells)) + EncodeCells(cells)
  }

  function ReadColumnCells(t: ValueType, from: nat, count: nat, nulls: Bytes, b: Bytes): Result<Read<seq<Cell>>>
    requires from <= count && BitmapSize(count) <= |nulls|
    decreases count - from
  {
    if from == count then Ok(Read([], b))
    else if Bit(nulls[from / 8], from % 8) then
      var tail :- ReadColumnCells(t, from + 1, count, nulls, b);
      Ok(Read([None] + tail.value, tail.rest))
    else
      var v :- ReadValue(t, b);
      var tail :- ReadColumnCells(t, from + 1, count, nulls, v.rest);
      Ok(Read([Some(v.value)] + tail.value, tail.rest))
  }

  function ReadColumn(t: ValueType, count: nat, b: Bytes): Result<Read<seq<Cell>>> {
    var nulls :- Take(BitmapSize(count), b);
    ReadColumnCells(t, 0, count, nulls.value, nulls.rest)
  }

  lemma {:induction false} ReadColumnCellsBack(cells: seq<Cell>, t: ValueType, from: nat, rest: Bytes)
    requires from <= |cells| && forall i :: 0 <= i < |cells| ==> CellFits(cells[i], t)
    ensures ReadColumnCells(t, from, |cells|, Bitmap(Nulls(cells)), EncodeCells(cells[from..]) + rest)
            == Ok(Read(cells[from..], rest))
    decreases |cells| - from
  {
    if from == |cells| {
      assert EncodeCells(cells[from..]) + rest == rest;
    } else {
      hide ReadValue, EncodeValue, Bitmap, Bit, EncodeCells, CellFits;
      BitmapBit(Nulls(cells), from);
      ReadColumnCellsBack(cells, t, from + 1, rest);
      EncodeCellsStep(cells, from, rest);
      assert cells[from..] == [cells[from]] + cells[from + 1..];
      var tail := EncodeCells(cells[from + 1..]) + rest;
      if cells[from].Some? {
        ReadValueBack(cells[from].value, t, tail);
      } else {
        assert [] + tail == tail;
      }
    }
  }

  /** A column block decodes to exactly the encoded cells, and to its last byte. */
  lemma {:induction false} ColumnBlockRoundTrip(cells: seq<Cell>, t: ValueType, rest: Bytes)
    requires forall i :: 0 <= i < |cells| ==> CellFits(cells[i], t)
    ensures ReadColumn(t, |cells|, EncodeColumn(cells) + rest) == Ok(Read(cells, rest))
  {
    assert EncodeColumn(cells) + rest == Bitmap(Nulls(cells)) + (EncodeCells(cells) + rest);
    TakeFront(Bitmap(Nulls(cells)), EncodeCells(cells) + rest);
    assert cells[0..] == cells;
    ReadColumnCellsBack(cells, t, 0, rest);
  }
}
