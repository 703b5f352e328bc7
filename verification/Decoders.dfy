/**
 The decoders of the two cursors as they run: a position walks through the buffer, and every step
 that would pass its end fails. Each is proved to compute the reading function of Codec.
 */
module Decoders {
  import opened Storage
  import opened Codec
  import opened Tables

  /** What was read so far, in front of what the rest of the buffer gives. */
  function Prepend<T>(done: seq<T>, rest: Result<Read<seq<T>>>): Result<Read<seq<T>>> {
    var r :- rest;
    Ok(Read(done + r.value, r.rest))
  }

  lemma {:induction false} PrependMore<T>(done: seq<T>, x: T, rest: Result<Read<seq<T>>>)
    ensures Prepend(done, Prepend([x], rest)) == Prepend(done + [x], rest)
  {
    if rest.Ok? { assert done + ([x] + rest.value.value) == (done + [x]) + rest.value.value; }
  }

  lemma {:induction false} PrependNothing<T>(rest: Result<Read<seq<T>>>)
    ensures Prepend([], rest) == rest
  {
    if rest.Ok? { assert [] + rest.value.value == rest.value.value; }
  }

  lemma {:induction false} TakeAt(data: Bytes, pos: nat, size: nat)
    requires pos <= |data|
    ensures Take(size, data[pos..])
            == if pos + size > |data| then Err else Ok(Read(data[pos..pos + size], data[pos + size..]))
  {
    if pos + size <= |data| {
      assert data[pos..][..size] == data[pos..pos + size] && data[pos..][size..] == data[pos + size..];
    }
  }

  /** read_int64, read_double, read_string: the value at the position, and the position behind it. */
  method ReadValueAt(t: ValueType, data: Bytes, pos: nat) returns (r: Result<(Value, nat)>)
    requires pos <= |data|
    ensures r.Err? <==> ReadValue(t, data[pos..]).Err?
    ensures r.Ok? ==> pos <= r.value.1 <= |data| && ReadValue(t, data[pos..]) == Ok(Read(r.value.0, data[r.value.1..]))
  {
    TakeAt(data, pos, 8);
    TakeAt(data, pos, 4);
    match t
    case INT64 =>
      if pos + 8 > |data| { return Err; }
      return Ok((Int(ReadKey(data[pos..]).value.value), pos + 8));
    case DOUBLE =>
      if pos + 8 > |data| { return Err; }
      return Ok((Double(ReadU64(data[pos..]).value.value), pos + 8));
    case STRING =>
      if pos + 4 > |data| { return Err; }
      var size := ReadU32(data[pos..]).value.value;
      TakeAt(data, pos + 4, size);
      if pos + 4 + size > |data| { return Err; }
      return Ok((Str(data[pos + 4..pos + 4 + size]), pos + 4 + size));
  }

  /** skip_value. */
  method SkipValueAt(t: ValueType, data: Bytes, pos: nat) returns (r: Result<nat>)
    requires pos <= |data|
    ensures r.Err? <==> SkipValue(t, data[pos..]).Err?
    ensures r.Ok? ==> pos <= r.value <= |data| && SkipValue(t, data[pos..]) == Ok(data[r.value..])
  {
    TakeAt(data, pos, 8);
    TakeAt(data, pos, 4);
    if t.STRING? {
      if pos + 4 > |data| { return Err; }
      var size := ReadU32(data[pos..]).value.value;
      TakeAt(data, pos + 4, size);
      if pos + 4 + size > |data| { return Err; }
      return Ok(pos + 4 + size);
    }
    if pos + 8 > |data| { return Err; }
    return Ok(pos + 8);
  }

  // ---------- Row blocks ----------

  /** make_projection_mask: fails on a column outside the schema or listed twice. */
  predicate GoodProjection(width: nat, projection: seq<nat>) {
    && (forall i :: 0 <= i < |projection| ==> projection[i] < width)
    && (forall i, j :: 0 <= i < j < |projection| ==> projection[i] != projection[j])
  }

  function ColumnsOf(projection: seq<nat>): set<nat> { set c | c in projection }

  method MakeProjectionMask(width: nat, projection: seq<nat>) returns (r: Result<seq<bool>>)
    requires width > 0
    ensures r.Ok? <==> GoodProjection(width, projection)
    ensures r.Ok? ==> |r.value| == width && forall c :: 0 <= c < width ==> (r.value[c] <==> c == 0 || c in projection)
  {
    var mask := seq(width, c => false);
    for i := 0 to |projection|
      invariant |mask| == width && GoodProjection(width, projection[..i])
      invariant forall c :: 0 <= c < width ==> (mask[c] <==> c in projection[..i])
    {
      var column := projection[i];
      if column >= width { return Err; }
      if mask[column] {
        var j :| 0 <= j < i && projection[..i][j] == column;
        assert projection[j] == projection[i];
        return Err;
      }
      mask := mask[column := true];
      assert projection[..i + 1] == projection[..i] + [column];
    }
    assert projection[..|projection|] == projection;
    return Ok(mask[0 := true]);
  }

  /** The cells of one row, column by column. */
  method DecodeCells(data: Bytes, start: nat, schema: Schema, nulls: Bytes, mask: seq<bool>, ghost projected: set<nat>)
    returns (r: Result<(seq<Cell>, nat)>)
    requires start <= |data| && |mask| == Width(schema) && BitmapSize(|schema|) <= |nulls|
    requires forall c :: 0 < c < |mask| ==> (mask[c] <==> c in projected)
    ensures r.Err? <==> ReadCells(schema, 0, nulls, projected, data[start..]).Err?
    ensures r.Ok? ==> start <= r.value.1 <= |data|
                      && ReadCells(schema, 0, nulls, projected, data[start..]) == Ok(Read(r.value.0, data[r.value.1..]))
  {
    hide ReadValue, SkipValue, Bit;
    var cells, pos: nat := [], start;
    ghost var spec := ReadCells(schema, 0, nulls, projected, data[start..]);
    PrependNothing(spec);
    for i := 0 to |schema|
      invariant start <= pos <= |data|
      invariant Prepend(cells, ReadCells(schema, i, nulls, projected, data[pos..])) == spec
    {
      if Bit(nulls[i / 8], i % 8) {
        PrependMore(cells, None, ReadCells(schema, i + 1, nulls, projected, data[pos..]));
        cells := cells + [None];
      } else if !mask[i + 1] {
        var next := SkipValueAt(schema[i], data, pos);
        if next.Err? { return Err; }
        pos := next.value;
        PrependMore(cells, None, ReadCells(schema, i + 1, nulls, projected, data[pos..]));
        cells := cells + [None];
      } else {
        var v := ReadValueAt(schema[i], data, pos);
        if v.Err? { return Err; }
        pos := v.value.1;
        PrependMore(cells, Some(v.value.0), ReadCells(schema, i + 1, nulls, projected, data[pos..]));
        cells := cells + [Some(v.value.0)];
      }
    }
    assert cells + [] == cells;
    return Ok((cells, pos));
  }

  /** decode_row_block. */
  method DecodeRowBlock(data: Bytes, rowCount: nat, schema: Schema, mask: seq<bool>, ghost projected: set<nat>)
    returns (r: Result<seq<Row>>)
    requires |mask| == Width(schema) && forall c :: 0 < c < |mask| ==> (mask[c] <==> c in projected)
    ensures r.Err? <==> ReadRows(rowCount, schema, projected, data).Err?
    ensures r.Ok? ==> r.value == ReadRows(rowCount, schema, projected, data).value.value
  {
    hide ReadCells;
    var rows, pos: nat := [], 0;
    ghost var spec := ReadRows(rowCount, schema, projected, data);
    assert data[0..] == data;
    PrependNothing(spec);
    for i := 0 to rowCount
      invariant pos <= |data|
      invariant Prepend(rows, ReadRows(rowCount - i, schema, projected, data[pos..])) == spec
    {
      TakeAt(data, pos, 8);
      if pos + 8 > |data| { return Err; }
      var key := ReadKey(data[pos..]).value.value;
      var size := BitmapSize(|schema|);
      TakeAt(data, pos + 8, size);
      if pos + 8 + size > |data| { return Err; }
      var nulls := data[pos + 8..pos + 8 + size];
      var cells := DecodeCells(data, pos + 8 + size, schema, nulls, mask, projected);
      if cells.Err? { return Err; }
      ghost var before := pos;
      pos := cells.value.1;
      var row := Row(key, cells.value.0);
      assert ReadRow(schema, projected, data[before..]) == Ok(Read(row, data[pos..]));
      PrependMore(rows, row, ReadRows(rowCount - i - 1, schema, projected, data[pos..]));
      rows := rows + [row];
    }
    assert rows + [] == rows;
    return Ok(rows);
  }

  // ---------- Column blocks ----------

  /** decode_key_block. */
  method DecodeKeyBlock(data: Bytes, count: nat) returns (r: Result<seq<Key>>)
    ensures r.Err? <==> ReadKeys(count, data).Err?
    ensures r.Ok? ==> r.value == ReadKeys(count, data).value.value
  {
    var keys: seq<Key>, pos: nat := [], 0;
    ghost var spec := ReadKeys(count, data);
    assert data[0..] == data;
    PrependNothing(spec);
    for i := 0 to count
      invariant pos <= |data|
      invariant Prepend(keys, ReadKeys(count - i, data[pos..])) == spec
    {
      TakeAt(data, pos, 8);
      if pos + 8 > |data| { return Err; }
      var key := ReadKey(data[pos..]).value.value;
      pos := pos + 8;
      PrependMore(keys, key, ReadKeys(count - i - 1, data[pos..]));
      keys := keys + [key];
    }
    assert keys + [] == keys;
    return Ok(keys);
  }

  /** decode_value_column_block. */
  method DecodeValueColumnBlock(data: Bytes, count: nat, t: ValueType) returns (r: Result<seq<Cell>>)
    ensures r.Err? <==> ReadColumn(t, count, data).Err?
    ensures r.Ok? ==> r.value == ReadColumn(t, count, data).value.value
  {
    hide ReadValue, Bit;
    var size := BitmapSize(count);
    if size > |data| { return Err; }
    var nulls, cells, pos := data[..size], [], size;
    ghost var spec := ReadColumnCells(t, 0, count, nulls, data[size..]);
    PrependNothing(spec);
    for i := 0 to count
      invariant pos <= |data|
      invariant Prepend(cells, ReadColumnCells(t, i, count, nulls, data[pos..])) == spec
    {
      if Bit(nulls[i / 8], i % 8) {
        PrependMore(cells, None, ReadColumnCells(t, i + 1, count, nulls, data[pos..]));
        cells := cells + [None];
      } else {
        var v := ReadValueAt(t, data, pos);
        if v.Err? { return Err; }
        pos := v.value.1;
        PrependMore(cells, Some(v.value.0), ReadColumnCells(t, i + 1, count, nulls, data[pos..]));
        cells := cells + [Some(v.value.0)];
      }
    }
    assert cells + [] == cells;
    return Ok(cells);
  }
}
