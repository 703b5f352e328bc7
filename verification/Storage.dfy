/** Values, rows and key ranges shared by every part of the model. */
module Storage {
  import opened Seqs

  const INT64_MIN: int := -0x8000_0000_0000_0000
  const INT64_MAX: int := 0x7FFF_FFFF_FFFF_FFFF
  const U16_LIMIT: int := 0x1_0000
  const U32_LIMIT: int := 0x1_0000_0000
  const U64_LIMIT: int := 0x1_0000_0000_0000_0000

  type Key = k: int | INT64_MIN <= k <= INT64_MAX
  type Byte = b: int | 0 <= b < 256
  type U32 = n: int | 0 <= n < U32_LIMIT
  type U64 = n: int | 0 <= n < U64_LIMIT

  datatype Option<+T> = None | Some(value: T)

  datatype Result<+T> = Ok(value: T) | Err {
    predicate IsFailure() { Err? }
    function PropagateFailure<U>(): Result<U>
      requires Err?
    {
      Err
    }
    function Extract(): T
      requires Ok?
    {
      value
    }
  }

  datatype ValueType = INT64 | DOUBLE | STRING

  /** A stored value. A double is its 64-bit pattern, a string its bytes. */
  datatype Value = Int(n: Key) | Double(bits: U64) | Str(bytes: seq<Byte>)

  type Cell = Option<Value>

  /** A row that passed validation: its key, and the cells of columns 1, 2, ... */
  datatype Row = Row(key: Key, cells: seq<Cell>) {
    predicate HasColumn(column: nat) { column <= |cells| }

    function Column(column: nat): Cell
      requires HasColumn(column)
    {
      if column == 0 then Some(Int(key)) else cells[column - 1]
    }

    /** The cell of a column; NULL when the row has no such column. */
    function Lookup(column: nat): Cell { if HasColumn(column) then Column(column) else None }

    /** The row with every column outside `columns` read as NULL; the key always stays. */
    function Mask(columns: set<nat>): Row {
      Row(key, seq(|cells|, i requires 0 <= i < |cells| => if i + 1 in columns then cells[i] else None))
    }
  }

  /** Types of the columns after the key column, which is always column 0 and INT64. */
  type Schema = seq<ValueType>

  predicate CellFits(cell: Cell, t: ValueType) {
    match cell
    case None => true
    case Some(Int(_)) => t == INT64
    case Some(Double(_)) => t == DOUBLE
    case Some(Str(s)) => t == STRING && |s| < U32_LIMIT
  }

  predicate RowFits(row: Row, schema: Schema) {
    |row.cells| == |schema| && forall i :: 0 <= i < |schema| ==> CellFits(row.cells[i], schema[i])
  }

  ghost predicate RowsFit(rows: seq<Row>, schema: Schema) {
    forall r :: r in rows ==> RowFits(r, schema)
  }

  /** The half-open key range [from, to); a missing bound is unbounded. */
  datatype KeyRange = KeyRange(from: Option<Key>, to: Option<Key>) {
    predicate Ordered() { from.Some? && to.Some? ==> from.value <= to.value }

    predicate Contains(key: Key) {
      (from.Some? ==> from.value <= key) && (to.Some? ==> key < to.value)
    }

    /** The row test "the key lies in this range". */
    function Has(): Row -> bool {
      (r: Row) => Contains(r.key)
    }
  }

  const FULL_RANGE := KeyRange(None, None)

  ghost predicate Ascending(rows: seq<Row>) {
    forall i, j :: 0 <= i < j < |rows| ==> rows[i].key < rows[j].key
  }

  ghost predicate WeaklyAscending(rows: seq<Row>) {
    forall i, j :: 0 <= i <= j < |rows| ==> rows[i].key <= rows[j].key
  }

  /** An ascending sequence is determined by its elements. */
  lemma {:induction false} AscendingUnique(a: seq<Row>, b: seq<Row>)
    requires Ascending(a) && Ascending(b)
    requires forall r :: r in a <==> r in b
    ensures a == b
  {
    if a == [] {
      if b != [] {
        FirstIn(b);
      }
    } else if b == [] {
      FirstIn(a);
    } else {
      assert a[0] in b && b[0] in a;
      forall r ensures r in a[1..] <==> r in b[1..] {
        assert r in a <==> r == a[0] || r in a[1..];
        assert r in b <==> r == b[0] || r in b[1..];
      }
      AscendingUnique(a[1..], b[1..]);
    }
  }

  lemma {:induction false} AscendingCons(first: Row, rest: seq<Row>)
    requires Ascending(rest)
    requires forall r :: r in rest ==> first.key < r.key
    ensures Ascending([first] + rest)
  {
    var all := [first] + rest;
    forall i, j | 0 <= i < j < |all| ensures all[i].key < all[j].key {
      assert all[j] == rest[j - 1] && all[j] in rest;
      if i > 0 { assert all[i] == rest[i - 1]; }
    }
  }

  lemma {:induction false} FilterAscending(rows: seq<Row>, p: Row -> bool)
    requires Ascending(rows)
    ensures Ascending(Filter(rows, p))
  {
    if rows != [] {
      var rest := rows[1..];
      FilterAscending(rest, p);
      forall r | r in rest ensures rows[0].key < r.key {
        var i :| 0 <= i < |rest| && rest[i] == r;
        assert r == rows[i + 1];
      }
      InFilter(rest, p);
      if p(rows[0]) { AscendingCons(rows[0], Filter(rest, p)); }
    }
  }

  /** Masking keeps keys, so it keeps the order. */
  lemma {:induction false} MaskKeeps(row: Row, columns: set<nat>)
    ensures row.Mask(columns).key == row.key
    ensures |row.Mask(columns).cells| == |row.cells|
    ensures forall c :: row.HasColumn(c) && (c in columns || c == 0) ==> row.Mask(columns).Column(c) == row.Column(c)
  {
  }
}
