/** The memory layer: the active memtable, the queue of frozen ones, and range reads over both. */
module Memory {
  import opened Seqs
  import opened Storage
  import opened SortedMaps

  class MemTable {
    var data: RowMap

    ghost predicate Valid()
      reads this
    {
      Keyed(data)
    }

    constructor ()
      ensures Valid() && data == map[]
    {
      data := map[];
    }

    method Insert(row: Row)
      requires Valid()
      modifies this
      ensures Valid() && data == old(data)[row.key := row]
    {
      data := data[row.key := row];
    }

    /** Walking the map: its rows in key order. */
    method SortedRows() returns (rows: seq<Row>)
      requires Valid()
      ensures rows == Enumerate(data)
    {
      rows := [];
      var rest := data;
      while rest != map[]
        invariant Keyed(rest)
        invariant rows + Enumerate(rest) == Enumerate(data)
        decreases |rest|
      {
        LeastKey(rest);
        var k :| k in rest && forall j :: j in rest ==> k <= j;
        assert k == Least(rest);
        rows := rows + [rest[k]];
        rest := rest - {k};
      }
    }

    /** to_sorted_immutable: the rows move out in key order. */
    method ToSortedImmutable() returns (rows: seq<Row>)
      requires Valid()
      modifies this
      ensures data == map[] && rows == Enumerate(old(data))
    {
      rows := SortedRows();
      data := map[];
    }
  }

  /** Number of leading rows below the key. */
  function RowsBelow(rows: seq<Row>, key: Key): (n: nat)
    ensures n <= |rows|
    ensures forall i :: 0 <= i < n ==> rows[i].key < key
    ensures n < |rows| ==> key <= rows[n].key
  {
    if rows == [] || key <= rows[0].key then 0 else 1 + RowsBelow(rows[1..], key)
  }

  lemma {:induction false} RowsBelowIs(rows: seq<Row>, key: Key, n: nat)
    requires n <= |rows| && (forall i :: 0 <= i < n ==> rows[i].key < key) && (n < |rows| ==> key <= rows[n].key)
    ensures RowsBelow(rows, key) == n
  {
    if n > 0 { RowsBelowIs(rows[1..], key, n - 1); }
  }

  /** lower_bound over the sorted rows of a frozen memtable. */
  method LowerBound(rows: seq<Row>, key: Key) returns (position: nat)
    requires Ascending(rows)
    ensures position == RowsBelow(rows, key)
  {
    var low, high := 0, |rows|;
    while low < high
      invariant 0 <= low <= high <= |rows|
      invariant forall i :: 0 <= i < low ==> rows[i].key < key
      invariant forall i :: high <= i < |rows| ==> key <= rows[i].key
    {
      var middle := (low + high) / 2;
      if rows[middle].key < key {
        low := middle + 1;
      } else {
        high := middle;
      }
    }
    position := low;
    RowsBelowIs(rows, key, low);
  }

  lemma {:induction false} FilterWindow(rows: seq<Row>, p: Row -> bool, from: nat, end: nat)
    requires from <= end <= |rows|
    requires forall i :: 0 <= i < |rows| ==> (p(rows[i]) <==> from <= i < end)
    ensures Filter(rows, p) == rows[from..end]
  {
    hide Filter;
    var a, b, c := rows[..from], rows[from..end], rows[end..];
    assert rows == a + b + c;
    FilterConcat(a + b, c, p);
    FilterConcat(a, b, p);
    FilterNone(a, p);
    FilterAll(b, p);
    FilterNone(c, p);
  }

  /** A row lies between the ends of an inverted range. */
  ghost predicate Overrun(rows: seq<Row>, range: KeyRange) {
    range.from.Some? && range.to.Some?
    && exists i :: 0 <= i < |rows| && range.to.value <= rows[i].key < range.from.value
  }

  /**
   The rows between two lower bounds are the rows of the range; the cursor of a memtable walks them. With the
   first bound behind the second, which needs an inverted range around a row, the walk would miss its end.
   */
  method RangeRows(rows: seq<Row>, range: KeyRange) returns (part: Option<seq<Row>>)
    requires Ascending(rows)
    ensures part.None? <==> Overrun(rows, range)
    ensures part.Some? ==> part.value == Filter(rows, range.Has())
  {
    var from, end := 0, |rows|;
    if range.from.Some? { from := LowerBound(rows, range.from.value); }
    if range.to.Some? { end := LowerBound(rows, range.to.value); }
    if end < from {
      assert range.to.value <= rows[end].key < range.from.value;
      return None;
    }
    forall i | 0 <= i < |rows| ensures range.Has()(rows[i]) <==> from <= i < end {
      if range.from.Some? && from < |rows| && from < i { assert rows[from].key < rows[i].key; }
      if range.to.Some? && end < |rows| && end < i { assert rows[end].key < rows[i].key; }
    }
    FilterWindow(rows, range.Has(), from, end);
    part := Some(rows[from..end]);
  }

  class MemoryLayer {
    const threshold: nat
    var active: MemTable
    var immutables: seq<seq<Row>>

    ghost predicate Valid()
      reads this, active
    {
      active.Valid()
    }

    constructor (threshold: nat)
      ensures Valid() && fresh(active) && active.data == map[] && immutables == [] && this.threshold == threshold
    {
      this.threshold := threshold;
      active := new MemTable();
      immutables := [];
    }

    /** insert: a memtable that reaches the threshold is frozen and a new one takes its place. */
    method Insert(row: Row)
      requires Valid()
      modifies this, active
      ensures Valid() && (active == old(active) || fresh(active))
      ensures var written := old(active.data)[row.key := row];
              if |written| >= threshold
              then active.data == map[] && immutables == old(immutables) + [Enumerate(written)]
              else active.data == written && immutables == old(immutables)
    {
      active.Insert(row);
      if |active.data| < threshold { return; }
      ActiveToImmutable();
    }

    method ActiveToImmutable()
      requires Valid()
      modifies this, active
      ensures Valid() && fresh(active) && active.data == map[]
      ensures immutables == old(immutables) + [Enumerate(old(active.data))]
    {
      var rows := active.ToSortedImmutable();
      immutables := immutables + [rows];
      active := new MemTable();
    }

    /** front_immutable: the oldest frozen memtable. */
    method FrontImmutable() returns (front: Option<seq<Row>>)
      ensures front == if immutables == [] then None else Some(immutables[0])
    {
      if immutables == [] { return None; }
      return Some(immutables[0]);
    }

    method PopFrontImmutable()
      modifies this`immutables
      ensures immutables == if old(immutables) == [] then [] else old(immutables)[1..]
    {
      if immutables == [] { return; }
      immutables := immutables[1..];
    }
  }
}
