/** The ordered map from keys to rows that the memtable and the mock engine keep, and its rows in key order. */
module SortedMaps {
  import opened Storage

  type RowMap = map<Key, Row>

  /** Every row stands under its own key. */
  ghost predicate Keyed(m: RowMap) { forall k :: k in m ==> m[k].key == k }

  ghost predicate IsLeast(m: RowMap, k: Key) { k in m && forall j :: j in m ==> k <= j }

  lemma {:induction false} LeastKey(m: RowMap)
    requires m != map[]
    ensures exists k :: IsLeast(m, k)
    decreases |m|
  {
    var k :| k in m;
    var rest := m - {k};
    if rest == map[] {
      assert forall j :: j in m ==> j == k || j in rest;
      assert IsLeast(m, k);
    } else {
      LeastKey(rest);
      var least :| IsLeast(rest, least);
      assert forall j :: j in m ==> j == k || j in rest;
      assert IsLeast(m, if k < least then k else least);
    }
  }

  ghost function Least(m: RowMap): (k: Key)
    requires m != map[]
    ensures IsLeast(m, k)
  {
    LeastKey(m);
    var k :| IsLeast(m, k);
    k
  }

  /** The rows in key order. */
  ghost function Enumerate(m: RowMap): (rows: seq<Row>)
    ensures |rows| == |m|
    decreases |m|
  {
    if m == map[] then []
    else
      [m[Least(m)]] + Enumerate(m - {Least(m)})
  }

  /** The enumeration is ascending and lists each entry once. */
  lemma {:induction false} EnumerateSorts(m: RowMap)
    requires Keyed(m)
    ensures Ascending(Enumerate(m))
    ensures forall r :: r in Enumerate(m) <==> r.key in m && m[r.key] == r
    decreases |m|
  {
    if m != map[] {
      var k := Least(m);
      var rest := m - {k};
      EnumerateSorts(rest);
      AscendingCons(m[k], Enumerate(rest));
      hide Enumerate;
    }
  }

  /** An ascending list with the entries of the map is its enumeration. */
  lemma {:induction false} EnumerateUnique(m: RowMap, rows: seq<Row>)
    requires Keyed(m) && Ascending(rows)
    requires forall r :: r in rows <==> r.key in m && m[r.key] == r
    ensures rows == Enumerate(m)
  {
    EnumerateSorts(m);
    AscendingUnique(rows, Enumerate(m));
  }

  lemma {:induction false} AscendingCounts(rows: seq<Row>, r: Row)
    requires Ascending(rows)
    ensures multiset(rows)[r] == if r in rows then 1 else 0
  {
    if r in rows {
      var i :| 0 <= i < |rows| && rows[i] == r;
      assert rows == rows[..i] + [rows[i]] + rows[i + 1..];
      assert r !in rows[..i] && r !in rows[i + 1..];
    }
  }

  lemma {:induction false} EnumerateCounts(m: RowMap, r: Row)
    requires Keyed(m)
    ensures multiset(Enumerate(m))[r] == if r.key in m && m[r.key] == r then 1 else 0
  {
    EnumerateSorts(m);
    AscendingCounts(Enumerate(m), r);
  }

  /** Writing a key replaces its row, or adds one. */
  lemma {:induction false} EnumerateWrite(m: RowMap, row: Row)
    requires Keyed(m)
    ensures var before, after := multiset(Enumerate(m)), multiset(Enumerate(m[row.key := row]));
            && (row.key in m ==> m[row.key] in before && after == before - multiset{m[row.key]} + multiset{row})
            && (row.key !in m ==> after == before + multiset{row})
  {
    hide Enumerate;
    var before, after := multiset(Enumerate(m)), multiset(Enumerate(m[row.key := row]));
    forall r ensures before[r] == (if r.key in m && m[r.key] == r then 1 else 0) { EnumerateCounts(m, r); }
    forall r ensures after[r] == if r.key == row.key then (if r == row then 1 else 0) else before[r] {
      EnumerateCounts(m[row.key := row], r);
    }
    if row.key in m {
      assert after == before - multiset{m[row.key]} + multiset{row};
    } else {
      assert after == before + multiset{row};
    }
  }
}
