/** The order of result values that ORDER BY and GROUP BY use: NULL last, several keys one after the other. */
module Ordering {
  import opened Storage
  import opened Doubles
  import opened Expressions

  datatype Tag = IntTag | DoubleTag | TextTag | BoolTag

  function TagOf(v: ResultValue): Tag {
    match v
    case Bool(_) => BoolTag
    case Data(Int(_)) => IntTag
    case Data(Double(_)) => DoubleTag
    case Data(Str(_)) => TextTag
  }

  /** A NULL or a value of that tag; a NaN has no place in any order. */
  predicate Ranked(v: Nullable, tag: Tag) {
    v.Some? ==> TagOf(v.value) == tag && !(v.value.Data? && v.value.value.Double? && IsNaN(v.value.value.bits))
  }

  /** CompareNullableResultValues. */
  function CompareNullable(a: Nullable, b: Nullable): Result<int> {
    if a.None? && b.None? then Ok(0)
    else if a.None? then Ok(1)
    else if b.None? then Ok(-1)
    else Compare(a.value, b.value)
  }

  lemma {:induction false} BytesReverse(a: seq<Byte>, b: seq<Byte>)
    ensures CompareBytes(b, a) == -CompareBytes(a, b)
    ensures CompareBytes(a, b) == 0 <==> a == b
  {
    if a != [] && b != [] {
      BytesReverse(a[1..], b[1..]);
      assert a == [a[0]] + a[1..] && b == [b[0]] + b[1..];
    }
  }

  lemma {:induction false} BytesTransitive(a: seq<Byte>, b: seq<Byte>, c: seq<Byte>)
    requires CompareBytes(a, b) <= 0 && CompareBytes(b, c) <= 0
    ensures CompareBytes(a, c) <= 0
  {
    if a != [] && b != [] && c != [] && a[0] == b[0] == c[0] { BytesTransitive(a[1..], b[1..], c[1..]); }
  }

  lemma {:induction false} CompareReverse(a: Nullable, b: Nullable, tag: Tag)
    requires Ranked(a, tag) && Ranked(b, tag)
    ensures CompareNullable(a, b).Ok? && CompareNullable(b, a) == Ok(-CompareNullable(a, b).value)
  {
    if a.Some? && b.Some? && tag.TextTag? { BytesReverse(a.value.value.bytes, b.value.value.bytes); }
  }

  lemma {:induction false} CompareTransitive(a: Nullable, b: Nullable, c: Nullable, tag: Tag)
    requires Ranked(a, tag) && Ranked(b, tag) && Ranked(c, tag)
    requires CompareNullable(a, b).Ok? && CompareNullable(b, c).Ok?
    requires CompareNullable(a, b).value <= 0 && CompareNullable(b, c).value <= 0
    ensures CompareNullable(a, c).Ok? && CompareNullable(a, c).value <= 0
    ensures CompareNullable(a, c).value == 0 ==> CompareNullable(a, b).value == 0 && CompareNullable(b, c).value == 0
  {
    if a.Some? && b.Some? && c.Some? && tag.TextTag? {
      BytesTransitive(a.value.value.bytes, b.value.value.bytes, c.value.value.bytes);
      if CompareBytes(a.value.value.bytes, c.value.value.bytes) == 0 {
        BytesReverse(a.value.value.bytes, c.value.value.bytes);
        BytesReverse(a.value.value.bytes, b.value.value.bytes);
        BytesReverse(b.value.value.bytes, c.value.value.bytes);
      }
    }
  }

  // ---------- Several keys ----------

  type Keys = seq<Nullable>

  ghost predicate KeysRanked(keys: Keys, tags: seq<Tag>) {
    |keys| == |tags| && forall i :: 0 <= i < |keys| ==> Ranked(keys[i], tags[i])
  }

  /** The comparators of ORDER BY (with directions) and, all ascending, of the group map; 0 on an exception. */
  function CompareKeys(x: Keys, y: Keys, descending: seq<bool>): int
    decreases |descending|
  {
    if x == [] || y == [] || descending == [] then 0
    else
      var first := CompareNullable(x[0], y[0]);
      if first.Err? then 0
      else if first.value != 0 then (if descending[0] then -first.value else first.value)
      else CompareKeys(x[1..], y[1..], descending[1..])
  }

  lemma {:induction false} KeysReverse(x: Keys, y: Keys, descending: seq<bool>, tags: seq<Tag>)
    requires KeysRanked(x, tags) && KeysRanked(y, tags)
    ensures CompareKeys(y, x, descending) == -CompareKeys(x, y, descending)
    decreases |descending|
  {
    if x != [] && y != [] && descending != [] {
      CompareReverse(x[0], y[0], tags[0]);
      KeysReverse(x[1..], y[1..], descending[1..], tags[1..]);
    }
  }

  lemma {:induction false} KeysTransitive(x: Keys, y: Keys, z: Keys, descending: seq<bool>, tags: seq<Tag>)
    requires KeysRanked(x, tags) && KeysRanked(y, tags) && KeysRanked(z, tags)
    requires CompareKeys(x, y, descending) <= 0 && CompareKeys(y, z, descending) <= 0
    ensures CompareKeys(x, z, descending) <= 0
    decreases |descending|
  {
    hide CompareNullable, Ranked;
    if x != [] && descending != [] {
      var tag := tags[0];
      CompareReverse(x[0], y[0], tag);
      CompareReverse(y[0], z[0], tag);
      CompareReverse(x[0], z[0], tag);
      if descending[0] {
        CompareTransitive(z[0], y[0], x[0], tag);
      } else {
        CompareTransitive(x[0], y[0], z[0], tag);
      }
      if CompareNullable(x[0], z[0]).value == 0 {
        KeysTransitive(x[1..], y[1..], z[1..], descending[1..], tags[1..]);
      }
    }
  }

  // ---------- Sorting ----------

  /** A result row with the keys it is sorted by. */
  datatype SortRow<T> = SortRow(keys: Keys, row: T)

  ghost predicate InOrder<T>(rows: seq<SortRow<T>>, descending: seq<bool>) {
    forall i, j :: 0 <= i < j < |rows| ==> CompareKeys(rows[i].keys, rows[j].keys, descending) <= 0
  }

  ghost predicate AllRanked<T(!new)>(rows: seq<SortRow<T>>, tags: seq<Tag>) {
    forall r :: r in rows ==> KeysRanked(r.keys, tags)
  }

  /** std::sort: some permutation without inversions. */
  method Sort<T(!new)>(rows: seq<SortRow<T>>, descending: seq<bool>, ghost tags: seq<Tag>)
    returns (ordered: seq<SortRow<T>>)
    requires AllRanked(rows, tags)
    ensures multiset(ordered) == multiset(rows) && InOrder(ordered, descending)
  {
    ordered := [];
    for i := 0 to |rows|
      invariant multiset(ordered) == multiset(rows[..i]) && InOrder(ordered, descending) && AllRanked(ordered, tags)
    {
      assert rows[..i + 1] == rows[..i] + [rows[i]] && rows[i] in rows;
      ordered := Place(rows[i], ordered, descending, tags);
    }
    assert rows[..|rows|] == rows;
  }

  method Place<T(!new)>(row: SortRow<T>, rows: seq<SortRow<T>>, descending: seq<bool>, ghost tags: seq<Tag>)
    returns (placed: seq<SortRow<T>>)
    requires InOrder(rows, descending) && AllRanked(rows, tags) && KeysRanked(row.keys, tags)
    ensures multiset(placed) == multiset(rows) + multiset{row} && InOrder(placed, descending) && AllRanked(placed, tags)
  {
    hide CompareKeys, KeysRanked;
    var k := |rows|;
    while k > 0 && CompareKeys(row.keys, rows[k - 1].keys, descending) < 0
      invariant 0 <= k <= |rows|
      invariant forall j :: k <= j < |rows| ==> CompareKeys(row.keys, rows[j].keys, descending) <= 0
    {
      k := k - 1;
    }
    if k > 0 { AllBelow(row, rows, k, descending, tags); }
    PlacedInOrder(rows, k, row, descending);
    PlacedRows(rows, k, row);
    placed := rows[..k] + [row] + rows[k..];
  }

  lemma {:induction false} AllBelow<T(!new)>(row: SortRow<T>, rows: seq<SortRow<T>>, k: nat, descending: seq<bool>,
                                             tags: seq<Tag>)
    requires 0 < k <= |rows| && InOrder(rows, descending) && AllRanked(rows, tags) && KeysRanked(row.keys, tags)
    requires CompareKeys(row.keys, rows[k - 1].keys, descending) >= 0
    ensures forall i :: 0 <= i < k ==> CompareKeys(rows[i].keys, row.keys, descending) <= 0
  {
    hide CompareKeys, KeysRanked;
    forall i | 0 <= i < k ensures CompareKeys(rows[i].keys, row.keys, descending) <= 0 {
      assert rows[i] in rows && rows[k - 1] in rows;
      KeysReverse(row.keys, rows[k - 1].keys, descending, tags);
      if i < k - 1 { KeysTransitive(rows[i].keys, rows[k - 1].keys, row.keys, descending, tags); }
    }
  }

  lemma {:induction false} PlacedRows<T>(rows: seq<T>, k: nat, row: T)
    requires k <= |rows|
    ensures multiset(rows[..k] + [row] + rows[k..]) == multiset(rows) + multiset{row}
    ensures forall r :: r in rows[..k] + [row] + rows[k..] ==> r in rows || r == row
  {
    assert rows == rows[..k] + rows[k..];
  }

  lemma {:induction false} PlacedInOrder<T>(rows: seq<SortRow<T>>, k: nat, row: SortRow<T>, descending: seq<bool>)
    requires k <= |rows| && InOrder(rows, descending)
    requires forall i :: 0 <= i < k ==> CompareKeys(rows[i].keys, row.keys, descending) <= 0
    requires forall j :: k <= j < |rows| ==> CompareKeys(row.keys, rows[j].keys, descending) <= 0
    ensures InOrder(rows[..k] + [row] + rows[k..], descending)
  {
    hide CompareKeys;
    var placed := rows[..k] + [row] + rows[k..];
    forall i, j | 0 <= i < j < |placed| ensures CompareKeys(placed[i].keys, placed[j].keys, descending) <= 0 {
      assert placed[i] == if i < k then rows[i] else if i == k then row else rows[i - 1];
      assert placed[j] == if j < k then rows[j] else if j == k then row else rows[j - 1];
    }
  }
}
