/** ORDER BY over groups: when the output depends on the order in which the rows were scanned. */
module GroupOrder {
  import opened Seqs
  import opened Storage
  import opened Expressions
  import opened Ordering
  import opened PlainSelect
  import opened Grouping

  /** How ORDER BY compares two groups when these rows are the first ones scanned of theirs. */
  function CompareFirsts(q: GroupedQuery, a: Row, b: Row): int {
    CompareKeys(OrderValues(q, a), OrderValues(q, b), Directions(q.order))
  }

  /** Any two groups compare alike, whichever of their members were scanned first. */
  ghost predicate OrderSettled(q: GroupedQuery, rows: seq<Row>) {
    forall g, h, g', h' ::
      g in rows && h in rows && g' in rows && h' in rows && KeyOf(q, g) == KeyOf(q, g') && KeyOf(q, h) == KeyOf(q, h')
      && KeyOf(q, g) != KeyOf(q, h) && CompareFirsts(q, g, h) <= 0
      ==> CompareFirsts(q, g', h') <= 0
  }

  /** An order of the groups that the query may show. */
  ghost predicate Allowed(q: GroupedQuery, rows: seq<Row>, p: seq<Keys>) {
    exists keys :: Arrangement(q, rows, keys, p)
  }

  ghost predicate SameOrders(q: GroupedQuery, a: seq<Row>, b: seq<Row>) {
    forall p :: Allowed(q, a, p) <==> Allowed(q, b, p)
  }

  /** Every scan order of these rows allows the same orders of the groups. */
  ghost predicate ScanOrderFree(q: GroupedQuery, rows: seq<Row>) {
    forall b :: multiset(b) == multiset(rows) ==> SameOrders(q, rows, b)
  }

  lemma {:induction false} Permuted(q: GroupedQuery, schema: Schema, a: seq<Row>, b: seq<Row>)
    requires multiset(a) == multiset(b)
    ensures forall r :: r in a <==> r in b
    ensures Orderable(q, schema, a) ==> Orderable(q, schema, b)
    ensures OrderSettled(q, a) ==> OrderSettled(q, b)
  {
    hide GroupedWellTyped, RowFits, ValueOf, CompareFirsts, KeyOf, IsNaNCell;
    forall r ensures r in a <==> r in b { assert r in multiset(a) <==> r in multiset(b); }
  }

  // ---------- The first member of a group ----------

  lemma {:induction false} FirstOf(q: GroupedQuery, rows: seq<Row>, key: Keys) returns (first: Row)
    requires HasGroup(q, rows, key)
    ensures first in rows && KeyOf(q, first) == key && OrderValuesFor(q, rows, key) == OrderValues(q, first)
  {
    hide KeyOf, OrderValues, Filter;
    var members := Members(q, rows, key);
    var row :| row in rows && KeyOf(q, row) == key;
    InFilter(rows, InGroup(q, key));
    assert row in members;
    FirstIn(members);
    first := members[0];
  }

  /** The row at the head of a scan is the first of its group; so is the next one, in another group. */
  lemma {:induction false} HeadsAreFirst(q: GroupedQuery, g: Row, h: Row, rest: seq<Row>)
    requires KeyOf(q, g) != KeyOf(q, h)
    ensures OrderValuesFor(q, [g, h] + rest, KeyOf(q, g)) == OrderValues(q, g)
    ensures OrderValuesFor(q, [g, h] + rest, KeyOf(q, h)) == OrderValues(q, h)
  {
    hide KeyOf, OrderValues;
    var all := [g, h] + rest;
    assert all[1..] == [h] + rest && ([h] + rest)[1..] == rest;
    assert Members(q, all, KeyOf(q, g))[0] == g;
    assert Members(q, all, KeyOf(q, h)) == Members(q, [h] + rest, KeyOf(q, h));
  }

  /** A scan of the same rows that starts with these two. */
  lemma {:induction false} StartWith(q: GroupedQuery, rows: seq<Row>, g: Row, h: Row) returns (rest: seq<Row>)
    requires g in rows && h in rows && g != h
    ensures multiset([g, h] + rest) == multiset(rows)
  {
    var others := StartWithOne(rows, g);
    assert h in others by { assert h in multiset(rows) && h in multiset{g} + multiset(others); }
    rest := StartWithOne(others, h);
    assert [g, h] + rest == [g] + ([h] + rest);
  }

  lemma {:induction false} StartWithOne(rows: seq<Row>, g: Row) returns (rest: seq<Row>)
    requires g in rows
    ensures multiset(rows) == multiset{g} + multiset(rest) && multiset([g] + rest) == multiset(rows)
  {
    var i :| 0 <= i < |rows| && rows[i] == g;
    TakeOut(rows, i);
    rest := rows[..i] + rows[i + 1..];
  }

  // ---------- A settled order does not depend on the scan ----------

  lemma {:induction false} SelfCompare(q: GroupedQuery, schema: Schema, rows: seq<Row>, g: Row, h: Row)
    requires Orderable(q, schema, rows) && g in rows && h in rows
    ensures CompareFirsts(q, h, g) == -CompareFirsts(q, g, h) && CompareFirsts(q, g, g) == 0
  {
    hide GroupedWellTyped, RowFits, NoNaNKeys, NoNaNOrder, OrderValues, CompareKeys, KeysRanked;
    OrderRanked(q, schema, rows, g);
    OrderRanked(q, schema, rows, h);
    KeysReverse(OrderValues(q, g), OrderValues(q, h), Directions(q.order), OrderTags(q.order, schema));
    KeysReverse(OrderValues(q, g), OrderValues(q, g), Directions(q.order), OrderTags(q.order, schema));
  }

  lemma {:induction false} SettledKeepsOrder(q: GroupedQuery, schema: Schema, a: seq<Row>, b: seq<Row>, p: seq<Keys>)
    requires Orderable(q, schema, a) && OrderSettled(q, a) && multiset(a) == multiset(b)
    requires GroupsSorted(q, a, p) && forall k :: k in p ==> HasGroup(q, a, k)
    ensures GroupsSorted(q, b, p)
  {
    hide Orderable, OrderSettled, OrderValuesFor, HasGroup, CompareKeys, KeyOf, OrderValues;
    Permuted(q, schema, a, b);
    forall i, j | 0 <= i < j < |p|
      ensures CompareKeys(OrderValuesFor(q, b, p[i]), OrderValuesFor(q, b, p[j]), Directions(q.order)) <= 0
    {
      assert p[i] in p && p[j] in p;
      SettledPair(q, schema, a, b, p[i], p[j]);
    }
  }

  lemma {:induction false} SettledPair(q: GroupedQuery, schema: Schema, a: seq<Row>, b: seq<Row>, x: Keys, y: Keys)
    requires Orderable(q, schema, a) && OrderSettled(q, a) && multiset(a) == multiset(b)
    requires HasGroup(q, a, x) && HasGroup(q, a, y)
    requires CompareKeys(OrderValuesFor(q, a, x), OrderValuesFor(q, a, y), Directions(q.order)) <= 0
    ensures CompareKeys(OrderValuesFor(q, b, x), OrderValuesFor(q, b, y), Directions(q.order)) <= 0
  {
    hide Orderable, HasGroup, OrderValuesFor, CompareKeys, KeyOf, OrderValues;
    Permuted(q, schema, a, b);
    SameGroups(q, a, b, x);
    SameGroups(q, a, b, y);
    var g := FirstOf(q, a, x);
    var h := FirstOf(q, a, y);
    var g' := FirstOf(q, b, x);
    var h' := FirstOf(q, b, y);
    if x == y {
      SelfCompare(q, schema, b, g', g');
    } else {
      assert CompareFirsts(q, g, h) <= 0;
      assert CompareFirsts(q, g', h') <= 0;
    }
  }

  lemma {:induction false} AllowedEither(q: GroupedQuery, schema: Schema, a: seq<Row>, b: seq<Row>, p: seq<Keys>)
    requires Orderable(q, schema, a) && OrderSettled(q, a) && multiset(a) == multiset(b) && Allowed(q, a, p)
    ensures Allowed(q, b, p)
  {
    hide Orderable, OrderSettled, HasGroup, StrictKeys, GroupsSorted;
    var keys :| Arrangement(q, a, keys, p);
    forall k ensures HasGroup(q, b, k) <==> HasGroup(q, a, k) { SameGroups(q, a, b, k); }
    if q.order != [] {
      forall k | k in p ensures HasGroup(q, a, k) { assert k in multiset(p) && k in multiset(keys); }
      SettledKeepsOrder(q, schema, a, b, p);
    }
    assert Arrangement(q, b, keys, p);
  }

  // ---------- An order that is not settled does ----------

  /** Where a row goes in front of all rows that it may precede. */
  lemma {:induction false} PlaceFirst<T(!new)>(row: SortRow<T>, rows: seq<SortRow<T>>, descending: seq<bool>,
                                               tags: seq<Tag>)
    returns (m: nat)
    requires InOrder(rows, descending) && AllRanked(rows, tags) && KeysRanked(row.keys, tags)
    ensures m <= |rows| && InOrder(rows[..m] + [row] + rows[m..], descending)
    ensures AllRanked(rows[..m] + [row] + rows[m..], tags)
            && multiset(rows[..m] + [row] + rows[m..]) == multiset(rows) + multiset{row}
    ensures forall i :: 0 <= i < m ==> CompareKeys(row.keys, rows[i].keys, descending) > 0
  {
    hide CompareKeys, KeysRanked;
    m := 0;
    while m < |rows| && CompareKeys(row.keys, rows[m].keys, descending) > 0
      invariant m <= |rows| && forall i :: 0 <= i < m ==> CompareKeys(row.keys, rows[i].keys, descending) > 0
    {
      m := m + 1;
    }
    forall i | 0 <= i < m ensures CompareKeys(rows[i].keys, row.keys, descending) <= 0 {
      assert rows[i] in rows;
      KeysReverse(row.keys, rows[i].keys, descending, tags);
    }
    forall j | m <= j < |rows| ensures CompareKeys(row.keys, rows[j].keys, descending) <= 0 {
      assert rows[j] in rows && rows[m] in rows;
      if m < j { KeysTransitive(row.keys, rows[m].keys, rows[j].keys, descending, tags); }
    }
    PlacedInOrder(rows, m, row, descending);
    PlacedRows(rows, m, row);
  }

  lemma {:induction false} SortExists<T(!new)>(rows: seq<SortRow<T>>, descending: seq<bool>, tags: seq<Tag>)
    returns (sorted: seq<SortRow<T>>)
    requires AllRanked(rows, tags)
    ensures multiset(sorted) == multiset(rows) && InOrder(sorted, descending) && AllRanked(sorted, tags)
    decreases |rows|
  {
    hide CompareKeys, KeysRanked;
    if rows == [] {
      sorted := [];
    } else {
      var front, last := rows[..|rows| - 1], rows[|rows| - 1];
      assert rows == front + [last] && last in rows;
      var some := SortExists(front, descending, tags);
      var m := PlaceFirst(last, some, descending, tags);
      sorted := some[..m] + [last] + some[m..];
    }
  }

  /** A sorted arrangement that puts a row in front of another which it may precede. */
  lemma {:induction false} SortWithFirst<T(!new)>(rows: seq<SortRow<T>>, x: SortRow<T>, y: SortRow<T>,
                                                  descending: seq<bool>, tags: seq<Tag>)
    returns (sorted: seq<SortRow<T>>, i: nat, j: nat)
    requires AllRanked(rows, tags) && KeysRanked(x.keys, tags) && KeysRanked(y.keys, tags)
    requires CompareKeys(x.keys, y.keys, descending) <= 0
    ensures multiset(sorted) == multiset(rows) + multiset{y} + multiset{x} && InOrder(sorted, descending)
    ensures i < j < |sorted| && sorted[i] == x && sorted[j] == y
  {
    hide CompareKeys, KeysRanked;
    var some := SortExists(rows, descending, tags);
    var n := PlaceFirst(y, some, descending, tags);
    var more := some[..n] + [y] + some[n..];
    assert more[n] == y;
    i := PlaceFirst(x, more, descending, tags);
    sorted := more[..i] + [x] + more[i..];
    j := n + 1;
    assert i <= n;
    assert sorted[j] == more[n];
  }

  /** The distinct keys of some rows, in the order of the map. */
  lemma {:induction false} KeysInOrder(keys: set<Keys>, tags: seq<Tag>) returns (listed: seq<Keys>)
    requires forall k :: k in keys ==> KeysRanked(k, tags) && CanonKeys(k) == k
    ensures StrictKeys(listed, |tags|) && forall k :: k in listed <==> k in keys
    decreases |keys|
  {
    hide CompareKeys, KeysRanked, CanonKeys;
    if keys == {} {
      listed := [];
    } else {
      LeastGroup(keys, tags);
      var least :| LeastAmong(keys, least, |tags|);
      var rest := KeysInOrder(keys - {least}, tags);
      forall k | k in rest ensures CompareKeys(least, k, Upwards(|tags|)) < 0 {
        EqualKeys(least, k, tags);
      }
      listed := [least] + rest;
    }
  }

  lemma {:induction false} GroupsCanBeListed(q: GroupedQuery, schema: Schema, rows: seq<Row>) returns (keys: seq<Keys>)
    requires Orderable(q, schema, rows)
    ensures ListsGroups(q, rows, keys)
  {
    hide GroupedWellTyped, RowFits, ValuesOf, KeysRanked, CompareKeys, StrictKeys, CanonKeys;
    var all := set r | r in rows :: KeyOf(q, r);
    forall k | k in all ensures KeysRanked(k, GroupTags(q, schema)) && CanonKeys(k) == k {
      var r :| r in rows && KeyOf(q, r) == k;
      assert NoNaNKeys(q, [r]);
      GroupKeyRanked(q, schema, r);
      CanonTwice(ValuesOf(q.groupBy, r));
    }
    keys := KeysInOrder(all, GroupTags(q, schema));
    forall k ensures k in keys <==> HasGroup(q, rows, k) {
      if HasGroup(q, rows, k) { var r :| r in rows && KeyOf(q, r) == k; }
    }
  }

  function Placing(q: GroupedQuery, rows: seq<Row>): Keys -> SortRow<Keys> {
    (key: Keys) => SortRow(OrderValuesFor(q, rows, key), key)
  }

  function KeyOfRow(): SortRow<Keys> -> Keys { (r: SortRow<Keys>) => r.row }

  lemma {:induction false} AllPlaced(q: GroupedQuery, schema: Schema, rows: seq<Row>, keys: seq<Keys>)
    requires Orderable(q, schema, rows) && forall k :: k in keys ==> HasGroup(q, rows, k)
    ensures AllRanked(Map(keys, Placing(q, rows)), OrderTags(q.order, schema))
  {
    hide GroupedWellTyped, RowFits, NoNaNKeys, NoNaNOrder, HasGroup, OrderValuesFor, OrderValues, KeyOf, KeysRanked;
    var placed := Map(keys, Placing(q, rows));
    forall r | r in placed ensures KeysRanked(r.keys, OrderTags(q.order, schema)) {
      var i :| 0 <= i < |keys| && placed[i] == r;
      assert keys[i] in keys;
      var first := FirstOf(q, rows, keys[i]);
      OrderRanked(q, schema, rows, first);
      assert r == Placing(q, rows)(keys[i]);
    }
  }

  /** One group may come out in front of another exactly as far as its ORDER BY values allow. */
  lemma {:induction false} AllowedWith(q: GroupedQuery, schema: Schema, rows: seq<Row>, x: Keys, y: Keys)
    returns (p: seq<Keys>, i: nat, j: nat)
    requires Orderable(q, schema, rows) && q.order != [] && HasGroup(q, rows, x) && HasGroup(q, rows, y) && x != y
    requires CompareKeys(OrderValuesFor(q, rows, x), OrderValuesFor(q, rows, y), Directions(q.order)) <= 0
    ensures Allowed(q, rows, p) && i < j < |p| && p[i] == x && p[j] == y
  {
    hide Orderable, HasGroup, OrderValuesFor, CompareKeys, KeysRanked, StrictKeys;
    var keys := GroupsCanBeListed(q, schema, rows);
    var others := StartWithKeys(keys, x, y);
    var f := Placing(q, rows);
    assert forall k :: k in others ==> k in keys;
    AllPlaced(q, schema, rows, others);
    AllPlaced(q, schema, rows, [x, y]);
    assert Map([x, y], f) == [f(x), f(y)] && f(x) in [f(x), f(y)] && f(y) in [f(x), f(y)];
    var sorted;
    sorted, i, j := SortWithFirst(Map(others, f), f(x), f(y), Directions(q.order), OrderTags(q.order, schema));
    p := Map(sorted, KeyOfRow());
    PlacedKeys(q, rows, others, x, y, sorted);
    assert GroupsSorted(q, rows, p) by { PlacedSorted(q, rows, sorted, others, x, y); }
    assert Arrangement(q, rows, keys, p);
  }

  lemma {:induction false} StartWithKeys(keys: seq<Keys>, x: Keys, y: Keys) returns (others: seq<Keys>)
    requires x in keys && y in keys && x != y
    ensures multiset(keys) == multiset(others) + multiset{y} + multiset{x} && forall k :: k in others ==> k in keys
  {
    var i :| 0 <= i < |keys| && keys[i] == x;
    TakeOut(keys, i);
    var some := keys[..i] + keys[i + 1..];
    assert y in multiset(keys) && y in multiset(some);
    var j :| 0 <= j < |some| && some[j] == y;
    TakeOut(some, j);
    others := some[..j] + some[j + 1..];
  }

  lemma {:induction false} PlacedKeys(q: GroupedQuery, rows: seq<Row>, others: seq<Keys>, x: Keys, y: Keys,
                                      sorted: seq<SortRow<Keys>>)
    requires var f := Placing(q, rows); multiset(sorted) == multiset(Map(others, f)) + multiset{f(y)} + multiset{f(x)}
    ensures multiset(Map(sorted, KeyOfRow())) == multiset(others) + multiset{y} + multiset{x}
  {
    hide OrderValuesFor;
    var f := Placing(q, rows);
    var all := Map(others, f) + [f(y)] + [f(x)];
    MapMultiset(sorted, all, KeyOfRow());
    assert Map(all, KeyOfRow()) == others + [y] + [x];
  }

  lemma {:induction false} PlacedSorted(q: GroupedQuery, rows: seq<Row>, sorted: seq<SortRow<Keys>>, others: seq<Keys>,
                                        x: Keys, y: Keys)
    requires var f := Placing(q, rows); multiset(sorted) == multiset(Map(others, f)) + multiset{f(y)} + multiset{f(x)}
    requires InOrder(sorted, Directions(q.order))
    ensures GroupsSorted(q, rows, Map(sorted, KeyOfRow()))
  {
    hide OrderValuesFor, CompareKeys;
    var f := Placing(q, rows);
    forall i | 0 <= i < |sorted| ensures sorted[i].keys == OrderValuesFor(q, rows, sorted[i].row) {
      assert sorted[i] in multiset(sorted);
      if sorted[i] != f(x) && sorted[i] != f(y) {
        assert sorted[i] in multiset(Map(others, f));
        var k :| 0 <= k < |others| && Map(others, f)[k] == sorted[i];
      }
    }
    var p := Map(sorted, KeyOfRow());
    forall i, j | 0 <= i < j < |p|
      ensures CompareKeys(OrderValuesFor(q, rows, p[i]), OrderValuesFor(q, rows, p[j]), Directions(q.order)) <= 0
    {
      assert sorted[i].keys == OrderValuesFor(q, rows, p[i]) && sorted[j].keys == OrderValuesFor(q, rows, p[j]);
    }
  }

  /** Two scan orders that put different members first, and an order of the groups that only one of them allows. */
  lemma {:induction false} UnsettledShows(q: GroupedQuery, schema: Schema, rows: seq<Row>, g: Row, h: Row, g': Row,
                                          h': Row)
    requires Orderable(q, schema, rows) && q.order != [] && g in rows && h in rows && g' in rows && h' in rows
    requires KeyOf(q, g) == KeyOf(q, g') && KeyOf(q, h) == KeyOf(q, h') && KeyOf(q, g) != KeyOf(q, h)
    requires CompareFirsts(q, g, h) <= 0 && CompareFirsts(q, g', h') > 0
    ensures !ScanOrderFree(q, rows)
  {
    hide Orderable, KeyOf, CompareKeys, OrderValues, OrderValuesFor, HasGroup, Allowed;
    var rest := StartWith(q, rows, g, h);
    var rest' := StartWith(q, rows, g', h');
    var a, b := [g, h] + rest, [g', h'] + rest';
    Permuted(q, schema, rows, a);
    HeadsAreFirst(q, g, h, rest);
    HeadsAreFirst(q, g', h', rest');
    assert HasGroup(q, a, KeyOf(q, g)) && HasGroup(q, a, KeyOf(q, h)) by { TheirGroups(q, g, h, rest); }
    var p, i, j := AllowedWith(q, schema, a, KeyOf(q, g), KeyOf(q, h));
    if ScanOrderFree(q, rows) {
      assert SameOrders(q, rows, a) && SameOrders(q, rows, b);
      assert Allowed(q, rows, p) && Allowed(q, b, p);
      AllowedIsSorted(q, b, p, i, j);
    }
  }

  lemma {:induction false} TheirGroups(q: GroupedQuery, g: Row, h: Row, rest: seq<Row>)
    ensures HasGroup(q, [g, h] + rest, KeyOf(q, g)) && HasGroup(q, [g, h] + rest, KeyOf(q, h))
  {
    hide KeyOf;
    var all := [g, h] + rest;
    assert all[0] == g && all[1] == h;
    assert g in all && h in all;
  }

  lemma {:induction false} AllowedIsSorted(q: GroupedQuery, rows: seq<Row>, p: seq<Keys>, i: nat, j: nat)
    requires Allowed(q, rows, p) && q.order != [] && i < j < |p|
    ensures CompareKeys(OrderValuesFor(q, rows, p[i]), OrderValuesFor(q, rows, p[j]), Directions(q.order)) <= 0
  {
    hide CompareKeys, OrderValuesFor;
  }

  // ---------- Main results ----------

  /** The orders that a grouped query may show are the same for every scan order exactly when its order is settled. */
  lemma {:induction false} OrderFreeExactly(q: GroupedQuery, schema: Schema, rows: seq<Row>)
    requires Orderable(q, schema, rows)
    ensures ScanOrderFree(q, rows) <==> OrderSettled(q, rows)
  {
    hide Orderable, KeyOf, Allowed, CompareKeys, OrderValues;
    if OrderSettled(q, rows) {
      forall b | multiset(b) == multiset(rows) ensures SameOrders(q, rows, b) {
        Permuted(q, schema, rows, b);
        forall p ensures Allowed(q, rows, p) <==> Allowed(q, b, p) {
          if Allowed(q, rows, p) { AllowedEither(q, schema, rows, b, p); }
          if Allowed(q, b, p) { AllowedEither(q, schema, b, rows, p); }
        }
      }
    } else {
      var g, h, g', h' :|
        g in rows && h in rows && g' in rows && h' in rows && KeyOf(q, g) == KeyOf(q, g') && KeyOf(q, h) == KeyOf(q, h')
        && KeyOf(q, g) != KeyOf(q, h) && CompareFirsts(q, g, h) <= 0 && CompareFirsts(q, g', h') > 0;
      if q.order == [] { NothingToCompare(q, g', h'); }
      UnsettledShows(q, schema, rows, g, h, g', h');
    }
  }

  lemma {:induction false} NothingToCompare(q: GroupedQuery, g: Row, h: Row)
    requires q.order == []
    ensures CompareFirsts(q, g, h) == 0
  {
  }

  /** Items that are grouped by settle the order. */
  lemma {:induction false} GroupedItemsSettle(q: GroupedQuery, schema: Schema, rows: seq<Row>)
    requires GroupedWellTyped(q, schema) && RowsFit(rows, schema)
    requires forall k :: 0 <= k < |q.order| ==> InGroupBy(q, q.order[k].e)
    ensures OrderSettled(q, rows)
  {
    hide GroupedWellTyped, RowFits, KeyOf, CompareKeys, OrderValues, InGroupBy;
    forall g, h, g', h' |
      g in rows && h in rows && g' in rows && h' in rows && KeyOf(q, g) == KeyOf(q, g') && KeyOf(q, h) == KeyOf(q, h')
      && KeyOf(q, g) != KeyOf(q, h) && CompareFirsts(q, g, h) <= 0
      ensures CompareFirsts(q, g', h') <= 0
    {
      GroupOrders(q, schema, g, g');
      GroupOrders(q, schema, h, h');
      CompareAlike(OrderValues(q, g), OrderValues(q, h), OrderValues(q, g'), OrderValues(q, h'), Directions(q.order));
    }
  }

  lemma {:induction false} GroupOrders(q: GroupedQuery, schema: Schema, a: Row, b: Row)
    requires GroupedWellTyped(q, schema) && RowFits(a, schema) && RowFits(b, schema) && KeyOf(q, a) == KeyOf(q, b)
    requires forall k :: 0 <= k < |q.order| ==> InGroupBy(q, q.order[k].e)
    ensures CanonKeys(OrderValues(q, a)) == CanonKeys(OrderValues(q, b))
  {
    hide GroupedWellTyped, RowFits, KeyOf, ValueOf, Canon, InGroupBy;
    forall k | 0 <= k < |q.order| ensures Canon(OrderValues(q, a)[k]) == Canon(OrderValues(q, b)[k]) {
      PlainSame(q, schema, q.order[k].e, a, b);
    }
  }

  /**
   Where the order is settled, and where every ORDER BY item is grouped by it is, scan orders have the same
   answers: one for the other but for the sign of zeros, and the very same where there are no doubles.
   */
  lemma {:induction false} SettledAnswers(q: GroupedQuery, schema: Schema, a: seq<Row>, b: seq<Row>,
                                          forA: seq<seq<OutCell>>)
    returns (forB: seq<seq<OutCell>>)
    requires Orderable(q, schema, a) && Validated(q) && OrderSettled(q, a) && multiset(a) == multiset(b)
    requires GroupedAnswer(q, a, forA)
    ensures GroupedAnswer(q, b, forB) && AlikeRows(forA, forB) && (NoDoubles(q, schema) ==> forA == forB)
  {
    hide GroupedWellTyped, RowFits, OutputFor, NoNaNKeys, NoNaNOrder, AlikeRows, NoDoubles, OrderSettled,
         ListsGroups, GroupsSorted;
    var x, xs :| Arrangement(q, a, x, xs) && forA == Limited(q.limit, Map(xs, OutputFor(q, a)));
    assert Allowed(q, a, xs);
    AllowedEither(q, schema, a, b, xs);
    var y :| Arrangement(q, b, y, xs);
    forB := Limited(q.limit, Map(xs, OutputFor(q, b)));
    SameShown(q, schema, a, b, xs);
    assert GroupedAnswer(q, b, forB);
  }

  lemma {:induction false} SameAnswers(q: GroupedQuery, schema: Schema, a: seq<Row>, b: seq<Row>,
                                       answer: seq<seq<OutCell>>)
    requires Orderable(q, schema, a) && Validated(q) && OrderSettled(q, a) && multiset(a) == multiset(b)
             && NoDoubles(q, schema)
    ensures GroupedAnswer(q, a, answer) <==> GroupedAnswer(q, b, answer)
  {
    hide Orderable, OrderSettled, GroupedAnswer, NoDoubles, AlikeRows;
    Permuted(q, schema, a, b);
    if GroupedAnswer(q, a, answer) { var same := SettledAnswers(q, schema, a, b, answer); }
    if GroupedAnswer(q, b, answer) { var same := SettledAnswers(q, schema, b, a, answer); }
  }

  /** So it is with ORDER BY items that are grouped by: the answers are the same for every scan order. */
  lemma {:induction false} GroupedItemsDecide(q: GroupedQuery, schema: Schema, a: seq<Row>, b: seq<Row>)
    requires Orderable(q, schema, a) && Validated(q) && multiset(a) == multiset(b)
    requires forall k :: 0 <= k < |q.order| ==> InGroupBy(q, q.order[k].e)
    ensures forall forA :: GroupedAnswer(q, a, forA) ==>
              exists forB :: GroupedAnswer(q, b, forB) && AlikeRows(forA, forB)
    ensures NoDoubles(q, schema) ==> forall answer :: GroupedAnswer(q, a, answer) <==> GroupedAnswer(q, b, answer)
  {
    hide GroupedWellTyped, RowFits, GroupedAnswer, OrderSettled, NoDoubles, AlikeRows, InGroupBy, NoNaNKeys, NoNaNOrder;
    GroupedItemsSettle(q, schema, a);
    forall forA | GroupedAnswer(q, a, forA) ensures exists forB :: GroupedAnswer(q, b, forB) && AlikeRows(forA, forB) {
      var forB := SettledAnswers(q, schema, a, b, forA);
    }
    if NoDoubles(q, schema) {
      forall answer ensures GroupedAnswer(q, a, answer) <==> GroupedAnswer(q, b, answer) {
        SameAnswers(q, schema, a, b, answer);
      }
    }
  }

  // ---------- An order that depends on the scan ----------

  /** SELECT c FROM t GROUP BY c ORDER BY key: ORDER BY items are not validated. */
  const BY_KEY := GroupedQuery(None, [Plain(Column(1))], [Column(1)], [OrderItem(Column(0), false)], None)

  const ONE_COLUMN: Schema := [INT64]

  function Numbered(key: Key, n: Key): Row { Row(key, [Some(Int(n))]) }

  function Group(n: Key): Keys { [Some(Data(Int(n)))] }

  lemma {:induction false} NumberedGroup(key: Key, n: Key)
    ensures KeyOf(BY_KEY, Numbered(key, n)) == Group(n)
    ensures OrderValues(BY_KEY, Numbered(key, n)) == [Some(Data(Int(key)))]
    ensures RowFits(Numbered(key, n), ONE_COLUMN)
  {
    assert KeyOf(BY_KEY, Numbered(key, n))[0] == Canon(ValueOf(Column(1), Numbered(key, n)));
    assert OrderValues(BY_KEY, Numbered(key, n))[0] == ValueOf(Column(0), Numbered(key, n));
  }

  /** With these three rows, the group scanned with the lower key first comes out first, whichever it is. */
  lemma {:induction false} LowerKeyFirst(first: Key, other: Key, third: Key, answer: seq<seq<OutCell>>)
    requires first != third
    requires GroupedAnswer(BY_KEY, [Numbered(first, 10), Numbered(third, 20), Numbered(other, 10)], answer)
    ensures |answer| == 2
    ensures answer[0] == [Cell(Some(Data(Int(if first < third then 10 else 20))))]
  {
    hide KeyOf, OrderValues, OutputFor, OrderValuesFor;
    var q, rows := BY_KEY, [Numbered(first, 10), Numbered(third, 20), Numbered(other, 10)];
    var keys, p :| Arrangement(q, rows, keys, p) && answer == Limited(q.limit, Map(p, OutputFor(q, rows)));
    NumberedGroup(first, 10);
    NumberedGroup(third, 20);
    NumberedGroup(other, 10);
    TwoGroups(first, other, third, keys);
    assert Group(10)[0] != Group(20)[0];
    assert multiset(keys) == multiset{Group(10), Group(20)};
    assert p == [Group(10), Group(20)] || p == [Group(20), Group(10)] by { TwoOrders(p, Group(10), Group(20)); }
    assert rows == [Numbered(first, 10), Numbered(third, 20)] + [Numbered(other, 10)];
    HeadsAreFirst(q, Numbered(first, 10), Numbered(third, 20), [Numbered(other, 10)]);
    assert CompareKeys(OrderValuesFor(q, rows, p[0]), OrderValuesFor(q, rows, p[1]), Directions(q.order)) <= 0;
    ComparesKeys(first, third);
    ComparesKeys(third, first);
    ShownGroup(first, other, third, 10);
    ShownGroup(first, other, third, 20);
  }

  lemma {:induction false} TwoGroups(first: Key, other: Key, third: Key, keys: seq<Keys>)
    requires ListsGroups(BY_KEY, [Numbered(first, 10), Numbered(third, 20), Numbered(other, 10)], keys)
    ensures keys == [Group(10), Group(20)]
  {
    hide KeyOf;
    var rows := [Numbered(first, 10), Numbered(third, 20), Numbered(other, 10)];
    NumberedGroup(first, 10);
    NumberedGroup(third, 20);
    NumberedGroup(other, 10);
    assert rows[0] in rows && rows[1] in rows;
    assert HasGroup(BY_KEY, rows, Group(10)) && HasGroup(BY_KEY, rows, Group(20));
    forall k | k in keys ensures k == Group(10) || k == Group(20) {
      var row :| row in rows && KeyOf(BY_KEY, row) == k;
    }
    assert CompareKeys(Group(10), Group(20), Upwards(1)) < 0 by { assert Upwards(1) == [false]; }
    var strict := [Group(10), Group(20)];
    assert KeysRanked(Group(10), [IntTag]) && KeysRanked(Group(20), [IntTag]);
    StrictUnique(keys, strict, [IntTag]);
  }

  lemma {:induction false} TwoOrders<T>(p: seq<T>, x: T, y: T)
    requires multiset(p) == multiset{x, y} && x != y
    ensures p == [x, y] || p == [y, x]
  {
    assert |p| == |multiset(p)| == 2;
    assert p == [p[0], p[1]];
    assert p[0] in multiset(p) && p[1] in multiset(p);
    assert multiset(p) == multiset{p[0], p[1]};
    assert multiset{x, y}[p[0]] == 1;
    assert multiset{p[0], p[1]}[p[0]] == if p[0] == p[1] then 2 else 1;
  }

  lemma {:induction false} ComparesKeys(a: Key, b: Key)
    ensures CompareKeys([Some(Data(Int(a)))], [Some(Data(Int(b)))], Directions(BY_KEY.order)) == CompareInts(a, b)
  {
    assert Directions(BY_KEY.order) == [false];
  }

  lemma {:induction false} ShownGroup(first: Key, other: Key, third: Key, n: Key)
    requires n == 10 || n == 20
    ensures OutputFor(BY_KEY, [Numbered(first, 10), Numbered(third, 20), Numbered(other, 10)])(Group(n))
            == [Cell(Some(Data(Int(n))))]
  {
    hide KeyOf;
    var rows := [Numbered(first, 10), Numbered(third, 20), Numbered(other, 10)];
    NumberedGroup(first, 10);
    NumberedGroup(third, 20);
    var members := Members(BY_KEY, rows, Group(n));
    var f := InGroup(BY_KEY, Group(n));
    assert Group(10)[0] != Group(20)[0];
    assert f(rows[0]) == (n == 10) && f(rows[1]) == (n == 20);
    assert members == (if n == 10 then [rows[0]] else []) + Filter(rows[1..], f);
    assert rows[1..][0] == rows[1];
    assert Filter(rows[1..], f) == (if n == 20 then [rows[1]] else []) + Filter(rows[1..][1..], f);
    assert members[0] == if n == 10 then Numbered(first, 10) else Numbered(third, 20);
    assert ValueOf(Column(1), members[0]) == Some(Data(Int(n)));
  }

  /** A well-typed, validated query, three rows and two scan orders of them that have no answer in common. */
  lemma {:induction false} OrderByFirstMember()
    ensures GroupedWellTyped(BY_KEY, ONE_COLUMN) && Validated(BY_KEY)
    ensures var a := [Numbered(1, 10), Numbered(2, 20), Numbered(3, 10)];
            var b := [Numbered(3, 10), Numbered(2, 20), Numbered(1, 10)];
            && Orderable(BY_KEY, ONE_COLUMN, a) && multiset(a) == multiset(b)
            && forall answer :: !(GroupedAnswer(BY_KEY, a, answer) && GroupedAnswer(BY_KEY, b, answer))
  {
    hide GroupedAnswer, KeyOf, OrderValues;
    var a, b := [Numbered(1, 10), Numbered(2, 20), Numbered(3, 10)],
                [Numbered(3, 10), Numbered(2, 20), Numbered(1, 10)];
    assert AreEquivalent(Column(1), BY_KEY.groupBy[0]);
    assert InGroupBy(BY_KEY, Column(1));
    forall r | r in a ensures RowFits(r, ONE_COLUMN) { NumberedGroup(r.key, r.cells[0].value.n); }
    forall answer ensures !(GroupedAnswer(BY_KEY, a, answer) && GroupedAnswer(BY_KEY, b, answer)) {
      if GroupedAnswer(BY_KEY, a, answer) && GroupedAnswer(BY_KEY, b, answer) {
        LowerKeyFirst(1, 3, 2, answer);
        LowerKeyFirst(3, 1, 2, answer);
      }
    }
  }
}
