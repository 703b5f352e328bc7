/**
 Cursors over several children: the k-way merge, the chain, and their composition. A child is the
 list of rows that it still has to emit.
 */
module Merging {
  import opened Seqs
  import opened Storage

  // ---------- The merge as a function of the children ----------

  predicate Exhausted(children: seq<seq<Row>>) { forall i :: 0 <= i < |children| ==> children[i] == [] }

  /** Among the first n children, the one with the smallest head key; the earliest on a tie. */
  function TopAmong(children: seq<seq<Row>>, n: nat): (top: Option<nat>)
    requires n <= |children|
    ensures top.None? <==> Exhausted(children[..n])
    ensures top.Some? ==>
              && top.value < n && children[top.value] != []
              && (forall j ::
                    0 <= j < top.value && children[j] != [] ==> children[top.value][0].key < children[j][0].key)
              && (forall j ::
                    top.value <= j < n && children[j] != [] ==> children[top.value][0].key <= children[j][0].key)
  {
    if n == 0 then None
    else
      var top := TopAmong(children, n - 1);
      assert forall j :: 0 <= j < n - 1 ==> children[..n][j] == children[..n - 1][j];
      if children[n - 1] == [] then top
      else if top.None? then
        assert children[..n][n - 1] != [];
        assert forall j :: 0 <= j < n - 1 ==> children[j] == children[..n - 1][j] == [];
        Some(n - 1)
      else if children[n - 1][0].key < children[top.value][0].key then Some(n - 1)
      else
        assert children[..n - 1][top.value] != [];
        top
  }

  ghost predicate IsTop(children: seq<seq<Row>>, top: nat) {
    && top < |children| && children[top] != []
    && (forall j :: 0 <= j < top && children[j] != [] ==> children[top][0].key < children[j][0].key)
    && (forall j :: top <= j < |children| && children[j] != [] ==> children[top][0].key <= children[j][0].key)
  }

  function Top(children: seq<seq<Row>>): (top: Option<nat>)
    ensures top.None? <==> Exhausted(children)
    ensures top.Some? ==> IsTop(children, top.value) && children[top.value] != []
  {
    assert children[..|children|] == children;
    TopAmong(children, |children|)
  }

  /** The children after child i has moved on. */
  function Advance(children: seq<seq<Row>>, i: nat): seq<seq<Row>>
    requires i < |children| && children[i] != []
  {
    children[i := children[i][1..]]
  }

  lemma {:induction false} AdvanceShrinks(children: seq<seq<Row>>, i: nat)
    requires i < |children| && children[i] != []
    ensures |Flatten(Advance(children, i))| < |Flatten(children)|
  {
    SplitAt(children, i);
    SplitAt(Advance(children, i), i);
    assert Advance(children, i)[..i] == children[..i] && Advance(children, i)[i + 1..] == children[i + 1..];
  }

  lemma {:induction false} SplitAt<T>(parts: seq<seq<T>>, i: nat)
    requires i < |parts|
    ensures Flatten(parts) == Flatten(parts[..i]) + (parts[i] + Flatten(parts[i + 1..]))
  {
    assert parts == parts[..i] + ([parts[i]] + parts[i + 1..]);
    FlattenConcat(parts[..i], [parts[i]] + parts[i + 1..]);
    assert ([parts[i]] + parts[i + 1..])[1..] == parts[i + 1..];
  }

  /** The merge: again and again the smallest head, the earliest child first. */
  function Merge(children: seq<seq<Row>>): seq<Row>
    decreases |Flatten(children)|
  {
    var top := Top(children);
    if top.None? then []
    else
      AdvanceShrinks(children, top.value);
      [children[top.value][0]] + Merge(Advance(children, top.value))
  }

  /** Where one part loses its first element, the concatenation loses just that. */
  lemma {:induction false} OneLess<T>(before: seq<seq<T>>, after: seq<seq<T>>, t: nat, x: T)
    returns (front: seq<T>, back: seq<T>)
    requires t < |before| == |after| && before[t] == [x] + after[t]
    requires forall i :: 0 <= i < |before| && i != t ==> before[i] == after[i]
    ensures Flatten(before) == front + ([x] + back) && Flatten(after) == front + back
    ensures (forall i :: 0 <= i < t ==> before[i] == []) ==> Flatten(before) == [x] + Flatten(after)
  {
    SplitAt(before, t);
    SplitAt(after, t);
    assert before[..t] == after[..t] && before[t + 1..] == after[t + 1..];
    front, back := Flatten(before[..t]), after[t] + Flatten(after[t + 1..]);
    assert before[t] + Flatten(before[t + 1..]) == [x] + back;
    if forall i :: 0 <= i < t ==> before[i] == [] { NoParts(before[..t]); }
  }

  // ---------- What the merge emits ----------

  ghost predicate AllAscending(children: seq<seq<Row>>) {
    forall i :: 0 <= i < |children| ==> WeaklyAscending(children[i])
  }

  function HasKey(key: Key): Row -> bool {
    (r: Row) => r.key == key
  }

  function WithKey(children: seq<seq<Row>>, key: Key): (parts: seq<seq<Row>>)
    ensures |parts| == |children|
    ensures forall i :: 0 <= i < |children| ==> parts[i] == Filter(children[i], HasKey(key))
  {
    seq(|children|, i requires 0 <= i < |children| => Filter(children[i], HasKey(key)))
  }

  lemma {:induction false} TailAscending(rows: seq<Row>)
    requires rows != [] && WeaklyAscending(rows)
    ensures WeaklyAscending(rows[1..])
  {
    var tail := rows[1..];
    forall i, j | 0 <= i <= j < |tail| ensures tail[i].key <= tail[j].key {
      assert tail[i] == rows[i + 1] && tail[j] == rows[j + 1];
    }
  }

  lemma {:induction false} AdvanceAscending(children: seq<seq<Row>>, i: nat)
    requires AllAscending(children) && i < |children| && children[i] != []
    ensures AllAscending(Advance(children, i))
  {
    TailAscending(children[i]);
  }

  lemma {:induction false} AboveHead(rows: seq<Row>, key: Key)
    requires WeaklyAscending(rows) && (rows != [] ==> key < rows[0].key)
    ensures Filter(rows, HasKey(key)) == []
  {
    FilterNone(rows, HasKey(key));
  }

  lemma {:induction false} NoParts<T>(parts: seq<seq<T>>)
    requires forall i :: 0 <= i < |parts| ==> parts[i] == []
    ensures Flatten(parts) == []
  {
    if parts != [] { NoParts(parts[1..]); }
  }

  /** The head of the top child comes first among the rows with its key. */
  lemma {:induction false} HeadFirst(children: seq<seq<Row>>, top: nat)
    requires AllAscending(children) && IsTop(children, top)
    ensures var head := children[top][0];
            Flatten(WithKey(children, head.key)) == [head] + Flatten(WithKey(Advance(children, top), head.key))
  {
    var head := children[top][0];
    var before, after := WithKey(children, head.key), WithKey(Advance(children, top), head.key);
    assert before[top] == [head] + after[top];
    forall i | 0 <= i < top ensures before[i] == [] {
      AllAscendingAt(children, i);
      AboveHead(children[i], head.key);
    }
    hide Filter, Flatten, WithKey, WeaklyAscending, AllAscending, IsTop;
    var front, back := OneLess(before, after, top, head);
  }

  lemma {:induction false} AllAscendingAt(children: seq<seq<Row>>, i: nat)
    requires AllAscending(children) && i < |children|
    ensures WeaklyAscending(children[i])
  {
  }

  lemma {:induction false} OtherKey(children: seq<seq<Row>>, top: nat, key: Key)
    requires top < |children| && children[top] != [] && children[top][0].key != key
    ensures WithKey(children, key) == WithKey(Advance(children, top), key)
  {
    assert forall i :: 0 <= i < |children| ==> WithKey(children, key)[i] == WithKey(Advance(children, top), key)[i];
  }

  /**
   The merge is stable: the rows of each key come child after child, in child order, every version of
   a key included and none twice.
   */
  lemma {:induction false} MergeStable(children: seq<seq<Row>>, key: Key)
    requires AllAscending(children)
    ensures Filter(Merge(children), HasKey(key)) == Flatten(WithKey(children, key))
    decreases |Flatten(children)|
  {
    hide Top, AllAscending;
    var top := Top(children);
    if top.None? {
      NoParts(WithKey(children, key));
    } else {
      var rest, head := Advance(children, top.value), children[top.value][0];
      AdvanceShrinks(children, top.value);
      AdvanceAscending(children, top.value);
      MergeStable(rest, key);
      if head.key == key { HeadFirst(children, top.value); } else { OtherKey(children, top.value, key); }
      assert Merge(children)[1..] == Merge(rest);
    }
  }

  lemma {:induction false} InMerge(children: seq<seq<Row>>, r: Row)
    ensures r in Merge(children) <==> exists i :: 0 <= i < |children| && r in children[i]
    decreases |Flatten(children)|
  {
    var top := Top(children);
    if top.Some? {
      var rest, t := Advance(children, top.value), top.value;
      AdvanceShrinks(children, t);
      InMerge(rest, r);
      assert children[t] == [children[t][0]] + rest[t];
      if i :| 0 <= i < |rest| && r in rest[i] { assert r in children[i]; }
      if i :| 0 <= i < |children| && r in children[i] { assert r == children[t][0] || r in rest[i]; }
    }
  }

  /** The merge of ascending children is ascending. */
  lemma {:induction false} MergeAscending(children: seq<seq<Row>>)
    requires AllAscending(children)
    ensures WeaklyAscending(Merge(children))
    decreases |Flatten(children)|
  {
    var top := Top(children);
    if top.Some? {
      var t := top.value;
      var rest, head := Advance(children, t), children[t][0];
      AdvanceShrinks(children, t);
      AdvanceAscending(children, t);
      MergeAscending(rest);
      var tail := Merge(rest);
      forall r | r in tail ensures head.key <= r.key {
        InMerge(rest, r);
        var i :| 0 <= i < |rest| && r in rest[i];
        assert r in children[i];
        assert head.key <= children[i][0].key <= r.key;
      }
      WeaklyAscendingCons(head, tail);
    }
  }

  lemma {:induction false} WeaklyAscendingCons(first: Row, rest: seq<Row>)
    requires WeaklyAscending(rest) && forall r :: r in rest ==> first.key <= r.key
    ensures WeaklyAscending([first] + rest)
  {
    var all := [first] + rest;
    forall i, j | 0 <= i <= j < |all| ensures all[i].key <= all[j].key {
      if j > 0 { assert all[j] == rest[j - 1] && all[j] in rest; }
      if i > 0 { assert all[i] == rest[i - 1]; }
    }
  }

  /** Nothing is lost and nothing is doubled. */
  lemma {:induction false} MergeKeepsAll(children: seq<seq<Row>>)
    ensures multiset(Merge(children)) == multiset(Flatten(children))
    decreases |Flatten(children)|
  {
    var top := Top(children);
    if top.None? {
      NoParts(children);
    } else {
      var t := top.value;
      var rest, head := Advance(children, t), children[t][0];
      AdvanceShrinks(children, t);
      MergeKeepsAll(rest);
      assert children[t] == [head] + rest[t];
      assert Merge(children) == [head] + Merge(rest);
      hide Flatten, Top, IsTop, Merge;
      var front, back := OneLess(children, rest, t, head);
      assert multiset(front + ([head] + back)) == multiset{head} + multiset(front + back);
    }
  }

  /** Two ascending lists that agree on the rows of every key are the same list. */
  lemma {:induction false} StableUnique(a: seq<Row>, b: seq<Row>)
    requires WeaklyAscending(a) && WeaklyAscending(b)
    requires forall key :: Filter(a, HasKey(key)) == Filter(b, HasKey(key))
    ensures a == b
  {
    if a == [] {
      if b != [] { KeyIsThere(b, a); }
    } else if b == [] {
      KeyIsThere(a, b);
    } else {
      KeyIsThere(a, b);
      KeyIsThere(b, a);
      assert a[0].key == b[0].key;
      var key := a[0].key;
      assert Filter(a, HasKey(key))[0] == a[0] && Filter(b, HasKey(key))[0] == b[0];
      forall k ensures Filter(a[1..], HasKey(k)) == Filter(b[1..], HasKey(k)) {
        assert Filter(a, HasKey(k)) == Filter(b, HasKey(k));
        var first := if key == k then [a[0]] else [];
        assert (first + Filter(a[1..], HasKey(k)))[|first|..] == (first + Filter(b[1..], HasKey(k)))[|first|..];
      }
      TailAscending(a);
      TailAscending(b);
      StableUnique(a[1..], b[1..]);
      assert a == [a[0]] + a[1..] && b == [b[0]] + b[1..];
    }
  }

  /** The first key of `a` occurs in `b`, and not before the first of `b`. */
  lemma {:induction false} KeyIsThere(a: seq<Row>, b: seq<Row>)
    requires a != [] && WeaklyAscending(b)
    requires forall key :: Filter(a, HasKey(key)) == Filter(b, HasKey(key))
    ensures b != [] && b[0].key <= a[0].key
  {
    var key := a[0].key;
    InFilter(a, HasKey(key));
    InFilter(b, HasKey(key));
    FirstIn(a);
    assert a[0] in Filter(b, HasKey(key));
  }

  /** With distinct keys the merge is strictly ascending. */
  lemma {:induction false} MergeStrict(children: seq<seq<Row>>)
    requires AllAscending(children) && forall key :: |Flatten(WithKey(children, key))| <= 1
    ensures Ascending(Merge(children))
  {
    MergeAscending(children);
    var rows := Merge(children);
    forall i, j | 0 <= i < j < |rows| ensures rows[i].key < rows[j].key {
      if rows[i].key == rows[j].key {
        MergeStable(children, rows[i].key);
        TwoInFilter(rows, HasKey(rows[i].key), i, j);
      }
    }
  }

  lemma {:induction false} TwoInFilter<T(!new)>(s: seq<T>, p: T -> bool, i: nat, j: nat)
    requires i < j < |s| && p(s[i]) && p(s[j])
    ensures |Filter(s, p)| >= 2
  {
    if i == 0 {
      InFilter(s[1..], p);
      assert s[1..][j - 1] == s[j] && s[j] in s[1..];
      assert s[j] in Filter(s[1..], p);
    } else {
      TwoInFilter(s[1..], p, i - 1, j - 1);
    }
  }
}
