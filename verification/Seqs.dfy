/** Sequence vocabulary used throughout: order-preserving filters and concatenations. */
module Seqs {

  /** The elements of `s` that satisfy `p`, in their original order. */
  function Filter<T(!new)>(s: seq<T>, p: T -> bool): (r: seq<T>)
    ensures |r| <= |s|
  {
    if s == [] then [] else (if p(s[0]) then [s[0]] else []) + Filter(s[1..], p)
  }

  lemma {:induction false} InFilter<T(!new)>(s: seq<T>, p: T -> bool)
    ensures forall x :: x in Filter(s, p) <==> x in s && p(x)
  {
    if s != [] {
      InFilter(s[1..], p);
      assert forall x :: x in s <==> x == s[0] || x in s[1..];
    }
  }

  lemma {:induction false} FilterNone<T(!new)>(s: seq<T>, p: T -> bool)
    requires forall x :: x in s ==> !p(x)
    ensures Filter(s, p) == []
  {
    if s != [] {
      assert forall x :: x in s[1..] ==> x in s;
      FilterNone(s[1..], p);
    }
  }

  lemma {:induction false} FilterConcat<T(!new)>(a: seq<T>, b: seq<T>, p: T -> bool)
    ensures Filter(a + b, p) == Filter(a, p) + Filter(b, p)
  {
    if a == [] {
      assert a + b == b;
    } else {
      var first := if p(a[0]) then [a[0]] else [];
      assert (a + b)[0] == a[0] && (a + b)[1..] == a[1..] + b;
      FilterConcat(a[1..], b, p);
      assert first + (Filter(a[1..], p) + Filter(b, p)) == first + Filter(a[1..], p) + Filter(b, p);
    }
  }

  /** Filtering first by a weaker test changes nothing. */
  lemma {:induction false} FilterAbsorb<T(!new)>(s: seq<T>, weak: T -> bool, strong: T -> bool)
    requires forall x :: x in s && strong(x) ==> weak(x)
    ensures Filter(Filter(s, weak), strong) == Filter(s, strong)
  {
    if s != [] {
      assert s[0] in s;
      assert forall x :: x in s[1..] ==> x in s;
      FilterAbsorb(s[1..], weak, strong);
      FilterConcat(if weak(s[0]) then [s[0]] else [], Filter(s[1..], weak), strong);
    }
  }

  lemma {:induction false} FilterSame<T(!new)>(s: seq<T>, p: T -> bool, q: T -> bool)
    requires forall x :: x in s ==> p(x) == q(x)
    ensures Filter(s, p) == Filter(s, q)
  {
    if s != [] {
      assert forall x :: x in s[1..] ==> x in s;
      FilterSame(s[1..], p, q);
    }
  }

  lemma {:induction false} FilterAll<T(!new)>(s: seq<T>, p: T -> bool)
    requires forall x :: x in s ==> p(x)
    ensures Filter(s, p) == s
  {
    if s != [] {
      assert forall x :: x in s[1..] ==> x in s;
      FilterAll(s[1..], p);
    }
  }

  /** Two filters one after the other are one. */
  lemma {:induction false} FilterBoth<T(!new)>(s: seq<T>, p: T -> bool, q: T -> bool, both: T -> bool)
    requires forall x :: x in s ==> both(x) == (p(x) && q(x))
    ensures Filter(Filter(s, p), q) == Filter(s, both)
  {
    if s != [] {
      assert s[0] in s;
      assert forall x :: x in s[1..] ==> x in s;
      FilterBoth(s[1..], p, q, both);
      FilterConcat(if p(s[0]) then [s[0]] else [], Filter(s[1..], p), q);
    }
  }

  lemma {:induction false} FilterSnoc<T(!new)>(s: seq<T>, last: T, p: T -> bool)
    ensures Filter(s + [last], p) == Filter(s, p) + if p(last) then [last] else []
  {
    FilterConcat(s, [last], p);
  }

  lemma {:induction false} FilterFrom<T(!new)>(s: seq<T>, i: nat, p: T -> bool)
    requires i < |s|
    ensures Filter(s[i..], p) == (if p(s[i]) then [s[i]] else []) + Filter(s[i + 1..], p)
  {
    assert s[i..][1..] == s[i + 1..];
  }

  lemma {:induction false} FilterMultiset<T(!new)>(s: seq<T>, p: T -> bool, x: T)
    ensures multiset(Filter(s, p))[x] == if p(x) then multiset(s)[x] else 0
  {
    if s != [] {
      FilterMultiset(s[1..], p, x);
      var first := if p(s[0]) then [s[0]] else [];
      assert s == [s[0]] + s[1..];
      assert multiset(first + Filter(s[1..], p)) == multiset(first) + multiset(Filter(s[1..], p));
    }
  }

  lemma {:induction false} FilterPermuted<T(!new)>(a: seq<T>, b: seq<T>, p: T -> bool)
    requires multiset(a) == multiset(b)
    ensures multiset(Filter(a, p)) == multiset(Filter(b, p))
  {
    hide Filter;
    forall x ensures multiset(Filter(a, p))[x] == multiset(Filter(b, p))[x] {
      FilterMultiset(a, p, x);
      FilterMultiset(b, p, x);
    }
  }

  lemma {:induction false} FirstIn<T>(s: seq<T>)
    requires s != []
    ensures s[0] in s
  {
  }

  /** All the sequences of `ss`, one after the other. */
  function Flatten<T>(ss: seq<seq<T>>): seq<T>
  {
    if ss == [] then [] else ss[0] + Flatten(ss[1..])
  }

  lemma {:induction false} FlattenConcat<T>(a: seq<seq<T>>, b: seq<seq<T>>)
    ensures Flatten(a + b) == Flatten(a) + Flatten(b)
  {
    if a == [] {
      assert a + b == b;
    } else {
      assert (a + b)[1..] == a[1..] + b;
      FlattenConcat(a[1..], b);
    }
  }

  lemma {:induction false} FlattenCons<T>(first: seq<T>, rest: seq<seq<T>>)
    ensures Flatten([first] + rest) == first + Flatten(rest)
  {
    assert ([first] + rest)[1..] == rest;
  }

  lemma {:induction false} FlattenSnoc<T>(ss: seq<seq<T>>, last: seq<T>)
    ensures Flatten(ss + [last]) == Flatten(ss) + last
  {
    FlattenConcat(ss, [last]);
  }

  lemma {:induction false} InFlatten<T>(ss: seq<seq<T>>, x: T)
    ensures x in Flatten(ss) <==> exists i :: 0 <= i < |ss| && x in ss[i]
  {
    if ss != [] {
      InFlatten(ss[1..], x);
      if x in Flatten(ss[1..]) {
        var i :| 0 <= i < |ss[1..]| && x in ss[1..][i];
        assert x in ss[i + 1];
      }
      if i :| 0 <= i < |ss| && x in ss[i] {
        assert i == 0 || x in ss[1..][i - 1];
      }
    }
  }

  /** Filtering a concatenation filters every part. */
  lemma {:induction false} FilterFlatten<T(!new)>(ss: seq<seq<T>>, p: T -> bool, parts: seq<seq<T>>)
    requires |parts| == |ss| && forall i :: 0 <= i < |ss| ==> Filter(ss[i], p) == parts[i]
    ensures Filter(Flatten(ss), p) == Flatten(parts)
  {
    if ss != [] {
      FilterFlatten(ss[1..], p, parts[1..]);
      FilterConcat(ss[0], Flatten(ss[1..]), p);
    }
  }

  /** Reading on from `a` to `b` through a window [from, end). */
  lemma {:induction false} SliceStep<T>(s: seq<T>, first: nat, a: nat, b: nat, from: nat, end: nat)
    requires first <= a <= b <= end <= |s| && from <= a
    ensures s[first..a] + s[from..end][a - from..b - from] == s[first..b]
  {
    var window := s[from..end];
    forall i | 0 <= i < b - a ensures window[a - from..b - from][i] == s[a..b][i] {
      assert window[a - from + i] == s[from + (a - from + i)];
    }
    assert window[a - from..b - from] == s[a..b];
    assert s[first..a] + s[a..b] == s[first..b];
  }

  lemma {:induction false} MulSum(a: nat, b: nat, width: nat)
    ensures (a + b) * width == a * width + b * width
    ensures 0 <= a * width && 0 <= b * width
  {
  }

  ghost predicate Uniform<T>(ss: seq<seq<T>>, width: nat) {
    forall i :: 0 <= i < |ss| ==> |ss[i]| == width
  }

  lemma {:induction false} FlattenUniformLength<T>(ss: seq<seq<T>>, width: nat)
    requires Uniform(ss, width)
    ensures |Flatten(ss)| == |ss| * width
  {
    if ss != [] {
      FlattenUniformLength(ss[1..], width);
      MulSum(1, |ss| - 1, width);
    }
  }

  /** Parts of equal width sit at multiples of the width. */
  lemma {:induction false} FlattenUniformSlice<T>(ss: seq<seq<T>>, width: nat, from: nat, to: nat)
    requires Uniform(ss, width) && from <= to <= |ss|
    ensures 0 <= from * width <= to * width <= |Flatten(ss)|
    ensures Flatten(ss)[from * width..to * width] == Flatten(ss[from..to])
  {
    var a, b, c := ss[..from], ss[from..to], ss[to..];
    assert ss == a + (b + c);
    FlattenConcat(a, b + c);
    FlattenConcat(b, c);
    FlattenUniformLength(a, width);
    FlattenUniformLength(b, width);
    FlattenUniformLength(c, width);
    MulSum(from, to - from, width);
  }

  lemma {:induction false} FlattenUniformAt<T>(ss: seq<seq<T>>, width: nat, i: nat, j: nat)
    requires Uniform(ss, width) && i < |ss| && j < width
    ensures 0 <= i * width + j < |Flatten(ss)| && Flatten(ss)[i * width + j] == ss[i][j]
  {
    FlattenUniformSlice(ss, width, i, i + 1);
    MulSum(i, 1, width);
    assert ss[i..i + 1] == [ss[i]];
    assert Flatten([ss[i]]) == ss[i];
    assert Flatten(ss)[i * width..(i + 1) * width][j] == ss[i][j];
  }

  /** Every part of a concatenation can be found again behind the parts before it. */
  lemma {:induction false} FlattenPart<T>(ss: seq<seq<T>>, i: nat)
    requires i < |ss|
    ensures |Flatten(ss[..i])| + |ss[i]| <= |Flatten(ss)|
    ensures Flatten(ss)[|Flatten(ss[..i])|..|Flatten(ss[..i])| + |ss[i]|] == ss[i]
  {
    assert ss == ss[..i] + ([ss[i]] + ss[i + 1..]);
    FlattenConcat(ss[..i], [ss[i]] + ss[i + 1..]);
    FlattenConcat([ss[i]], ss[i + 1..]);
    assert Flatten([ss[i]]) == ss[i];
  }

  /** The image of `s` under `f`. */
  function Map<S, T>(s: seq<S>, f: S -> T): (r: seq<T>)
    ensures |r| == |s| && forall i :: 0 <= i < |s| ==> r[i] == f(s[i])
  {
    seq(|s|, i requires 0 <= i < |s| => f(s[i]))
  }

  lemma {:induction false} TakeOut<T>(s: seq<T>, i: nat)
    requires i < |s|
    ensures multiset(s) == multiset(s[..i] + s[i + 1..]) + multiset{s[i]}
  {
    assert s == s[..i] + [s[i]] + s[i + 1..];
  }

  lemma {:induction false} MapTakeOut<S, T>(s: seq<S>, f: S -> T, i: nat)
    requires i < |s|
    ensures multiset(Map(s, f)) == multiset(Map(s[..i] + s[i + 1..], f)) + multiset{f(s[i])}
  {
    TakeOut(Map(s, f), i);
    assert Map(s[..i] + s[i + 1..], f) == Map(s, f)[..i] + Map(s, f)[i + 1..];
  }

  lemma {:induction false} Cancel<T>(a: multiset<T>, b: multiset<T>, x: multiset<T>)
    requires a + x == b + x
    ensures a == b
  {
    forall e ensures a[e] == b[e] { assert (a + x)[e] == (b + x)[e]; }
  }

  /** Images of permutations are permutations. */
  lemma {:induction false} MapMultiset<S, T>(a: seq<S>, b: seq<S>, f: S -> T)
    requires multiset(a) == multiset(b)
    ensures multiset(Map(a, f)) == multiset(Map(b, f))
    decreases |a|
  {
    if a == [] {
      SameLength(a, b);
    } else {
      var i := FindFirst(a, b);
      MapMultiset(a[1..], b[..i] + b[i + 1..], f);
      MapTakeFirst(a, f);
      MapTakeOut(b, f, i);
    }
  }

  lemma {:induction false} SameLength<T>(a: seq<T>, b: seq<T>)
    requires multiset(a) == multiset(b)
    ensures |a| == |b|
  {
    assert |multiset(a)| == |a| && |multiset(b)| == |b|;
  }

  lemma {:induction false} MapTakeFirst<S, T>(s: seq<S>, f: S -> T)
    requires s != []
    ensures multiset(Map(s, f)) == multiset(Map(s[1..], f)) + multiset{f(s[0])}
  {
    MapTakeOut(s, f, 0);
    assert s[..0] + s[1..] == s[1..];
  }

  /** Where the first element of a list stands in a permutation of it. */
  lemma {:induction false} FindFirst<T>(a: seq<T>, b: seq<T>) returns (i: nat)
    requires multiset(a) == multiset(b) && a != []
    ensures i < |b| && b[i] == a[0] && multiset(a[1..]) == multiset(b[..i] + b[i + 1..])
  {
    assert a[0] in multiset(b);
    i :| 0 <= i < |b| && b[i] == a[0];
    assert a[..0] + a[1..] == a[1..];
    TakeOut(a, 0);
    TakeOut(b, i);
    Cancel(multiset(a[1..]), multiset(b[..i] + b[i + 1..]), multiset{a[0]});
  }

  /** A permutation of an image is the image of a permutation. */
  lemma {:induction false} LiftPermutation<S, T>(a: seq<S>, f: S -> T, b: seq<T>) returns (p: seq<S>)
    requires multiset(b) == multiset(Map(a, f))
    ensures multiset(p) == multiset(a) && Map(p, f) == b
    decreases |b|
  {
    hide Map;
    assert |multiset(b)| == |b| && |multiset(Map(a, f))| == |a|;
    if b == [] {
      p := [];
    } else {
      assert b[0] in multiset(b);
      var i := Preimage(a, f, b[0]);
      var rest := a[..i] + a[i + 1..];
      RestOfImage(a, f, b, i);
      var tail := LiftPermutation(rest, f, b[1..]);
      p := [a[i]] + tail;
      TakeOut(a, i);
      assert multiset(p) == multiset{a[i]} + multiset(tail);
      MapCons(a[i], tail, f);
      assert b == [b[0]] + b[1..];
    }
  }

  lemma {:induction false} RestOfImage<S, T>(a: seq<S>, f: S -> T, b: seq<T>, i: nat)
    requires multiset(b) == multiset(Map(a, f)) && i < |a| && b != [] && f(a[i]) == b[0]
    ensures multiset(b[1..]) == multiset(Map(a[..i] + a[i + 1..], f))
  {
    hide Map;
    TakeOut(b, 0);
    MapTakeOut(a, f, i);
    assert b[..0] + b[1..] == b[1..];
    Cancel(multiset(b[1..]), multiset(Map(a[..i] + a[i + 1..], f)), multiset{b[0]});
  }

  lemma {:induction false} MapCons<S, T>(x: S, s: seq<S>, f: S -> T)
    ensures Map([x] + s, f) == [f(x)] + Map(s, f)
  {
  }

  lemma {:induction false} Preimage<S, T>(a: seq<S>, f: S -> T, x: T) returns (i: nat)
    requires x in multiset(Map(a, f))
    ensures i < |a| && f(a[i]) == x
  {
    var k :| 0 <= k < |Map(a, f)| && Map(a, f)[k] == x;
    i := k;
  }
}
