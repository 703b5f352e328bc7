/** Least-recently-used lists: the order the two caches keep, and what eviction from the back leaves. */
module Lru {

  ghost predicate Distinct<K>(keys: seq<K>) {
    forall i, j :: 0 <= i < j < |keys| ==> keys[i] != keys[j]
  }

  function Total<K>(keys: seq<K>, size: K -> nat): nat {
    if keys == [] then 0 else Total(keys[..|keys| - 1], size) + size(keys[|keys| - 1])
  }

  /** The list without its first occurrence of `key`. */
  function Without<K(==)>(keys: seq<K>, key: K): seq<K> {
    if keys == [] then []
    else if keys[0] == key then keys[1..]
    else [keys[0]] + Without(keys[1..], key)
  }

  /** `key` moved, or added, to the front. */
  function Touch<K(==)>(keys: seq<K>, key: K): (r: seq<K>)
    ensures r != [] && r[0] == key
  {
    [key] + Without(keys, key)
  }

  /** Keys dropped from the back while the rest is over budget and more than one key is left. */
  function Fit<K>(keys: seq<K>, size: K -> nat, budget: nat): (kept: seq<K>)
    ensures kept <= keys
  {
    if Total(keys, size) > budget && |keys| > 1 then Fit(keys[..|keys| - 1], size, budget) else keys
  }

  ghost predicate Settled<K>(keys: seq<K>, size: K -> nat, budget: nat) {
    Total(keys, size) <= budget || |keys| <= 1
  }

  /** Eviction keeps the longest prefix of most recent keys that fits, and never the empty one. */
  lemma {:induction false} FitIsLongest<K>(keys: seq<K>, size: K -> nat, budget: nat)
    requires keys != []
    ensures var kept := Fit(keys, size, budget);
            && kept != [] && kept[0] == keys[0] && Settled(kept, size, budget)
            && forall n :: |kept| < n <= |keys| ==> Total(keys[..n], size) > budget
  {
    if Total(keys, size) > budget && |keys| > 1 {
      var shorter := keys[..|keys| - 1];
      FitIsLongest(shorter, size, budget);
      var kept := Fit(keys, size, budget);
      forall n | |kept| < n <= |keys| ensures Total(keys[..n], size) > budget {
        if n < |keys| {
          assert keys[..n] == shorter[..n];
        } else {
          assert keys[..n] == keys;
        }
      }
    }
  }

  /** The most recent key survives, and a list that already fits is left alone. */
  lemma {:induction false} FitKeeps<K>(keys: seq<K>, size: K -> nat, budget: nat)
    requires keys != []
    ensures var kept := Fit(keys, size, budget);
            kept != [] && kept[0] == keys[0] && Settled(kept, size, budget)
    ensures Settled(keys, size, budget) ==> Fit(keys, size, budget) == keys
  {
    FitIsLongest(keys, size, budget);
  }

  lemma {:induction false} TotalFront<K>(keys: seq<K>, key: K, size: K -> nat)
    ensures Total([key] + keys, size) == size(key) + Total(keys, size)
  {
    if keys == [] {
      assert [key] + keys == [key];
      assert Total([key], size) == Total([], size) + size(key) by { assert [key][..0] == []; }
    } else {
      TotalFront(keys[..|keys| - 1], key, size);
      assert ([key] + keys)[..|keys|] == [key] + keys[..|keys| - 1];
    }
  }

  lemma {:induction false} InWithout<K>(keys: seq<K>, key: K)
    requires Distinct(keys)
    ensures Distinct(Without(keys, key))
    ensures forall k :: k in Without(keys, key) <==> k in keys && k != key
  {
    if keys != [] {
      var rest := keys[1..];
      assert Distinct(rest);
      assert forall k :: k in keys <==> k == keys[0] || k in rest;
      assert keys[0] !in rest;
      InWithout(rest, key);
    }
  }

  lemma {:induction false} TotalWithout<K>(keys: seq<K>, key: K, size: K -> nat)
    ensures key in keys ==> Total(keys, size) == Total(Without(keys, key), size) + size(key)
    ensures key !in keys ==> Without(keys, key) == keys
  {
    if keys != [] {
      var rest := keys[1..];
      assert keys == [keys[0]] + rest;
      TotalFront(rest, keys[0], size);
      if keys[0] != key {
        TotalWithout(rest, key, size);
        TotalFront(Without(rest, key), keys[0], size);
      }
    }
  }

  /** Touching permutes the keys or adds one; totals follow. */
  lemma {:induction false} TouchKeeps<K>(keys: seq<K>, key: K, size: K -> nat)
    requires Distinct(keys)
    ensures Distinct(Touch(keys, key))
    ensures forall k :: k in Touch(keys, key) <==> k in keys || k == key
    ensures Total(Touch(keys, key), size) == Total(keys, size) + if key in keys then 0 else size(key)
    ensures key in keys ==> |Touch(keys, key)| == |keys|
  {
    InWithout(keys, key);
    TotalWithout(keys, key, size);
    TotalFront(Without(keys, key), key, size);
    WithoutLength(keys, key);
  }

  lemma {:induction false} WithoutLength<K>(keys: seq<K>, key: K)
    ensures key in keys ==> |Without(keys, key)| == |keys| - 1
  {
    if keys != [] && keys[0] != key { WithoutLength(keys[1..], key); }
  }

  lemma {:induction false} DropLast<K>(keys: seq<K>, size: K -> nat)
    requires keys != [] && Distinct(keys)
    ensures var rest, last := keys[..|keys| - 1], keys[|keys| - 1];
            && Distinct(rest) && last !in rest
            && Total(keys, size) == Total(rest, size) + size(last)
            && forall k :: k in rest <==> k in keys && k != last
  {
    var rest, last := keys[..|keys| - 1], keys[|keys| - 1];
    assert keys == rest + [last];
  }

  lemma {:induction false} TotalSame<K>(keys: seq<K>, f: K -> nat, g: K -> nat)
    requires forall k :: k in keys ==> f(k) == g(k)
    ensures Total(keys, f) == Total(keys, g)
  {
    if keys != [] { TotalSame(keys[..|keys| - 1], f, g); }
  }
}
