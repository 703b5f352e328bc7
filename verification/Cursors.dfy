/**
 The merging and the chaining cursor as objects, and their composition. The priority queue of the
 merge is a set of (key, child) pairs of which the least is popped.
 */
module Cursors {
  import opened Seqs
  import opened Storage
  import opened Merging

  datatype ScanOrder = Unordered | KeyAscending

  predicate Precedes(a: (Key, nat), b: (Key, nat)) { a.0 < b.0 || (a.0 == b.0 && a.1 <= b.1) }

  class MergeCursor {
    var children: seq<seq<Row>>
    var heap: set<(Key, nat)>

    /** One entry for each child with rows left: its current key. */
    ghost predicate Valid()
      reads this
    {
      && (forall i :: 0 <= i < |children| && children[i] != [] ==> (children[i][0].key, i) in heap)
      && (forall e :: e in heap ==> e.1 < |children| && children[e.1] != [] && children[e.1][0].key == e.0)
    }

    ghost function Remaining(): seq<Row>
      reads this
    {
      Merge(children)
    }

    constructor (children: seq<seq<Row>>)
      ensures Valid() && Remaining() == Merge(children)
    {
      this.children := children;
      heap := {};
      new;
      for i := 0 to |children|
        invariant this.children == children
        invariant forall k :: 0 <= k < i && children[k] != [] ==> (children[k][0].key, k) in heap
        invariant forall e :: e in heap ==> e.1 < i && children[e.1] != [] && children[e.1][0].key == e.0
      {
        PushIfValid(i);
      }
    }

    method PushIfValid(child: nat)
      requires child < |children|
      modifies this`heap
      ensures heap == old(heap) + if children[child] != [] then {(children[child][0].key, child)} else {}
    {
      if children[child] != [] { heap := heap + {(children[child][0].key, child)}; }
    }

    predicate HasRow()
      reads this
    {
      heap != {}
    }

    /** heap_.top(): the least key, the earliest child on a tie. */
    method TopEntry() returns (top: (Key, nat))
      requires Valid() && HasRow()
      ensures top in heap && Top(children) == Some(top.1)
    {
      LeastExists(heap);
      top :| top in heap && forall e :: e in heap ==> Precedes(top, e);
      TopIs(children, top.1);
    }

    method Key() returns (key: Key)
      requires Valid() && HasRow()
      ensures Remaining() != [] && key == Remaining()[0].key
    {
      var top := TopEntry();
      key := top.0;
    }

    /** key() and value() of every column: the row of the child on top. */
    method CurrentRow() returns (row: Row)
      requires Valid() && HasRow()
      ensures Remaining() != [] && row == Remaining()[0]
    {
      var top := TopEntry();
      row := children[top.1][0];
    }

    method Next()
      requires Valid()
      modifies this
      ensures Valid()
      ensures if old(HasRow()) then old(Remaining()) != [] && Remaining() == old(Remaining())[1..]
              else old(Remaining()) == [] && Remaining() == []
    {
      if heap == {} {
        assert Exhausted(children);
        return;
      }
      var top := TopEntry();
      heap := heap - {top};
      children := Advance(children, top.1);
      PushIfValid(top.1);
    }
  }

  lemma {:induction false} LeastExists(entries: set<(Key, nat)>)
    requires entries != {}
    ensures exists top :: top in entries && forall e :: e in entries ==> Precedes(top, e)
  {
    var some :| some in entries;
    var others := entries - {some};
    if others == {} {
      forall e | e in entries ensures Precedes(some, e) {
        assert e !in others;
      }
    } else {
      LeastExists(others);
      var least :| least in others && forall e :: e in others ==> Precedes(least, e);
      var top := if Precedes(some, least) then some else least;
      assert forall e :: e in entries ==> e == some || e in others;
      assert forall e :: e in entries ==> Precedes(top, e);
    }
  }

  lemma {:induction false} TopIs(children: seq<seq<Row>>, top: nat)
    requires top < |children| && children[top] != []
    requires forall j :: 0 <= j < |children| && j != top && children[j] != [] ==>
      Precedes((children[top][0].key, top), (children[j][0].key, j))
    ensures Top(children) == Some(top)
  {
    assert Top(children).Some?;
  }

  class ChainCursor {
    var children: seq<seq<Row>>
    var current: nat

    ghost predicate Valid()
      reads this
    {
      current <= |children| && (current < |children| ==> children[current] != [])
    }

    ghost function Remaining(): seq<Row>
      requires current <= |children|
      reads this
    {
      Flatten(children[current..])
    }

    constructor (children: seq<seq<Row>>)
      ensures Valid() && Remaining() == Flatten(children)
    {
      this.children := children;
      current := 0;
      new;
      assert children[0..] == children;
      SkipInvalidCursors();
    }

    method SkipInvalidCursors()
      requires current <= |children|
      modifies this`current
      ensures Valid() && Remaining() == old(Remaining())
    {
      while current < |children| && children[current] == []
        invariant current <= |children| && Remaining() == old(Remaining())
        decreases |children| - current
      {
        assert children[current..][1..] == children[current + 1..];
        assert [] + Flatten(children[current + 1..]) == Flatten(children[current + 1..]);
        current := current + 1;
      }
    }

    predicate HasRow()
      reads this
    {
      current < |children| && children[current] != []
    }

    method Next()
      requires Valid()
      modifies this
      ensures Valid()
      ensures if old(HasRow()) then old(Remaining()) != [] && Remaining() == old(Remaining())[1..]
              else old(Remaining()) == [] && Remaining() == []
    {
      if !HasRow() { return; }
      ghost var rest := children[current..][1..];
      assert children[current..][0] == children[current];
      children := children[current := children[current][1..]];
      assert children[current..][1..] == rest && children[current..][0] == children[current];
      SkipInvalidCursors();
    }
  }

  // ---------- compose_cursors ----------

  /** What the composition of these children emits. */
  function Composed(children: seq<seq<Row>>, order: ScanOrder): seq<Row> {
    if order.KeyAscending? then Merge(children) else Flatten(children)
  }

  function NonEmpty(): seq<Row> -> bool { (rows: seq<Row>) => rows != [] }

  datatype Cursor = EmptyCursor | Single(rows: seq<Row>) | Chained(chain: ChainCursor) | Merged(merge: MergeCursor)

  ghost predicate Ready(c: Cursor, rows: seq<Row>)
    reads if c.Chained? then {c.chain} else {}, if c.Merged? then {c.merge} else {}
  {
    match c
    case EmptyCursor => rows == []
    case Single(left) => rows == left
    case Chained(chain) => chain.Valid() && chain.Remaining() == rows
    case Merged(merge) => merge.Valid() && merge.Remaining() == rows
  }

  /** compose_cursors: dropping empty children and unwrapping a single one changes nothing. */
  method ComposeCursors(cursors: seq<seq<Row>>, order: ScanOrder) returns (c: Cursor)
    ensures Ready(c, Composed(cursors, order))
  {
    var valid := [];
    for i := 0 to |cursors|
      invariant valid == Filter(cursors[..i], NonEmpty())
    {
      FilterSnoc(cursors[..i], cursors[i], NonEmpty());
      assert cursors[..i + 1] == cursors[..i] + [cursors[i]];
      if cursors[i] != [] { valid := valid + [cursors[i]]; }
    }
    assert cursors[..|cursors|] == cursors;
    EmptyChildrenDoNotMatter(cursors);
    if valid == [] { return EmptyCursor; }
    if |valid| == 1 {
      SingleChild(valid[0]);
      assert valid == [valid[0]];
      return Single(valid[0]);
    }
    match order
    case Unordered =>
      var chain := new ChainCursor(valid);
      return Chained(chain);
    case KeyAscending =>
      var merge := new MergeCursor(valid);
      return Merged(merge);
  }

  lemma {:induction false} SingleChild(rows: seq<Row>)
    ensures Merge([rows]) == rows && Flatten([rows]) == rows
  {
    if rows != [] {
      TopIs([rows], 0);
      assert Advance([rows], 0) == [rows[1..]];
      SingleChild(rows[1..]);
    }
  }

  lemma {:induction false} FlattenDropsEmpty(children: seq<seq<Row>>)
    ensures Flatten(Filter(children, NonEmpty())) == Flatten(children)
  {
    if children != [] {
      FlattenDropsEmpty(children[1..]);
      FlattenConcat(if children[0] != [] then [children[0]] else [], Filter(children[1..], NonEmpty()));
      assert Flatten([children[0]]) == children[0];
    }
  }

  /** Filtering around one element, before and after its neighbours were filtered. */
  lemma {:induction false} FilterAround<T(!new)>(a: seq<T>, x: T, b: seq<T>, f: T -> bool)
    ensures var middle := if f(x) then [x] else [];
            && Filter(a + [x] + b, f) == Filter(a, f) + middle + Filter(b, f)
            && Filter(Filter(a, f) + [x] + Filter(b, f), f) == Filter(a, f) + middle + Filter(b, f)
  {
    hide Filter;
    FilterConcat(a + [x], b, f);
    FilterSnoc(a, x, f);
    FilterConcat(Filter(a, f) + [x], Filter(b, f), f);
    FilterSnoc(Filter(a, f), x, f);
    FilterAbsorb(a, f, f);
    FilterAbsorb(b, f, f);
  }

  lemma {:induction false} MergeStep(children: seq<seq<Row>>, a: seq<seq<Row>>, x: seq<Row>, b: seq<seq<Row>>)
    requires x != [] && children == a + [x] + b && Top(children) == Some(|a|)
    ensures Merge(children) == [x[0]] + Merge(a + [x[1..]] + b)
    ensures |Flatten(a + [x[1..]] + b)| < |Flatten(children)|
  {
    AdvanceShrinks(children, |a|);
    assert Advance(children, |a|) == a + [x[1..]] + b;
  }

  lemma {:induction false} TopAround(a: seq<seq<Row>>, x: seq<Row>, b: seq<seq<Row>>)
    requires x != [] && Top(a + [x] + b) == Some(|a|)
    ensures Top(Filter(a, NonEmpty()) + [x] + Filter(b, NonEmpty())) == Some(|Filter(a, NonEmpty())|)
  {
    hide Filter, Top;
    var all, left, right := a + [x] + b, Filter(a, NonEmpty()), Filter(b, NonEmpty());
    var kept: seq<seq<Row>> := left + [x] + right;
    InFilter(a, NonEmpty());
    InFilter(b, NonEmpty());
    assert all[|a|] == x;
    forall j | 0 <= j < |left| && kept[j] != [] ensures x[0].key < kept[j][0].key {
      assert kept[j] in left && kept[j] in a;
      var i :| 0 <= i < |a| && a[i] == kept[j];
      assert all[i] == a[i];
    }
    forall j | |left| <= j < |kept| && kept[j] != [] ensures x[0].key <= kept[j][0].key {
      if j > |left| {
        assert kept[j] == right[j - |left| - 1] && kept[j] in right && kept[j] in b;
        var i :| 0 <= i < |b| && b[i] == kept[j];
        assert all[|a| + 1 + i] == b[i];
      }
    }
    TopIs(kept, |left|);
  }

  lemma {:induction false} NothingToMerge(children: seq<seq<Row>>)
    requires Top(children).None?
    ensures Merge(Filter(children, NonEmpty())) == [] && Merge(children) == []
  {
    FilterNone(children, NonEmpty());
  }

  lemma {:induction false} TopShows(children: seq<seq<Row>>)
    requires Top(children).Some?
    ensures var x := children[Top(children).value]; x != [] && NonEmpty()(x)
  {
  }

  lemma {:induction false} EmptyChildrenDoNotMatter(children: seq<seq<Row>>)
    ensures Merge(Filter(children, NonEmpty())) == Merge(children)
    ensures Flatten(Filter(children, NonEmpty())) == Flatten(children)
    decreases |Flatten(children)|
  {
    hide Filter, Flatten, Top, Merge, NonEmpty;
    FlattenDropsEmpty(children);
    var top := Top(children);
    if top.None? {
      NothingToMerge(children);
    } else {
      var t, x := top.value, children[top.value];
      var a, b := children[..t], children[t + 1..];
      var left, right := Filter(a, NonEmpty()), Filter(b, NonEmpty());
      assert children == a + [x] + b;
      TopShows(children);
      FilterAround(a, x, b, NonEmpty());
      FilterAround(a, x[1..], b, NonEmpty());
      TopAround(a, x, b);
      MergeStep(children, a, x, b);
      MergeStep(left + [x] + right, left, x, right);
      EmptyChildrenDoNotMatter(a + [x[1..]] + b);
      EmptyChildrenDoNotMatter(left + [x[1..]] + right);
    }
  }
}
