/** The sparse index of a table: which blocks it lists, and which blocks a key range selects through it. */
module SparseIndex {
  import opened Storage

  datatype IndexEntry = IndexEntry(minKey: Key, blockId: nat)

  // ---------- Writing ----------

  datatype IndexOptions = IndexOptions(fixedStep: U32, targetBytes: nat, minStep: U32, maxStep: U32)

  const ENTRY_BYTES := 12

  function Clamp(x: int, low: int, high: int): int
    requires low <= high
  {
    if x < low then low else if high < x then high else x
  }

  /** choose_sparse_index_step: every choice is a positive step between the configured bounds. */
  function ChooseStep(blocks: U32, options: IndexOptions): (step: int)
    ensures step >= 1
    ensures blocks > 0 && 1 <= options.minStep <= options.maxStep ==> options.minStep <= step <= options.maxStep
    ensures blocks > 0 && options.fixedStep != 0 && options.minStep <= options.fixedStep <= options.maxStep
            ==> step == options.fixedStep
  {
    if blocks == 0 then 1
    else
      var minStep := if options.minStep < 1 then 1 else options.minStep;
      var maxStep := if options.maxStep < minStep then minStep else options.maxStep;
      if options.fixedStep != 0 then Clamp(options.fixedStep, minStep, maxStep)
      else if options.targetBytes < ENTRY_BYTES then maxStep
      else
        var maxEntries := options.targetBytes / ENTRY_BYTES;
        var raw := (blocks + maxEntries - 1) / maxEntries;
        Clamp(if raw < U32_LIMIT then raw else U32_LIMIT - 1, minStep, maxStep)
  }

  /** Entries of the first n blocks: every step-th block with its true minimum. */
  function Entries(mins: seq<Key>, step: nat, n: nat): (index: seq<IndexEntry>)
    requires step >= 1 && n <= |mins|
    ensures forall e :: e in index <==> e.blockId < n && e.blockId % step == 0 && e.minKey == mins[e.blockId]
    ensures forall i, j :: 0 <= i < j < |index| ==> index[i].blockId < index[j].blockId
    ensures n > 0 ==> index != [] && index[0] == IndexEntry(mins[0], 0)
  {
    if n == 0 then []
    else
      var before := Entries(mins, step, n - 1);
      if (n - 1) % step == 0 then
        assert n == 1 || before != [];
        before + [IndexEntry(mins[n - 1], n - 1)]
      else before
  }

  /** write_sparse_index_file over the candidates, one per block in block order. */
  method WriteIndex(mins: seq<Key>, step: nat) returns (index: seq<IndexEntry>)
    requires step >= 1
    ensures index == Entries(mins, step, |mins|)
  {
    index := [];
    for id := 0 to |mins|
      invariant index == Entries(mins, step, id)
    {
      if id % step != 0 { continue; }
      index := index + [IndexEntry(mins[id], id)];
    }
  }

  /** Every step-th of n blocks is listed: n divided by the step, rounded up. */
  lemma {:induction false} EntriesCount(mins: seq<Key>, step: nat, n: nat)
    requires step >= 1 && n <= |mins|
    ensures var k := |Entries(mins, step, n)|; k * step < n + step && n <= k * step
  {
    hide Entries;
    if n > 0 {
      EntriesCount(mins, step, n - 1);
      Rounding(|Entries(mins, step, n - 1)|, step, n - 1);
      OneMore(mins, step, n);
    } else {
      NoEntries(mins, step);
    }
  }

  lemma {:induction false} OneMore(mins: seq<Key>, step: nat, n: nat)
    requires step >= 1 && 0 < n <= |mins|
    ensures |Entries(mins, step, n)| == |Entries(mins, step, n - 1)| + if (n - 1) % step == 0 then 1 else 0
  {
  }

  lemma {:induction false} NoEntries(mins: seq<Key>, step: nat)
    requires step >= 1
    ensures |Entries(mins, step, 0)| == 0
  {
  }

  /** k is n divided by the step, rounded up; one block more needs one entry more when n is a multiple. */
  lemma {:induction false} Rounding(k: nat, step: nat, n: nat)
    requires step >= 1 && k * step < n + step && n <= k * step
    ensures (k + 1) * step == k * step + step
    ensures n % step == 0 <==> k * step == n
  {
    var d, r := n / step, n % step;
    assert n == d * step + r;
    assert (k + 1) * step == k * step + step;
    if k < d { Scaled(k + 1, d, step); }
    if k > d + 1 { Scaled(d + 2, k, step); }
    assert (d + 1) * step == d * step + step && (d + 2) * step == d * step + step + step;
  }

  lemma {:induction false} Scaled(a: nat, b: nat, step: nat)
    requires a <= b
    ensures a * step <= b * step && step * a <= step * b
  {
  }

  /** At least `raw` blocks to an entry, n divided by the room rounded up, is what it takes to fit. */
  lemma {:induction false} FitsExactly(n: nat, room: nat, raw: nat, step: nat, k: nat)
    requires room >= 1 && step >= 1 && k * step < n + step && n <= k * step
    requires raw * room < n + room && n <= raw * room
    ensures k <= room <==> raw <= step
  {
    assert (room + 1) * step == room * step + step;
    if raw <= step {
      Scaled(raw, step, room);
      if k > room { Scaled(room + 1, k, step); }
    } else {
      Scaled(step + 1, raw, room);
      assert (step + 1) * room == step * room + room;
      if k <= room { Scaled(k, room, step); }
    }
  }

  lemma {:induction false} RoundedUp(n: nat, room: nat)
    requires room >= 1
    ensures var raw := (n + room - 1) / room; raw * room < n + room && n <= raw * room
  {
    var raw := (n + room - 1) / room;
    assert n + room - 1 == raw * room + (n + room - 1) % room;
  }

  /**
   A fixed step is kept, or moved to the nearer bound. Otherwise the step is the least one between the bounds with
   which the index, at 12 bytes an entry, takes no more bytes than wanted; the largest one if none does.
   */
  lemma {:induction false} StepMeans(mins: seq<Key>, options: IndexOptions)
    requires 0 < |mins| < U32_LIMIT && 1 <= options.minStep <= options.maxStep
    ensures var step := ChooseStep(|mins|, options);
            && options.minStep <= step <= options.maxStep
            && (options.fixedStep != 0 ==>
                  && (step < options.maxStep ==> options.fixedStep <= step)
                  && (step > options.minStep ==> options.fixedStep >= step))
            && (options.fixedStep == 0 ==>
                  && (step < options.maxStep ==> |Entries(mins, step, |mins|)| * 12 <= options.targetBytes)
                  && (step > options.minStep ==> |Entries(mins, step - 1, |mins|)| * 12 > options.targetBytes))
  {
    hide Entries;
    var n, room := |mins|, options.targetBytes / ENTRY_BYTES;
    var step := ChooseStep(n, options);
    if options.fixedStep == 0 {
      EntriesCount(mins, step, n);
      if step > options.minStep { EntriesCount(mins, step - 1, n); }
      if room == 0 {
        assert step == options.maxStep;
        if step > options.minStep { SomeEntry(mins, step - 1); }
      } else {
        var raw := (n + room - 1) / room;
        RoundedUp(n, room);
        AtMost(n, room, raw);
        FitsExactly(n, room, raw, step, |Entries(mins, step, n)|);
        if step > options.minStep { FitsExactly(n, room, raw, step - 1, |Entries(mins, step - 1, n)|); }
      }
    }
  }

  lemma {:induction false} SomeEntry(mins: seq<Key>, step: nat)
    requires step >= 1 && mins != []
    ensures |Entries(mins, step, |mins|)| >= 1
  {
  }

  lemma {:induction false} AtMost(n: nat, room: nat, raw: nat)
    requires room >= 1 && raw * room < n + room
    ensures raw <= n
  {
    if raw > n {
      Scaled(n + 1, raw, room);
      assert (n + 1) * room == n * room + room;
      Scaled(1, room, n);
    }
  }

  // ---------- Reading ----------

  ghost predicate SortedIndex(index: seq<IndexEntry>) {
    forall i, j :: 0 <= i <= j < |index| ==> index[i].minKey <= index[j].minKey
  }

  /** The entry lies before the key, or at most at it. */
  predicate Before(e: IndexEntry, key: Key, strict: bool) {
    if strict then e.minKey < key else e.minKey <= key
  }

  /** Number of leading entries before the key. */
  function CountBefore(index: seq<IndexEntry>, key: Key, strict: bool): (n: nat)
    ensures n <= |index|
    ensures forall i :: 0 <= i < n ==> Before(index[i], key, strict)
    ensures n < |index| ==> !Before(index[n], key, strict)
  {
    if index == [] || !Before(index[0], key, strict) then 0
    else 1 + CountBefore(index[1..], key, strict)
  }

  lemma {:induction false} CountIs(index: seq<IndexEntry>, key: Key, strict: bool, n: nat)
    requires n <= |index| && forall i :: 0 <= i < n ==> Before(index[i], key, strict)
    requires n < |index| ==> !Before(index[n], key, strict)
    ensures CountBefore(index, key, strict) == n
  {
    if n > 0 { CountIs(index[1..], key, strict, n - 1); }
  }

  /** std::upper_bound (strict == false) and std::lower_bound (strict == true) by bisection. */
  method Bisect(index: seq<IndexEntry>, key: Key, strict: bool) returns (position: nat)
    requires SortedIndex(index)
    ensures position == CountBefore(index, key, strict)
  {
    var low, high := 0, |index|;
    while low < high
      invariant 0 <= low <= high <= |index|
      invariant forall i :: 0 <= i < low ==> Before(index[i], key, strict)
      invariant forall i :: high <= i < |index| ==> !Before(index[i], key, strict)
    {
      var mid := (low + high) / 2;
      if Before(index[mid], key, strict) {
        low := mid + 1;
      } else {
        high := mid;
      }
    }
    position := low;
    CountIs(index, key, strict, low);
  }

  datatype BlockSpan = BlockSpan(first: nat, count: nat) {
    predicate Includes(block: nat) { first <= block < first + count }
  }

  function FirstSelected(index: seq<IndexEntry>, range: KeyRange): nat {
    if range.from.None? then 0
    else
      var upper := CountBefore(index, range.from.value, false);
      if upper == 0 then 0 else index[upper - 1].blockId
  }

  /** The first entry at or beyond the end of the range; |index| when there is none. */
  function EndEntry(index: seq<IndexEntry>, range: KeyRange): (n: nat)
    ensures n <= |index|
  {
    if range.to.None? then |index| else CountBefore(index, range.to.value, true)
  }

  function EndSelected(index: seq<IndexEntry>, range: KeyRange, total: nat): nat {
    var n := EndEntry(index, range);
    if n == |index| then total else index[n].blockId
  }

  /** select_metadata_range; Err is its "block_id is out of range". */
  function SelectSpan(index: seq<IndexEntry>, range: KeyRange, total: nat): Result<BlockSpan> {
    if total == 0 then Ok(BlockSpan(0, 0))
    else if index == [] then Ok(BlockSpan(0, total))
    else
      var first, end := FirstSelected(index, range), EndSelected(index, range, total);
      if first >= total || (EndEntry(index, range) < |index| && end >= total) then Err
      else if end <= first then Ok(BlockSpan(first, 0))
      else Ok(BlockSpan(first, end - first))
  }

  method SelectMetadataRange(index: seq<IndexEntry>, range: KeyRange, total: nat) returns (span: Result<BlockSpan>)
    requires SortedIndex(index)
    ensures span == SelectSpan(index, range, total)
  {
    if total == 0 { return Ok(BlockSpan(0, 0)); }
    if index == [] { return Ok(BlockSpan(0, total)); }
    var first := 0;
    if range.from.Some? {
      var upper := Bisect(index, range.from.value, false);
      if upper != 0 { first := index[upper - 1].blockId; }
    }
    if first >= total { return Err; }
    var end := total;
    if range.to.Some? {
      var lower := Bisect(index, range.to.value, true);
      if lower != |index| {
        end := index[lower].blockId;
        if end >= total { return Err; }
      }
    }
    if end <= first { return Ok(BlockSpan(first, 0)); }
    return Ok(BlockSpan(first, end - first));
  }

  // ---------- No block is lost ----------

  /** Blocks in key order; two neighbours may share a boundary key when the table holds duplicates. */
  ghost predicate BlocksInOrder(mins: seq<Key>, maxs: seq<Key>) {
    && |mins| == |maxs|
    && (forall i :: 0 <= i < |mins| ==> mins[i] <= maxs[i])
    && (forall i, j :: 0 <= i < j < |mins| ==> maxs[i] <= mins[j])
  }

  /** No two blocks share a key: the table's keys are strictly ascending. */
  ghost predicate BlocksDisjoint(mins: seq<Key>, maxs: seq<Key>) {
    BlocksInOrder(mins, maxs) && forall i, j :: 0 <= i < j < |mins| ==> maxs[i] < mins[j]
  }

  predicate Intersects(min: Key, max: Key, range: KeyRange) {
    (range.from.Some? ==> range.from.value <= max) && (range.to.Some? ==> min < range.to.value)
  }

  /** The range starts on the block's last key, and a later indexed block starts on that key as well. */
  ghost predicate SharesFrom(mins: seq<Key>, maxs: seq<Key>, step: nat, range: KeyRange, block: nat)
    requires step >= 1 && |mins| == |maxs| && block < |mins|
  {
    range.from.Some? && maxs[block] == range.from.value
    && exists j :: block < j < |mins| && j % step == 0 && mins[j] == range.from.value
  }

  lemma {:induction false} EntriesSorted(mins: seq<Key>, maxs: seq<Key>, step: nat)
    requires step >= 1 && BlocksInOrder(mins, maxs)
    ensures SortedIndex(Entries(mins, step, |mins|))
  {
    var index := Entries(mins, step, |mins|);
    forall i, j | 0 <= i < j < |index| ensures index[i].minKey <= index[j].minKey {
      assert index[i] in index && index[j] in index;
    }
  }

  lemma {:induction false} FirstSelectedIs(mins: seq<Key>, maxs: seq<Key>, step: nat, range: KeyRange)
    requires step >= 1 && BlocksInOrder(mins, maxs) && mins != []
    ensures var first := FirstSelected(Entries(mins, step, |mins|), range);
            && first < |mins| && first % step == 0
            && (first > 0 ==> range.from.Some? && mins[first] <= range.from.value)
            && forall j :: first < j < |mins| && j % step == 0 && range.from.Some? ==> range.from.value < mins[j]
  {
    hide Entries, CountBefore;
    EntriesSorted(mins, maxs, step);
    var index := Entries(mins, step, |mins|);
    assert index[0] in index;
    if range.from.Some? {
      var upper := CountBefore(index, range.from.value, false);
      if upper > 0 { assert index[upper - 1] in index; }
      var first := FirstSelected(index, range);
      forall j | first < j < |mins| && j % step == 0 ensures range.from.value < mins[j] {
        assert IndexEntry(mins[j], j) in index;
        var i :| 0 <= i < |index| && index[i] == IndexEntry(mins[j], j);
        assert i >= upper;
        assert index[upper].minKey <= index[i].minKey;
      }
    }
  }

  lemma {:induction false} EndSelectedIs(mins: seq<Key>, maxs: seq<Key>, step: nat, range: KeyRange)
    requires step >= 1 && BlocksInOrder(mins, maxs) && mins != []
    ensures var end := EndSelected(Entries(mins, step, |mins|), range, |mins|);
            && end <= |mins|
            && forall b :: end <= b < |mins| ==> range.to.Some? && range.to.value <= mins[b]
  {
    hide Entries, CountBefore;
    EntriesSorted(mins, maxs, step);
    var index := Entries(mins, step, |mins|);
    if range.to.Some? {
      var lower := EndEntry(index, range);
      if lower < |index| {
        assert index[lower] in index;
        var end := index[lower].blockId;
        assert range.to.value <= mins[end];
        forall b | end <= b < |mins| ensures range.to.value <= mins[b] {
          assert b == end || maxs[end] <= mins[b];
        }
      }
    }
  }

  /**
   Through the index, a range never meets an error, and it loses a block it intersects exactly when it
   starts on a key that the block shares with a later indexed one.
   */
  lemma {:induction false} SelectionExact(mins: seq<Key>, maxs: seq<Key>, step: nat, range: KeyRange)
    requires step >= 1 && BlocksInOrder(mins, maxs)
    ensures var span := SelectSpan(Entries(mins, step, |mins|), range, |mins|);
            && span.Ok? && span.value.first + span.value.count <= |mins|
            && forall b :: 0 <= b < |mins| && Intersects(mins[b], maxs[b], range) ==>
                 (span.value.Includes(b) <==> !SharesFrom(mins, maxs, step, range, b))
  {
    if mins != [] {
      var index := Entries(mins, step, |mins|);
      FirstSelectedIs(mins, maxs, step, range);
      EndSelectedIs(mins, maxs, step, range);
      var first, end := FirstSelected(index, range), EndSelected(index, range, |mins|);
      forall b | 0 <= b < |mins| && Intersects(mins[b], maxs[b], range)
        ensures b < end
        ensures first <= b <==> !SharesFrom(mins, maxs, step, range, b)
      {
        if b < first {
          assert maxs[b] <= mins[first] <= range.from.value;
          assert SharesFrom(mins, maxs, step, range, b);
        }
      }
    }
  }

  /** The first listed block that starts at or beyond the end of the range. */
  lemma {:induction false} EndIsFirst(mins: seq<Key>, maxs: seq<Key>, step: nat, range: KeyRange)
    requires step >= 1 && BlocksInOrder(mins, maxs) && mins != []
    ensures var end := EndSelected(Entries(mins, step, |mins|), range, |mins|);
            && end <= |mins| && (end < |mins| ==> end % step == 0 && range.to.Some? && range.to.value <= mins[end])
            && forall j :: 0 <= j < end && j % step == 0 && range.to.Some? ==> mins[j] < range.to.value
  {
    hide Entries, CountBefore;
    EntriesSorted(mins, maxs, step);
    var index := Entries(mins, step, |mins|);
    if range.to.Some? {
      var lower, end := EndEntry(index, range), EndSelected(index, range, |mins|);
      if lower < |index| { assert index[lower] in index; }
      forall j | 0 <= j < end && j % step == 0 ensures mins[j] < range.to.value {
        assert IndexEntry(mins[j], j) in index;
        var i :| 0 <= i < |index| && index[i] == IndexEntry(mins[j], j);
        assert i < lower;
      }
    }
  }

  /**
   The selection takes no block more than the index asks for: a block is selected if and only if no listed block behind
   it starts at or before the range, and no listed block up to it starts at or beyond the end.
   */
  lemma {:induction false} SelectionTight(mins: seq<Key>, maxs: seq<Key>, step: nat, range: KeyRange, block: nat)
    requires step >= 1 && BlocksInOrder(mins, maxs) && block < |mins|
    ensures var span := SelectSpan(Entries(mins, step, |mins|), range, |mins|);
            span.Ok? && (span.value.Includes(block)
                         <==> forall j :: 0 <= j < |mins| && j % step == 0 ==>
                                (range.from.Some? && mins[j] <= range.from.value ==> j <= block)
                                && (range.to.Some? && mins[j] >= range.to.value ==> block < j))
  {
    hide Entries, FirstSelected, EndSelected, EndEntry;
    var index := Entries(mins, step, |mins|);
    SelectionExact(mins, maxs, step, range);
    FirstSelectedIs(mins, maxs, step, range);
    EndIsFirst(mins, maxs, step, range);
    var first, end := FirstSelected(index, range), EndSelected(index, range, |mins|);
    SpanIs(mins, maxs, step, range, block);
    forall j | 0 <= j < |mins| && j % step == 0 && range.to.Some? && mins[j] >= range.to.value ensures end <= j {}
    if block < first { assert first % step == 0; }
    if end <= block { assert end % step == 0; }
  }

  lemma {:induction false} SpanIs(mins: seq<Key>, maxs: seq<Key>, step: nat, range: KeyRange, block: nat)
    requires step >= 1 && BlocksInOrder(mins, maxs) && block < |mins|
    ensures var index := Entries(mins, step, |mins|);
            var span := SelectSpan(index, range, |mins|);
            span.Ok? && (span.value.Includes(block)
                         <==> FirstSelected(index, range) <= block < EndSelected(index, range, |mins|))
  {
    hide Entries, FirstSelected, EndSelected;
    SelectionExact(mins, maxs, step, range);
  }

  /** With strictly ascending keys no block is lost. */
  lemma {:induction false} SelectionComplete(mins: seq<Key>, maxs: seq<Key>, step: nat, range: KeyRange)
    requires step >= 1 && BlocksDisjoint(mins, maxs)
    ensures var span := SelectSpan(Entries(mins, step, |mins|), range, |mins|);
            && span.Ok? && span.value.first + span.value.count <= |mins|
            && forall b :: 0 <= b < |mins| && Intersects(mins[b], maxs[b], range) ==> span.value.Includes(b)
  {
    SelectionExact(mins, maxs, step, range);
  }

  /** Two versions of one key, cut into two blocks: a lookup of the key never sees the first. */
  lemma {:induction false} DuplicateIsLost(key: Key, range: KeyRange)
    requires key < INT64_MAX && range == KeyRange(Some(key), Some(key + 1))
    ensures BlocksInOrder([key, key], [key, key]) && Intersects(key, key, range)
    ensures var span := SelectSpan(Entries([key, key], 1, 2), range, 2);
            span.Ok? && !span.value.Includes(0)
  {
    var keys := [key, key];
    SelectionExact(keys, keys, 1, range);
    assert SharesFrom(keys, keys, 1, range, 0) by {
      assert 1 % 1 == 0 && keys[1] == key;
    }
    assert Intersects(keys[0], keys[0], range);
  }
}
