/** The flush and compaction drain: what each round brings nearer, and when a cascade cannot settle. */
module Drain {
  import opened Seqs
  import opened Storage
  import opened Tables
  import opened TableBuilders
  import opened Registry
  import opened Merging
  import opened SortedMaps
  import opened Engine
  import opened Conservation
  import opened Snapshot

  // ---------- Thresholds without wrap-around ----------

  /** base * ratio^level. */
  function Unwrapped(config: Config, level: nat): nat {
    if level == 0 then config.base else Unwrapped(config, level - 1) * config.ratio
  }

  lemma {:induction false} UnwrappedGrows(config: Config, a: nat, b: nat)
    requires config.ratio >= 1 && a <= b
    ensures Unwrapped(config, a) <= Unwrapped(config, b)
    decreases b
  {
    if a < b {
      UnwrappedGrows(config, a, b - 1);
      TimesAtLeast(Unwrapped(config, b - 1), config.ratio);
    }
  }

  lemma {:induction false} TimesAtLeast(x: nat, k: nat)
    requires k >= 1
    ensures x <= x * k
  {
  }

  /** Up to a level whose threshold fits 64 bits, the computed thresholds are the true ones. */
  lemma {:induction false} ThresholdIs(config: Config, level: nat)
    requires Unwrapped(config, level) < U64_LIMIT
    ensures Threshold(config, level) == Unwrapped(config, level)
  {
    ThresholdWraps(config, level);
    FitsAsIs(Unwrapped(config, level));
  }

  lemma {:induction false} FitsAsIs(x: nat)
    requires x < U64_LIMIT
    ensures x % U64_LIMIT == x
  {
  }

  // ---------- Sizes ----------

  function LevelBytes(level: seq<TableInfo>): nat {
    if level == [] then 0 else LevelBytes(level[..|level| - 1]) + level[|level| - 1].fileSize
  }

  /** The 64-bit sum is the true one while that fits. */
  lemma {:induction false} TotalSizeIs(level: seq<TableInfo>)
    requires LevelBytes(level) < U64_LIMIT
    ensures TotalSize(level) == LevelBytes(level)
  {
    SizeWraps(level);
    FitsAsIs(LevelBytes(level));
  }

  // ---------- The policy in true numbers ----------

  lemma {:induction false} WrappedTimes(x: nat, wrapped: nat, k: nat)
    requires wrapped == x % U64_LIMIT
    ensures wrapped * k % U64_LIMIT == x * k % U64_LIMIT
  {
    var q := x / U64_LIMIT;
    assert x * k == (q * k) * U64_LIMIT + wrapped * k;
    WholeTurns(wrapped * k, q * k);
  }

  lemma {:induction false} WholeTurns(x: nat, turns: nat)
    ensures (turns * U64_LIMIT + x) % U64_LIMIT == x % U64_LIMIT
  {
  }

  lemma {:induction false} WrappedPlus(x: nat, wrapped: nat, y: nat)
    requires wrapped == x % U64_LIMIT
    ensures (wrapped + y) % U64_LIMIT == (x + y) % U64_LIMIT
  {
    WholeTurns(wrapped + y, x / U64_LIMIT);
  }

  /** The computed threshold of any level is the true one modulo 2^64. */
  lemma {:induction false} ThresholdWraps(config: Config, level: nat)
    ensures Threshold(config, level) == Unwrapped(config, level) % U64_LIMIT
  {
    if level > 0 {
      ThresholdWraps(config, level - 1);
      WrappedTimes(Unwrapped(config, level - 1), Threshold(config, level - 1), config.ratio);
    } else {
      FitsAsIs(config.base);
    }
  }

  /** So is the computed size of a level. */
  lemma {:induction false} SizeWraps(level: seq<TableInfo>)
    ensures TotalSize(level) == LevelBytes(level) % U64_LIMIT
  {
    if level != [] {
      var front := level[..|level| - 1];
      SizeWraps(front);
      WrappedPlus(LevelBytes(front), TotalSize(front), level[|level| - 1].fileSize);
    }
  }

  /** The bytes of a used level above 0 exceed its share, both modulo 2^64. */
  ghost predicate Exceeds(config: Config, levels: Levels, l: nat) {
    0 < l < |levels| && levels[l] != [] && LevelBytes(levels[l]) % U64_LIMIT > Unwrapped(config, l) % U64_LIMIT
  }

  lemma {:induction false} ExceedsIs(config: Config, levels: Levels, l: nat)
    ensures Exceeds(config, levels, l) <==> Oversized(config, levels, l)
  {
    if 0 < l < |levels| {
      ThresholdWraps(config, l);
      SizeWraps(levels[l]);
    }
  }

  /** The policy: level 0 by its count, else the lowest level that exceeds its share, else nothing. */
  lemma {:induction false} PickExact(config: Config, levels: Levels)
    ensures var count, task := if levels == [] then 0 else |levels[0]|, Pick(config, levels);
            && (task.None? <==> count < config.trigger && forall l: nat :: !Exceeds(config, levels, l))
            && (task.Some? ==>
                  && task.value.target == task.value.source + 1
                  && (task.value.layout == COLUMN <==> task.value.target >= config.rowToColumn)
                  && (task.value.source == 0 <==> count >= config.trigger)
                  && (task.value.source > 0 ==>
                        Exceeds(config, levels, task.value.source)
                        && forall l: nat :: l < task.value.source ==> !Exceeds(config, levels, l)))
  {
    hide Threshold, TotalSize, LevelBytes, Unwrapped;
    forall l: nat ensures Exceeds(config, levels, l) <==> Oversized(config, levels, l) { ExceedsIs(config, levels, l); }
  }

  /** What rows may cost on disk at most, row by row. */
  function Weight(rows: seq<Row>, cost: Row -> nat): nat {
    if rows == [] then 0 else cost(rows[0]) + Weight(rows[1..], cost)
  }

  lemma {:induction false} WeightConcat(a: seq<Row>, b: seq<Row>, cost: Row -> nat)
    ensures Weight(a + b, cost) == Weight(a, cost) + Weight(b, cost)
  {
    if a == [] {
      assert a + b == b;
    } else {
      WeightConcat(a[1..], b, cost);
      assert (a + b)[1..] == a[1..] + b;
    }
  }

  /** Part of the rows costs no more than all of them. */
  lemma {:induction false} WeightWithin(a: seq<Row>, b: seq<Row>, cost: Row -> nat)
    requires multiset(a) <= multiset(b)
    ensures Weight(a, cost) <= Weight(b, cost)
    decreases |a|
  {
    if a != [] {
      var i := FirstInside(a, b);
      WeightWithin(a[1..], b[..i] + b[i + 1..], cost);
      WeightTakeOut(b, i, cost);
    }
  }

  /** The first row of a part, found in the whole: without it, the rest is still a part. */
  lemma {:induction false} FirstInside<T>(a: seq<T>, b: seq<T>) returns (i: nat)
    requires a != [] && multiset(a) <= multiset(b)
    ensures i < |b| && b[i] == a[0] && multiset(a[1..]) <= multiset(b[..i] + b[i + 1..])
  {
    assert a[0] in multiset(a);
    assert a[0] in multiset(b);
    i :| 0 <= i < |b| && b[i] == a[0];
    var rest := b[..i] + b[i + 1..];
    TakeOut(a, 0);
    TakeOut(b, i);
    assert a[..0] + a[1..] == a[1..];
    LessOne(multiset(a[1..]), multiset(rest), a[0]);
  }

  lemma {:induction false} LessOne<T>(a: multiset<T>, b: multiset<T>, x: T)
    requires a + multiset{x} <= b + multiset{x}
    ensures a <= b
  {
    forall e ensures a[e] <= b[e] { assert (a + multiset{x})[e] <= (b + multiset{x})[e]; }
  }

  lemma {:induction false} WeightTakeOut(rows: seq<Row>, i: nat, cost: Row -> nat)
    requires i < |rows|
    ensures Weight(rows, cost) == Weight(rows[..i] + rows[i + 1..], cost) + cost(rows[i])
  {
    assert rows == rows[..i] + ([rows[i]] + rows[i + 1..]);
    WeightConcat(rows[..i], [rows[i]] + rows[i + 1..], cost);
    WeightConcat([rows[i]], rows[i + 1..], cost);
    WeightConcat(rows[..i], rows[i + 1..], cost);
    assert Weight([rows[i]], cost) == cost(rows[i]);
  }

  /** Every file is at most as large as its rows may cost. */
  ghost predicate Sized(c: Setup, s: State, cost: Row -> nat) {
    forall l, i {:trigger At(s.levels, l, i)} :: At(s.levels, l, i)
        ==> s.levels[l][i].fileSize <= Weight(RowsOf(c, s.disk, s.levels[l][i]), cost)
  }

  lemma {:induction false} LevelWithinWeight(c: Setup, disk: Disk, level: seq<TableInfo>, cost: Row -> nat)
    requires forall i :: 0 <= i < |level| ==> level[i].fileSize <= Weight(RowsOf(c, disk, level[i]), cost)
    ensures LevelBytes(level) <= Weight(Flatten(RowsOfAll(c, disk, level)), cost)
  {
    hide RowsOf;
    if level != [] {
      var front, last := level[..|level| - 1], level[|level| - 1];
      LevelWithinWeight(c, disk, front, cost);
      assert RowsOfAll(c, disk, level) == RowsOfAll(c, disk, front) + [RowsOf(c, disk, last)];
      FlattenSnoc(RowsOfAll(c, disk, front), RowsOf(c, disk, last));
      WeightConcat(Flatten(RowsOfAll(c, disk, front)), RowsOf(c, disk, last), cost);
    }
  }

  lemma {:induction false} LevelWithinVersions(c: Setup, disk: Disk, levels: Levels, l: nat)
    requires l < |levels|
    ensures LevelVersions(c, disk, levels[l]) <= TableVersions(c, disk, levels)
  {
    hide LevelVersions;
    if l < |levels| - 1 { LevelWithinVersions(c, disk, levels[..|levels| - 1], l); }
  }

  /** The bytes of one level are at most what all rows of the tree may cost. */
  lemma {:induction false} LevelCost(c: Setup, s: State, l: nat, cost: Row -> nat)
    requires l < |s.levels| && Sized(c, s, cost)
    ensures LevelBytes(s.levels[l]) <= Weight(Flatten(Sources(c, s)), cost)
  {
    hide RowsOf, RowsOfAll, Flatten, Weight, LevelBytes, TableVersions, Enumerate;
    var level := s.levels[l];
    forall i | 0 <= i < |level|
      ensures level[i].fileSize <= Weight(RowsOf(c, s.disk, level[i]), cost)
    {
      assert At(s.levels, l, i);
    }
    LevelWithinWeight(c, s.disk, level, cost);
    LevelWithinVersions(c, s.disk, s.levels, l);
    SourcesAreVersions(c, s);
    WeightWithin(Flatten(RowsOfAll(c, s.disk, level)), Flatten(Sources(c, s)), cost);
  }

  // ---------- Distances ----------

  function Below(top: nat, level: nat): nat { if level < top then top - level else 0 }

  /** How many levels the tables still lie below `top`, all together. */
  function Distance(top: nat, levels: Levels): nat {
    if levels == [] then 0
    else Distance(top, levels[..|levels| - 1]) + |levels[|levels| - 1]| * Below(top, |levels| - 1)
  }

  lemma {:induction false} DistanceOfUpdate(top: nat, levels: Levels, l: nat, level: seq<TableInfo>)
    requires l < |levels|
    ensures Distance(top, levels[l := level]) + |levels[l]| * Below(top, l)
            == Distance(top, levels) + |level| * Below(top, l)
    decreases |levels|
  {
    var n := |levels| - 1;
    if l == n {
      assert levels[l := level][..n] == levels[..n];
    } else {
      DistanceOfUpdate(top, levels[..n], l, level);
      assert levels[l := level][..n] == levels[..n][l := level];
    }
  }

  lemma {:induction false} DistanceOfResize(top: nat, levels: Levels, n: nat)
    ensures Distance(top, Resize(levels, n)) == Distance(top, levels)
    decreases n
  {
    if |levels| < n {
      DistanceOfResize(top, levels, n - 1);
      assert Resize(levels, n)[..n - 1] == Resize(levels, n - 1);
    }
  }

  lemma {:induction false} DistanceOfAdd(top: nat, levels: Levels, info: TableInfo)
    ensures Distance(top, AddTo(levels, info)) == Distance(top, levels) + Below(top, info.level)
  {
    var room := Resize(levels, info.level + 1);
    DistanceOfResize(top, levels, info.level + 1);
    DistanceOfUpdate(top, room, info.level, room[info.level] + [info]);
    MulSum(|room[info.level]|, 1, Below(top, info.level));
  }

  // ---------- The drain settles ----------

  /** Level `top` can take everything: its threshold fits 64 bits and is not below what all rows may cost. */
  ghost predicate Roomy(c: Setup, s: State, cost: Row -> nat, top: nat) {
    && c.config.ratio >= 1 && top >= 1
    && Sized(c, s, cost) && Weight(Flatten(Sources(c, s)), cost) <= Unwrapped(c.config, top) < U64_LIMIT
    && |s.levels| <= top + 1
  }

  /** Rounds that the drain has at most before it: a flush costs a queue entry and adds a table on level 0. */
  function Work(s: State, top: nat): nat { |s.frozen| * (top + 1) + Distance(top, s.levels) }

  /** A compaction with candidates is picked only below the roomy level. */
  lemma {:induction false} PickedBelow(c: Setup, s: State, cost: Row -> nat, top: nat)
    requires Roomy(c, s, cost, top) && Enabled(c, s, BeginCompact)
    ensures Pick(c.config, s.levels).value.source < top
  {
    hide Sources, Weight, Flatten, Sized, Unwrapped;
    var source := Pick(c.config, s.levels).value.source;
    if source > 0 {
      LevelCost(c, s, source, cost);
      TotalSizeIs(s.levels[source]);
      ThresholdIs(c.config, top);
      assert source != top;
    }
  }

  /** One round of the drain without an insert in between: a whole flush, or a whole compaction. */
  ghost predicate FlushRound(c: Setup, s: State, t: State, flush: Step, cost: Row -> nat) {
    && flush.EndFlush? && Enabled(c, s, BeginFlush) && Enabled(c, Apply(c, s, BeginFlush), flush)
    && t == Apply(c, Apply(c, s, BeginFlush), flush)
    && flush.size <= Weight(s.frozen[0], cost)
  }

  ghost predicate CompactRound(c: Setup, s: State, t: State, compact: Step, cost: Row -> nat) {
    && compact.EndCompact? && Enabled(c, s, BeginCompact) && Enabled(c, Apply(c, s, BeginCompact), compact)
    && t == Apply(c, Apply(c, s, BeginCompact), compact)
    && compact.size <= Weight(Merge(RowsOfAll(c, s.disk, s.levels[Pick(c.config, s.levels).value.source])), cost)
  }

  /** Conserved rows cost the same. */
  lemma {:induction false} SameWeight(c: Setup, s: State, t: State, cost: Row -> nat)
    requires Versions(c, s) == Versions(c, t)
    ensures Weight(Flatten(Sources(c, s)), cost) == Weight(Flatten(Sources(c, t)), cost)
  {
    hide Sources, Flatten, Versions, Weight;
    SourcesAreVersions(c, s);
    SourcesAreVersions(c, t);
    WeightWithin(Flatten(Sources(c, s)), Flatten(Sources(c, t)), cost);
    WeightWithin(Flatten(Sources(c, t)), Flatten(Sources(c, s)), cost);
  }

  lemma {:induction false} AddSize(levels: Levels, info: TableInfo)
    ensures |AddTo(levels, info)| == if |levels| < info.level + 1 then info.level + 1 else |levels|
  {
  }

  /** A new table within its cost keeps the tree sized. */
  lemma {:induction false} AddSized(c: Setup, s: State, info: TableInfo, file: TableFile, t: State, cost: Row -> nat)
    requires Sized(c, s, cost) && FreshId(s, info.id) && info.fileSize <= Weight(TableRows(file, c.schema), cost)
    requires t.levels == AddTo(s.levels, info) && t.disk == s.disk[info.id := file]
    ensures Sized(c, t, cost)
  {
    hide AddTo, TableRows, Weight;
    AddPositions(s.levels, info);
    forall l, i | At(t.levels, l, i)
      ensures t.levels[l][i].fileSize <= Weight(RowsOf(c, t.disk, t.levels[l][i]), cost)
    {
      if At(s.levels, l, i) {
        assert s.levels[l][i].fileSize <= Weight(RowsOf(c, s.disk, s.levels[l][i]), cost);
      }
    }
  }

  lemma {:induction false} RoundVersions(c: Setup, s: State, begin: Step, end: Step)
    requires Inv(c, s) && !begin.Insert? && !end.Insert? && Enabled(c, s, begin) && Enabled(c, Apply(c, s, begin), end)
    ensures Inv(c, Apply(c, s, begin)) && Versions(c, Apply(c, Apply(c, s, begin), end)) == Versions(c, s)
  {
    hide Inv, Versions, Apply, Enabled;
    StepKeeps(c, s, begin);
    StepVersions(c, s, begin);
    StepVersions(c, Apply(c, s, begin), end);
  }

  lemma {:induction false} FlushSized(c: Setup, s: State, t: State, flush: Step, cost: Row -> nat)
    requires Inv(c, s) && FlushRound(c, s, t, flush, cost) && Sized(c, s, cost)
    ensures Sized(c, t, cost) && t.frozen == s.frozen[1..]
    ensures exists info: TableInfo :: info.level == 0 && t.levels == AddTo(s.levels, info)
  {
    hide TablesOk, AddTo, IsTable, TableRows, Weight, Sized, Pick;
    var info := InfoOf(s.nextId, 0, flush.result, flush.path, flush.size);
    BeginFlushKeeps(c, s);
    TableRowsIs(flush.result.file, c.schema, s.frozen[0]);
    NextIdIsFresh(c, s);
    var u := Apply(c, s, BeginFlush);
    SizedAlone(c, s, u, cost);
    AddSized(c, u, info, flush.result.file, t, cost);
    assert t.levels == AddTo(s.levels, info);
  }

  lemma {:induction false} SizedAlone(c: Setup, s: State, t: State, cost: Row -> nat)
    requires Sized(c, s, cost) && s.levels == t.levels && s.disk == t.disk
    ensures Sized(c, t, cost)
  {
    hide RowsOf, Weight;
  }

  lemma {:induction false} FlushBringsNearer(c: Setup, s: State, t: State, flush: Step, cost: Row -> nat, top: nat)
    requires Inv(c, s) && FlushRound(c, s, t, flush, cost) && Roomy(c, s, cost, top)
    ensures Work(t, top) < Work(s, top) && Roomy(c, t, cost, top)
  {
    hide Inv, Distance, AddTo, Unwrapped, Pick, Apply, Sources, Flatten, Weight, Sized, Versions;
    FlushSized(c, s, t, flush, cost);
    var info: TableInfo :| info.level == 0 && t.levels == AddTo(s.levels, info);
    DistanceOfAdd(top, s.levels, info);
    AddSize(s.levels, info);
    MulSum(|s.frozen| - 1, 1, top + 1);
    RoundVersions(c, s, BeginFlush, flush);
    SameWeight(c, s, t, cost);
  }

  lemma {:induction false} CompactLevels(c: Setup, s: State, t: State, compact: Step, cost: Row -> nat)
    requires Inv(c, s) && CompactRound(c, s, t, compact, cost)
    ensures Pick(c.config, s.levels).Some? && s.frozen == [] && t.frozen == []
    ensures var task := Pick(c.config, s.levels).value;
            && task.target == task.source + 1 < U32_LIMIT && compact.result.file.numBlocks < U32_LIMIT
            && t.levels == AddTo(s.levels, InfoOf(s.nextId, task.target, compact.result, compact.path,
                                                  compact.size))[task.source := []]
  {
    hide Inv, Pick, AddTo, RemoveAll, IsTable, TableRows;
    BeginCompactKeeps(c, s);
    EndCompactKeeps(c, Apply(c, s, BeginCompact), compact);
    PickIsNext(c, s.levels);
  }

  lemma {:induction false} PickIsNext(c: Setup, levels: Levels)
    requires Pick(c.config, levels).Some?
    ensures Pick(c.config, levels).value.target == Pick(c.config, levels).value.source + 1
  {
  }

  /** Emptying the source level forgets nothing that is still registered. */
  lemma {:induction false} DropSized(c: Setup, u: State, source: nat, gone: set<U64>, t: State, cost: Row -> nat)
    requires Sized(c, u, cost) && source < |u.levels| && t.levels == u.levels[source := []] && t.disk == u.disk - gone
    requires forall l, i {:trigger At(u.levels, l, i)} ::
               At(u.levels, l, i) && l != source ==> u.levels[l][i].id !in gone
    ensures Sized(c, t, cost)
  {
    hide TableRows, Weight;
    forall l, i | At(t.levels, l, i)
      ensures t.levels[l][i].fileSize <= Weight(RowsOf(c, t.disk, t.levels[l][i]), cost)
    {
      assert l != source && At(u.levels, l, i);
      assert u.levels[l][i].fileSize <= Weight(RowsOf(c, u.disk, u.levels[l][i]), cost);
    }
  }

  lemma {:induction false} CompactSized(c: Setup, s: State, t: State, compact: Step, cost: Row -> nat)
    requires Inv(c, s) && CompactRound(c, s, t, compact, cost) && Sized(c, s, cost)
    ensures Sized(c, t, cost)
  {
    hide TablesOk, MemoryOk, AddTo, RemoveAll, IsTable, TableRows, Weight, Sized, Pick, Merge, RowsFit;
    var task := Pick(c.config, s.levels).value;
    var info := InfoOf(s.nextId, task.target, compact.result, compact.path, compact.size);
    CompactLevels(c, s, t, compact, cost);
    var children := RowsOfAll(c, s.disk, s.levels[task.source]);
    CandidatesAscending(c, s, task.source);
    MergeFits(children, c.schema);
    TableRowsIs(compact.result.file, c.schema, Merge(children));
    NextIdIsFresh(c, s);
    DistinctAre(c, s);
    var v := Apply(c, s, BeginCompact);
    SizedAlone(c, s, v, cost);
    var u := v.(levels := AddTo(s.levels, info), disk := s.disk[info.id := compact.result.file]);
    AddSized(c, v, info, compact.result.file, u, cost);
    SourceUntouched(s.levels, task.source, info);
    forall l, i | At(u.levels, l, i) && l != task.source ensures u.levels[l][i].id !in IdsOf(s.levels[task.source]) {
      OtherLevel(s.levels, task.source, info, l, i);
    }
    DropSized(c, u, task.source, IdsOf(s.levels[task.source]), t, cost);
  }

  /** Tables move up one level; where several move, all but one disappear. */
  lemma {:induction false} MovingUp(levels: Levels, source: nat, info: TableInfo, top: nat)
    requires source < |levels| && source < top && levels[source] != [] && info.level == source + 1
    ensures var after := AddTo(levels, info);
            && source < |after|
            && Distance(top, after[source := []]) < Distance(top, levels)
            && |after| == if |levels| < source + 2 then source + 2 else |levels|
  {
    hide Distance, AddTo;
    SourceUntouched(levels, source, info);
    AddSize(levels, info);
    DistanceOfAdd(top, levels, info);
    DistanceOfUpdate(top, AddTo(levels, info), source, []);
    TimesAtLeast(top - source, |levels[source]|);
  }

  lemma {:induction false} CompactBringsNearer(c: Setup, s: State, t: State, compact: Step, cost: Row -> nat, top: nat)
    requires Inv(c, s) && CompactRound(c, s, t, compact, cost) && Roomy(c, s, cost, top)
    ensures Work(t, top) < Work(s, top) && Roomy(c, t, cost, top)
  {
    hide Inv, Distance, AddTo, Unwrapped, IsTable, Pick, Apply, Sources, Flatten, Weight, Sized, Versions, Merge;
    assert Enabled(c, s, BeginCompact);
    var task := Pick(c.config, s.levels).value;
    CompactLevels(c, s, t, compact, cost);
    CompactSized(c, s, t, compact, cost);
    PickedBelow(c, s, cost, top);
    MovingUp(s.levels, task.source, InfoOf(s.nextId, task.target, compact.result, compact.path, compact.size), top);
    RoundVersions(c, s, BeginCompact, compact);
    SameWeight(c, s, t, cost);
  }

  ghost predicate Pending(c: Setup, s: State) { s.frozen != [] || Pick(c.config, s.levels).Some? }

  /** A trigger of 0 makes the policy pick level 0 even when nothing is there. */
  ghost predicate Stuck(c: Setup, s: State) {
    s.frozen == [] && c.config.trigger == 0 && (s.levels == [] || s.levels[0] == [])
  }

  /** While work is pending a round can start, exactly unless the drain is stuck on an empty level 0. */
  lemma {:induction false} PendingCanStart(c: Setup, s: State)
    requires Inv(c, s) && s.phase.Idle? && s.nextId + 1 < U64_LIMIT
    ensures Enabled(c, s, BeginFlush) || Enabled(c, s, BeginCompact) <==> Pending(c, s) && !Stuck(c, s)
    ensures Stuck(c, s) ==> Pending(c, s)
  {
    hide TablesOk;
    if s.frozen != [] {
      NeverEmpty(c, s);
    } else if Pick(c.config, s.levels).Some? {
      PickedLevel(c, s.levels);
    }
  }

  /** The policy picks a level with tables on it, or level 0 under a trigger of 0. */
  lemma {:induction false} PickedLevel(c: Setup, levels: Levels)
    requires Pick(c.config, levels).Some?
    ensures var source := Pick(c.config, levels).value.source;
            && (source < |levels| && levels[source] != []
                <==> !(c.config.trigger == 0 && (levels == [] || levels[0] == [])))
            && (source >= |levels| ==> source == 0 && levels == [])
  {
  }

  /** A tree that was just opened with a trigger of 0: work is pending, and no round can ever start. */
  lemma {:induction false} StuckFromTheStart(c: Setup)
    requires c.config.trigger == 0
    ensures Legal(c, []) && Run(c, []) == EMPTY && Pending(c, EMPTY) && Stuck(c, EMPTY)
    ensures !Enabled(c, EMPTY, BeginFlush) && !Enabled(c, EMPTY, BeginCompact)
  {
    EmptyTree(c);
    PendingCanStart(c, EMPTY);
  }

  /** For ratio 2 or more, a roomy level exists unless the bytes come within a factor of the 64-bit range. */
  lemma {:induction false} RoomExists(config: Config, bytes: nat, height: nat) returns (top: nat)
    requires config.ratio >= 2 && config.base >= 1
    requires bytes * config.ratio < U64_LIMIT && Unwrapped(config, height) < U64_LIMIT && height >= 1
    ensures top >= height && bytes <= Unwrapped(config, top) < U64_LIMIT
  {
    top := height;
    UnwrappedGrows(config, 0, top);
    while Unwrapped(config, top) < bytes
      invariant top >= height && 1 <= Unwrapped(config, top) < U64_LIMIT
      decreases bytes - Unwrapped(config, top)
    {
      Doubles(Unwrapped(config, top), config.ratio);
      LessTimes(Unwrapped(config, top), bytes, config.ratio);
      top := top + 1;
    }
  }

  lemma {:induction false} Doubles(x: nat, k: nat)
    requires x >= 1 && k >= 2
    ensures x < x * k
  {
  }

  lemma {:induction false} LessTimes(x: nat, y: nat, k: nat)
    requires x < y
    ensures x * k <= y * k
  {
    MulSum(x, y - x, k);
  }

  // ---------- When a cascade cannot settle ----------

  /** A tree with one table, on this level. */
  function Alone(info: TableInfo, level: nat): Levels {
    seq(level + 1, i requires 0 <= i <= level => if i == level then [info] else [])
  }

  lemma {:induction false} AlonePicks(config: Config, info: TableInfo, level: nat)
    requires level >= 1
    ensures config.trigger == 0 ==> Pick(config, Alone(info, level)) == Some(Task(0, 1, LayoutOf(config, 1)))
    ensures config.trigger >= 1 && info.fileSize > Threshold(config, level)
            ==> Pick(config, Alone(info, level)) == Some(Task(level, level + 1, LayoutOf(config, level + 1)))
    ensures config.trigger >= 1 && info.fileSize <= Threshold(config, level) ==> Pick(config, Alone(info, level)).None?
  {
    var levels := Alone(info, level);
    assert levels[level] == [info] && [info][..0] == [];
    assert TotalSize([info]) == info.fileSize;
    assert forall k :: 1 <= k < |levels| && k != level ==> !Oversized(config, levels, k);
    assert Oversized(config, levels, level) <==> info.fileSize > Threshold(config, level);
  }

  /** One round of the drain that compacts, and writes a table of this size. */
  ghost predicate Moved(c: Setup, s: State, t: State, size: U64) {
    exists compact: Step ::
      && compact.EndCompact? && compact.size == size
      && Enabled(c, s, BeginCompact) && Enabled(c, Apply(c, s, BeginCompact), compact)
      && t == Apply(c, Apply(c, s, BeginCompact), compact)
  }

  /** That many such rounds, one after the other. */
  ghost predicate Cascade(c: Setup, s: State, t: State, size: U64, rounds: nat)
    decreases rounds
  {
    if rounds == 0 then s == t else exists u :: Moved(c, s, u, size) && Cascade(c, u, t, size, rounds - 1)
  }

  /** An idle tree whose rows all lie in one table of this size, on this level, besides those in the active memtable. */
  ghost predicate IsAlone(c: Setup, s: State, level: nat, size: U64) {
    && Inv(c, s) && s.phase.Idle? && s.frozen == []
    && exists info: TableInfo :: info.fileSize == size && s.levels == Alone(info, level)
  }

  /** Any rows can be written as a table of one block. */
  lemma {:induction false} CanBeBuilt(layout: Layout, schema: Schema, rows: seq<Row>) returns (result: BuildResult)
    requires rows != []
    ensures Built(result, layout, schema, rows) && result.file.numBlocks == 1
  {
    hide StatsOfBlocks, RowPieces, RowMetas, ColumnPieces, ColumnGroups, Mins;
    var blocks: seq<Block> := [rows];
    assert Flatten(blocks) == rows + Flatten([]);
    assert AllRows(blocks) == rows;
    result := BuildResult(FileOf(layout, schema, blocks, 1), rows[0].key, rows[|rows| - 1].key);
    assert IsTable(result.file, schema, rows);
  }

  lemma {:induction false} CandidateRows(c: Setup, s: State, source: nat)
    requires TablesOk(c, s) && source < |s.levels| && s.levels[source] != []
    ensures Merge(RowsOfAll(c, s.disk, s.levels[source])) != []
  {
    hide Merge, TableRows, Flatten, IsTable;
    var children := RowsOfAll(c, s.disk, s.levels[source]);
    assert At(s.levels, source, 0);
    assert children[0] != [];
    FirstIn(children[0]);
    InMerge(children, children[0][0]);
  }

  /** Where the policy picks a level with tables, a round can be run, whatever size the files come out. */
  lemma {:induction false} CanMove(c: Setup, s: State, size: U64) returns (t: State)
    requires Inv(c, s) && Enabled(c, s, BeginCompact) && Pick(c.config, s.levels).value.target < U32_LIMIT
    ensures Moved(c, s, t, size)
  {
    hide MemoryOk, Pick, Merge, Built, AddTo, RemoveAll, InfoOk;
    var u := Apply(c, s, BeginCompact);
    CandidateRows(c, s, u.phase.task.source);
    var result := CanBeBuilt(u.phase.task.layout, c.schema, Merge(RowsOfAll(c, u.disk, u.phase.candidates)));
    var compact := EndCompact(result, [], size);
    t := Apply(c, u, compact);
  }

  /** A lone table that is too large for its level moves up, and leaves nothing behind. */
  lemma {:induction false} MovesUp(c: Setup, s: State, t: State, level: nat, size: U64, next: U64)
    requires IsAlone(c, s, level, size) && level >= 1 && Moved(c, s, t, next)
    ensures IsAlone(c, t, level + 1, next) && t.nextId == s.nextId + 1
    ensures c.config.trigger >= 1 && size > Threshold(c.config, level)
  {
    hide Inv, Pick, AddTo, RemoveAll, IsTable, TableRows, Alone, Threshold, Built, Merge;
    var compact: Step :|
      && compact.EndCompact? && compact.size == next
      && Enabled(c, s, BeginCompact) && Enabled(c, Apply(c, s, BeginCompact), compact)
      && t == Apply(c, Apply(c, s, BeginCompact), compact);
    AloneCanMove(c, s, level, size);
    var info: TableInfo :| info.fileSize == size && s.levels == Alone(info, level);
    AlonePicks(c.config, info, level);
    BeginCompactKeeps(c, s);
    EndCompactKeeps(c, Apply(c, s, BeginCompact), compact);
    var moved := InfoOf(s.nextId, level + 1, compact.result, compact.path, next);
    AloneMoves(info, moved, level);
    assert t.levels == Alone(moved, level + 1);
  }

  lemma {:induction false} AloneMoves(info: TableInfo, moved: TableInfo, level: nat)
    requires moved.level == level + 1
    ensures level < |AddTo(Alone(info, level), moved)|
    ensures AddTo(Alone(info, level), moved)[level := []] == Alone(moved, level + 1)
  {
    var levels: Levels := Alone(info, level);
    var room: Levels := Resize(levels, level + 2);
    assert room[level + 1] + [moved] == [moved];
    assert AddTo(levels, moved) == room[level + 1 := [moved]];
  }

  /** A lone table can move exactly when it is larger than its level's threshold. */
  lemma {:induction false} AloneCanMove(c: Setup, s: State, level: nat, size: U64)
    requires IsAlone(c, s, level, size) && level >= 1 && s.nextId + 1 < U64_LIMIT
    ensures Enabled(c, s, BeginCompact) <==> c.config.trigger >= 1 && size > Threshold(c.config, level)
    ensures Enabled(c, s, BeginCompact) ==> Pick(c.config, s.levels).value.target == level + 1
  {
    hide Inv, Threshold;
    var info: TableInfo :| info.fileSize == size && s.levels == Alone(info, level);
    AlonePicks(c.config, info, level);
  }

  /** Where a cascade stands after some rounds. */
  lemma {:induction false} CascadeStands(c: Setup, s: State, t: State, level: nat, size: U64, rounds: nat)
    requires IsAlone(c, s, level, size) && level >= 1 && Cascade(c, s, t, size, rounds)
    ensures IsAlone(c, t, level + rounds, size) && t.nextId == s.nextId + rounds
    ensures rounds > 0 ==> c.config.trigger >= 1
    ensures NoRoom(c.config, size, level, rounds)
    decreases rounds
  {
    hide IsAlone, Moved, Threshold;
    if rounds > 0 {
      var u :| Moved(c, s, u, size) && Cascade(c, u, t, size, rounds - 1);
      MovesUp(c, s, u, level, size, size);
      CascadeStands(c, u, t, level + 1, size, rounds - 1);
    }
  }

  /** No threshold on these levels is at least the size. */
  ghost predicate NoRoom(config: Config, size: U64, level: nat, rounds: nat) {
    forall l :: level <= l < level + rounds ==> size > Threshold(config, l)
  }

  lemma {:induction false} CascadeRuns(c: Setup, s: State, level: nat, size: U64, rounds: nat) returns (t: State)
    requires IsAlone(c, s, level, size) && level >= 1 && level + rounds < U32_LIMIT && s.nextId + rounds + 1 < U64_LIMIT
    requires c.config.trigger >= 1 && NoRoom(c.config, size, level, rounds)
    ensures Cascade(c, s, t, size, rounds)
    decreases rounds
  {
    hide IsAlone, Moved, Threshold, Pick, Apply;
    if rounds == 0 {
      t := s;
    } else {
      assert size > Threshold(c.config, level);
      AloneCanMove(c, s, level, size);
      assert Inv(c, s) by { AloneIsTree(c, s, level, size); }
      var u := CanMove(c, s, size);
      MovesUp(c, s, u, level, size, size);
      t := CascadeRuns(c, u, level + 1, size, rounds - 1);
    }
  }

  lemma {:induction false} AloneIsTree(c: Setup, s: State, level: nat, size: U64)
    requires IsAlone(c, s, level, size)
    ensures Inv(c, s) && s.phase.Idle? && s.frozen == []
  {
  }

  /**
   The drain moves a lone table of constant size through that many rounds exactly when none of the
   thresholds on its way is at least its size: it settles exactly at the first that is.
   */
  lemma {:induction false} CascadeSettles(c: Setup, s: State, level: nat, size: U64, rounds: nat)
    requires IsAlone(c, s, level, size) && level >= 1 && level + rounds < U32_LIMIT && s.nextId + rounds + 1 < U64_LIMIT
    ensures (exists t :: Cascade(c, s, t, size, rounds))
            <==> rounds == 0 || (c.config.trigger >= 1 && NoRoom(c.config, size, level, rounds))
    ensures forall t :: Cascade(c, s, t, size, rounds) ==>
              (Enabled(c, t, BeginCompact) <==> c.config.trigger >= 1 && size > Threshold(c.config, level + rounds))
  {
    hide IsAlone, Threshold, Enabled, Moved, Cascade, NoRoom;
    if rounds == 0 {
      CascadeOfNone(c, s, size);
    } else if c.config.trigger >= 1 && NoRoom(c.config, size, level, rounds) {
      var t := CascadeRuns(c, s, level, size, rounds);
    }
    if exists t :: Cascade(c, s, t, size, rounds) {
      var t :| Cascade(c, s, t, size, rounds);
      CascadeStands(c, s, t, level, size, rounds);
    }
    forall t | Cascade(c, s, t, size, rounds)
      ensures Enabled(c, t, BeginCompact) <==> c.config.trigger >= 1 && size > Threshold(c.config, level + rounds)
    {
      CascadeStands(c, s, t, level, size, rounds);
      AloneCanMove(c, t, level + rounds, size);
    }
  }

  lemma {:induction false} CascadeOfNone(c: Setup, s: State, size: U64)
    ensures Cascade(c, s, s, size, 0)
  {
  }

  /** However many rounds have been run, work is still pending. */
  ghost predicate NeverSettles(c: Setup, s: State, size: U64, rounds: nat) {
    && (exists t :: Cascade(c, s, t, size, rounds))
    && forall t :: Cascade(c, s, t, size, rounds) ==> Pending(c, t) && Enabled(c, t, BeginCompact)
  }

  lemma {:induction false} NoRoomNeverSettles(c: Setup, s: State, level: nat, size: U64, rounds: nat)
    requires IsAlone(c, s, level, size) && level >= 1 && level + rounds < U32_LIMIT && s.nextId + rounds + 1 < U64_LIMIT
    requires c.config.trigger >= 1 && NoRoom(c.config, size, level, rounds + 1)
    ensures NeverSettles(c, s, size, rounds)
  {
    hide IsAlone, Threshold, Pick;
    CascadeSettles(c, s, level, size, rounds);
  }

  lemma {:induction false} FlatThreshold(config: Config, level: nat)
    requires config.ratio == 1
    ensures Threshold(config, level) == config.base
  {
    if level > 0 { FlatThreshold(config, level - 1); }
  }

  /** With ratio 1, a table larger than the base moves up for ever. */
  lemma {:induction false} FlatNeverSettles(c: Setup, s: State, level: nat, size: U64, rounds: nat)
    requires IsAlone(c, s, level, size) && level >= 1 && level + rounds < U32_LIMIT && s.nextId + rounds + 1 < U64_LIMIT
    requires c.config.trigger >= 1 && c.config.ratio == 1 && size > c.config.base
    ensures NeverSettles(c, s, size, rounds)
  {
    hide IsAlone, NeverSettles;
    forall l | level <= l < level + rounds + 1 ensures size > Threshold(c.config, l) { FlatThreshold(c.config, l); }
    NoRoomNeverSettles(c, s, level, size, rounds);
  }

  lemma {:induction false} WrappedThreshold(config: Config, level: nat)
    requires config.ratio == 0x1_0000_0000 && level >= 2
    ensures Threshold(config, level) == 0
  {
    if level > 2 {
      WrappedThreshold(config, level - 1);
    } else {
      ThresholdWraps(config, 2);
      assert Unwrapped(config, 2) == Unwrapped(config, 1) * config.ratio == config.base * config.ratio * config.ratio;
      WholeTurns(0, config.base);
    }
  }

  /** Wrap-around has the same effect: with ratio 2^32 every threshold from level 2 on is zero, whatever the base. */
  lemma {:induction false} WrappedNeverSettles(c: Setup, s: State, level: nat, size: U64, rounds: nat)
    requires IsAlone(c, s, level, size) && level >= 2 && level + rounds < U32_LIMIT && s.nextId + rounds + 1 < U64_LIMIT
    requires c.config.trigger >= 1 && c.config.ratio == 0x1_0000_0000 && size > 0
    ensures NeverSettles(c, s, size, rounds)
  {
    hide IsAlone, NeverSettles;
    forall l | level <= l < level + rounds + 1 ensures size > Threshold(c.config, l) { WrappedThreshold(c.config, l); }
    NoRoomNeverSettles(c, s, level, size, rounds);
  }

  // ---------- Such runs exist ----------

  lemma {:induction false} Extended(c: Setup, steps: seq<Step>, step: Step)
    requires Legal(c, steps) && Enabled(c, Run(c, steps), step)
    ensures Legal(c, steps + [step]) && Run(c, steps + [step]) == Apply(c, Run(c, steps), step)
  {
    hide Enabled, Apply;
    assert (steps + [step])[..|steps|] == steps;
  }

  /** A cascade is a run of the machine, two steps for each round, with no insert in it. */
  lemma {:induction false} CascadeIsRun(c: Setup, steps: seq<Step>, t: State, size: U64, rounds: nat)
    returns (run: seq<Step>)
    requires Legal(c, steps) && Cascade(c, Run(c, steps), t, size, rounds)
    ensures steps <= run && Legal(c, run) && Run(c, run) == t && |run| == |steps| + 2 * rounds
    ensures forall i :: |steps| <= i < |run| ==> !run[i].Insert?
    decreases rounds
  {
    hide Legal, Run, Enabled, Apply;
    if rounds == 0 {
      run := steps;
    } else {
      var s := Run(c, steps);
      var u :| Moved(c, s, u, size) && Cascade(c, u, t, size, rounds - 1);
      var compact: Step :|
        && compact.EndCompact? && compact.size == size
        && Enabled(c, s, BeginCompact) && Enabled(c, Apply(c, s, BeginCompact), compact)
        && u == Apply(c, Apply(c, s, BeginCompact), compact);
      Extended(c, steps, BeginCompact);
      Extended(c, steps + [BeginCompact], compact);
      run := CascadeIsRun(c, steps + [BeginCompact] + [compact], t, size, rounds - 1);
    }
  }

  lemma {:induction false} NothingRun(c: Setup)
    ensures Legal(c, []) && Run(c, []) == EMPTY
  {
  }

  /** A lone table on level 0 reaches a trigger of one table. */
  lemma {:induction false} FirstPick(config: Config, info: TableInfo)
    requires config.trigger == 1
    ensures Pick(config, Alone(info, 0)) == Some(Task(0, 1, LayoutOf(config, 1)))
  {
  }

  /** A round moves a lone table up from the level that is picked, and leaves nothing behind. */
  lemma {:induction false} RoundMovesUp(c: Setup, s: State, compact: Step, level: nat, size: U64)
    requires IsAlone(c, s, level, size) && Enabled(c, s, BeginCompact) && Pick(c.config, s.levels).value.source == level
    requires compact.EndCompact? && Enabled(c, Apply(c, s, BeginCompact), compact)
    ensures var t := Apply(c, Apply(c, s, BeginCompact), compact);
            IsAlone(c, t, level + 1, compact.size) && t.nextId == s.nextId + 1
  {
    hide Inv, AddTo, RemoveAll, IsTable, TableRows, Alone, Threshold, Built, Merge, Pick;
    var t := Apply(c, Apply(c, s, BeginCompact), compact);
    assert Inv(c, s);
    PicksUp(c.config, s.levels);
    BeginCompactKeeps(c, s);
    EndCompactKeeps(c, Apply(c, s, BeginCompact), compact);
    var info: TableInfo :| info.fileSize == size && s.levels == Alone(info, level);
    var moved := InfoOf(s.nextId, level + 1, compact.result, compact.path, compact.size);
    AloneMoves(info, moved, level);
    assert t.levels == Alone(moved, level + 1);
  }

  lemma {:induction false} PicksUp(config: Config, levels: Levels)
    requires Pick(config, levels).Some?
    ensures var task := Pick(config, levels).value; task.target == task.source + 1
  {
  }
}
