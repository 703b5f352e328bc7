/** The registry of the tables of a tree, level by level, and the policy that picks compactions. */
module Registry {
  import opened Seqs
  import opened Storage
  import opened Codec
  import opened SparseIndex
  import opened Tables

  datatype TableInfo =
    TableInfo(id: U64, path: Bytes, level: U32, minKey: Key, maxKey: Key, fileSize: U64, numBlocks: U32, layout: Byte)

  /** The layout of a table as its entry records it; a loaded entry may hold any byte. */
  function LayoutByte(layout: Layout): Byte { if layout.ROW? then 0 else 1 }

  type Levels = seq<seq<TableInfo>>

  // ---------- What the operations do to the levels ----------

  function Resize(levels: Levels, n: nat): (r: Levels)
    ensures |r| == if |levels| < n then n else |levels|
    ensures forall i :: 0 <= i < |r| ==> r[i] == if i < |levels| then levels[i] else []
  {
    if |levels| >= n then levels else levels + seq(n - |levels|, i => [])
  }

  /** The table appended to the level it names. */
  function AddTo(levels: Levels, info: TableInfo): (r: Levels)
    ensures info.level < |r|
  {
    var room := Resize(levels, info.level + 1);
    room[info.level := room[info.level] + [info]]
  }

  function HasOtherId(id: U64): TableInfo -> bool {
    (info: TableInfo) => info.id != id
  }

  /** Every table with that id dropped, from whichever level. */
  function RemoveFrom(levels: Levels, id: U64): (r: Levels)
    ensures |r| == |levels|
  {
    Map(levels, (level: seq<TableInfo>) => Filter(level, HasOtherId(id)))
  }

  predicate Overlaps(info: TableInfo, range: KeyRange) { Intersects(info.minKey, info.maxKey, range) }

  function OverlapTest(range: KeyRange): TableInfo -> bool {
    (info: TableInfo) => Overlaps(info, range)
  }

  class SSTableRegistry {
    var levels: Levels

    constructor ()
      ensures levels == []
    {
      levels := [];
    }

    function SSTableCount(level: nat): nat
      reads this
    {
      if level >= |levels| then 0 else |levels[level]|
    }

    method Add(info: TableInfo)
      modifies this
      ensures levels == AddTo(old(levels), info)
    {
      if |levels| <= info.level {
        var room := levels;
        while |room| < info.level + 1
          invariant |levels| <= |room| <= info.level + 1
          invariant room == Resize(levels, |room|)
        {
          room := room + [[]];
          assert room == Resize(levels, |room|);
        }
        levels := room;
      }
      levels := levels[info.level := levels[info.level] + [info]];
    }

    method Remove(id: U64)
      modifies this
      ensures levels == RemoveFrom(old(levels), id)
    {
      ghost var before := levels;
      for i := 0 to |levels|
        invariant |levels| == |before|
        invariant forall k :: 0 <= k < |levels| ==>
                    levels[k] == if k < i then Filter(before[k], HasOtherId(id)) else before[k]
      {
        var kept: seq<TableInfo> := [];
        for j := 0 to |levels[i]|
          invariant |levels| == |before| && levels[i] == before[i]
          invariant kept == Filter(before[i][..j], HasOtherId(id))
          invariant forall k :: 0 <= k < |levels| ==>
                      levels[k] == if k < i then Filter(before[k], HasOtherId(id)) else before[k]
        {
          FilterSnoc(before[i][..j], before[i][j], HasOtherId(id));
          assert before[i][..j + 1] == before[i][..j] + [before[i][j]];
          if levels[i][j].id != id { kept := kept + [levels[i][j]]; }
        }
        assert before[i][..|before[i]|] == before[i];
        levels := levels[i := kept];
      }
    }

    /** sstables_at_level: throws on a level that was never used. */
    method SSTablesAtLevel(level: nat) returns (tables: Result<seq<TableInfo>>)
      ensures tables == if level < |levels| then Ok(levels[level]) else Err
    {
      if level >= |levels| { return Err; }
      return Ok(levels[level]);
    }

    /** overlapping: the tables of a level whose key bounds meet the range, in level order. */
    method Overlapping(level: nat, range: KeyRange) returns (result: seq<TableInfo>)
      ensures result == if level < |levels| then Filter(levels[level], OverlapTest(range)) else []
    {
      result := [];
      if level >= |levels| { return; }
      for i := 0 to |levels[level]|
        invariant result == Filter(levels[level][..i], OverlapTest(range))
      {
        var info := levels[level][i];
        FilterSnoc(levels[level][..i], info, OverlapTest(range));
        assert levels[level][..i + 1] == levels[level][..i] + [info];
        if range.from.Some? && info.maxKey < range.from.value { continue; }
        if range.to.Some? && info.minKey >= range.to.value { continue; }
        result := result + [info];
      }
      assert levels[level][..|levels[level]|] == levels[level];
    }
  }

  // ---------- The compaction policy ----------

  datatype Config = Config(threshold: nat, trigger: nat, ratio: U64, base: U64, rowToColumn: U32)

  datatype Task = Task(source: nat, target: nat, layout: Layout)

  /** base * ratio^level in 64 bits. */
  function Threshold(config: Config, level: nat): U64 {
    if level == 0 then config.base else Threshold(config, level - 1) * config.ratio % U64_LIMIT
  }

  /** Sum of the file sizes in 64 bits. */
  function TotalSize(level: seq<TableInfo>): U64 {
    if level == [] then 0 else (TotalSize(level[..|level| - 1]) + level[|level| - 1].fileSize) % U64_LIMIT
  }

  predicate Oversized(config: Config, levels: Levels, level: nat) {
    0 < level < |levels| && levels[level] != [] && TotalSize(levels[level]) > Threshold(config, level)
  }

  function LayoutOf(config: Config, level: nat): Layout { if level >= config.rowToColumn then COLUMN else ROW }

  /** The lowest oversized level from `level` on. */
  function FirstOversized(config: Config, levels: Levels, level: nat): (found: Option<nat>)
    requires 0 < level
    ensures found.Some? ==> level <= found.value && Oversized(config, levels, found.value)
    ensures found.Some? ==> forall k :: level <= k < found.value ==> !Oversized(config, levels, k)
    ensures found.None? ==> forall k :: level <= k < |levels| ==> !Oversized(config, levels, k)
    decreases |levels| - level
  {
    if level >= |levels| then None
    else if Oversized(config, levels, level) then Some(level)
    else FirstOversized(config, levels, level + 1)
  }

  /** Level 0 by its number of tables, then the lowest level that is too large. */
  function Pick(config: Config, levels: Levels): Option<Task> {
    if (if levels == [] then 0 else |levels[0]|) >= config.trigger then Some(Task(0, 1, LayoutOf(config, 1)))
    else
      var found := FirstOversized(config, levels, 1);
      if found.None? then None else Some(Task(found.value, found.value + 1, LayoutOf(config, found.value + 1)))
  }

  method PickTask(config: Config, registry: SSTableRegistry) returns (task: Option<Task>)
    ensures task == Pick(config, registry.levels)
  {
    if registry.SSTableCount(0) >= config.trigger {
      return Some(Task(0, 1, if config.rowToColumn <= 1 then COLUMN else ROW));
    }
    var level := 1;
    while level < |registry.levels|
      invariant 1 <= level
      invariant FirstOversized(config, registry.levels, level) == FirstOversized(config, registry.levels, 1)
      decreases |registry.levels| - level
    {
      var tables := registry.levels[level];
      if tables != [] {
        var threshold: U64 := config.base;
        for i := 0 to level
          invariant threshold == Threshold(config, i)
        {
          threshold := threshold * config.ratio % U64_LIMIT;
        }
        var total: U64 := 0;
        for i := 0 to |tables|
          invariant total == TotalSize(tables[..i])
        {
          assert tables[..i + 1][..i] == tables[..i];
          total := (total + tables[i].fileSize) % U64_LIMIT;
        }
        assert tables[..|tables|] == tables;
        if total > threshold {
          return Some(Task(level, level + 1, if level + 1 >= config.rowToColumn then COLUMN else ROW));
        }
      }
      level := level + 1;
    }
    return None;
  }
}
