/** The tree as an object: each method under the lock is one step of the machine, and the drain is a loop of rounds. */
module LsmTree {
  import opened Seqs
  import opened Storage
  import opened SortedMaps
  import opened Codec
  import opened Tables
  import opened TableBuilders
  import opened Merging
  import opened Registry
  import opened Memory
  import opened Compaction
  import opened Engine
  import opened Conservation
  import opened Snapshot
  import opened Drain
  import opened TableScan
  import opened Decoders
  import opened Cursors
  import opened BlockCache
  import opened MetadataCache
  import opened Planner

  /** Where the file system puts a table, and how large it says the files are. */
  datatype Files = Files(pathOf: U64 -> Bytes, sizeOf: BuildResult -> U64)

  class LSMTree {
    const c: Setup
    const options: BuildOptions
    const files: Files
    const memory: MemoryLayer
    const registry: SSTableRegistry
    var disk: map<U64, TableFile>
    var nextId: U64
    /** The job that the worker holds while the lock is released. */
    var phase: Phase
    /** Opened by the scans, and never dropped. */
    var metadataCaches: map<U64, SSTableMetadataCache>
    var blockCache: SSTableBlockCache?
    ghost var cacheObjects: set<object>

    ghost function View(): State
      reads this, memory, memory.active, registry
    {
      State(memory.active.data, memory.immutables, registry.levels, disk, nextId, phase)
    }

    /** The files that the metadata caches were opened on. */
    ghost function OpenedFiles(): (files: map<U64, TableFile>)
      reads this`metadataCaches
      ensures files.Keys == metadataCaches.Keys
    {
      map id | id in metadataCaches :: metadataCaches[id].file
    }

    /** The tables of which the block cache has a block. */
    ghost function CachedTables(): set<U64>
      reads this`blockCache, if blockCache == null then {} else {blockCache}
    {
      if blockCache == null then {} else set k | k in blockCache.entries :: k.table
    }

    ghost predicate CachesValid()
      reads this`metadataCaches, this`blockCache, this`cacheObjects, cacheObjects
    {
      && (forall id :: id in metadataCaches ==> metadataCaches[id] in cacheObjects)
      && (blockCache != null ==> blockCache in cacheObjects)
      && (forall id :: id in metadataCaches ==>
            metadataCaches[id].Valid() && metadataCaches[id].pages.columns == Width(c.schema))
      && (forall a, b :: a in metadataCaches && b in metadataCaches && a != b ==>
            metadataCaches[a] != metadataCaches[b])
      && (blockCache != null ==> blockCache.Valid())
    }

    /** The block cache knows the files on disk. */
    ghost predicate Sourced()
      reads this`disk, this`blockCache, if blockCache == null then {} else {blockCache}
    {
      blockCache != null ==> forall k: CacheKey :: k.table in disk ==> blockCache.source(k) == SourceOf(disk)(k)
    }

    ghost predicate Valid()
      reads this, memory, memory.active, registry, cacheObjects
    {
      && memory.threshold == c.config.threshold && GoodBuild(options) && Width(c.schema) < U32_LIMIT
      && Inv(c, View()) && |Versions(c, View())| < U32_LIMIT
      && this !in cacheObjects && memory !in cacheObjects && memory.active !in cacheObjects && registry !in cacheObjects
      && CachesValid() && Sourced() && CachesTrue(View(), OpenedFiles()) && Known(View(), CachedTables())
    }

    lemma {:induction false} ValidHolds()
      requires Valid()
      ensures Inv(c, View()) && |Versions(c, View())| < U32_LIMIT && Width(c.schema) < U32_LIMIT
      ensures this !in cacheObjects && memory !in cacheObjects && memory.active !in cacheObjects
      ensures registry !in cacheObjects
    {
    }

    /** A step of the machine leaves the caches true. */
    lemma {:induction false} StepKeepsCaches(s: State, step: Step)
      requires Inv(c, s) && Enabled(c, s, step) && CachesTrue(s, OpenedFiles()) && Known(s, CachedTables())
      ensures CachesTrue(Apply(c, s, step), OpenedFiles()) && Known(Apply(c, s, step), CachedTables())
    {
      CachesStayTrue(c, s, step, OpenedFiles());
      StaysKnown(c, s, step, CachedTables());
    }

    constructor (c: Setup, options: BuildOptions, files: Files)
      requires GoodBuild(options) && Width(c.schema) < U32_LIMIT
      ensures Valid() && View() == EMPTY
      ensures this.c == c && this.options == options && this.files == files
      ensures fresh(memory) && fresh(memory.active) && fresh(registry)
    {
      this.c, this.options, this.files := c, options, files;
      memory := new MemoryLayer(c.config.threshold);
      registry := new SSTableRegistry();
      disk, nextId, phase, metadataCaches, blockCache := map[], 0, Idle, map[], null;
      cacheObjects := {};
      new;
      EmptyTree(c);
      NothingToEnumerate();
      assert Versions(c, EMPTY) == multiset{};
    }

    /** insert, up to waking the worker. */
    method InsertRow(row: Row)
      requires Valid() && RowFits(row, c.schema) && |Versions(c, View())| + 1 < U32_LIMIT
      modifies memory, memory.active
      ensures Valid() && View() == Apply(c, old(View()), Insert(row))
      ensures memory.active == old(memory.active) || fresh(memory.active)
    {
      hide Inv, RowFits, Versions, Enumerate, CachesTrue, Known, InFlight, LSMTree.CachesValid, LSMTree.Sourced,
           LSMTree.OpenedFiles, LSMTree.CachedTables;
      StepKeepsCaches(View(), Insert(row));
      StepKeeps(c, View(), Insert(row));
      StepVersions(c, View(), Insert(row));
      ActiveIsKeyed(c, View());
      memory.Insert(row);
    }

    /** flush_one_locked until the lock is released; false when no memtable waits. */
    method BeginFlushOne() returns (began: bool)
      requires Valid() && phase.Idle? && nextId + 1 < U64_LIMIT
      modifies this`nextId, this`phase
      ensures Valid() && began == (old(View()).frozen != [])
      ensures began ==> Enabled(c, old(View()), BeginFlush) && View() == Apply(c, old(View()), BeginFlush)
      ensures !began ==> View() == old(View())
    {
      hide TablesOk, Pick, Versions, IsTable, CachesTrue, Known, LSMTree.CachesValid, LSMTree.Sourced;
      var front := memory.FrontImmutable();
      if front.None? { return false; }
      NeverEmpty(c, View());
      StepKeeps(c, View(), BeginFlush);
      StepKeepsCaches(View(), BeginFlush);
      StepVersions(c, View(), BeginFlush);
      phase := Flushing(front.value, nextId);
      nextId := nextId + 1;
      return true;
    }

    /** The rest of flush_one_locked: the table is written without the lock, then published. */
    method EndFlushOne() returns (ghost step: Step)
      requires Valid() && phase.Flushing?
      modifies this`disk, this`phase, memory`immutables, registry, cacheObjects
      ensures Valid() && phase.Idle? && nextId == old(nextId)
      ensures step.EndFlush? && Enabled(c, old(View()), step) && View() == Apply(c, old(View()), step)
      ensures step.size == files.sizeOf(step.result)
    {
      hide Inv, Versions, Built, Apply, CachesTrue, Known, LSMTree.CachesValid, LSMTree.Sourced;
      QueueFits(c, View());
      var result := WriteTable(c.schema, options, phase.rows);
      step := EndFlush(result, files.pathOf(phase.id), files.sizeOf(result));
      PublishFlush(step, result, files.pathOf(phase.id), files.sizeOf(result));
    }

    /** With the lock again: the table is registered and the oldest frozen memtable leaves. */
    method PublishFlush(ghost step: Step, result: BuildResult, path: Bytes, size: U64)
      requires Valid() && phase.Flushing? && step == EndFlush(result, path, size) && Enabled(c, View(), step)
      modifies this`disk, this`phase, memory`immutables, registry, cacheObjects
      ensures Valid() && phase.Idle? && nextId == old(nextId) && View() == Apply(c, old(View()), step)
    {
      hide Inv, Built, Pick, Versions, AddTo, CachesTrue, Known, LSMTree.CachesValid, LSMTree.Sourced;
      var id := phase.id;
      StepKeeps(c, View(), step);
      StepVersions(c, View(), step);
      StepKeepsCaches(View(), step);
      NotKnown(View(), CachedTables(), id);
      PublishFile(id, result.file, {});
      registry.Add(InfoOf(id, 0, result, path, size));
      memory.PopFrontImmutable();
      phase := Idle;
      assert View() == Apply(c, old(View()), step);
      assert CachesValid() && Sourced();
    }

    /**
     compact_one_locked until the lock is released: false when the policy picks nothing, or an empty level;
     an exception when it picks a level 0 that was never used.
     */
    method BeginCompactOne() returns (began: Result<bool>)
      requires Valid() && phase.Idle? && memory.immutables == [] && nextId + 1 < U64_LIMIT
      modifies this`nextId, this`phase
      ensures Valid() && (began == Ok(true) <==> Enabled(c, old(View()), BeginCompact))
      ensures began.Err? <==> Stuck(c, old(View())) && old(View()).levels == []
      ensures View() == if began == Ok(true) then Apply(c, old(View()), BeginCompact) else old(View())
    {
      hide TablesOk, MemoryOk, Versions, IsTable, Enumerate, Pick, CachesTrue, Known, LSMTree.CachesValid,
           LSMTree.Sourced;
      var task := PickTask(c.config, registry);
      StuckIsPending(c, View());
      if task.None? { return Ok(false); }
      PickedLevel(c, registry.levels);
      var candidates := registry.SSTablesAtLevel(task.value.source);
      if candidates.Err? { return Err; }
      if candidates.value == [] { return Ok(false); }
      StepKeeps(c, View(), BeginCompact);
      StepKeepsCaches(View(), BeginCompact);
      StepVersions(c, View(), BeginCompact);
      phase := Compacting(task.value, candidates.value, nextId);
      nextId := nextId + 1;
      return Ok(true);
    }

    /** The rest of compact_one_locked: the job runs without the lock, then its table replaces the candidates. */
    method EndCompactOne() returns (ghost step: Step)
      requires Valid() && phase.Compacting? && phase.task.target < U32_LIMIT
      modifies this`disk, this`phase, registry, cacheObjects
      ensures Valid() && phase.Idle? && nextId == old(nextId)
      ensures step.EndCompact? && Enabled(c, old(View()), step) && View() == Apply(c, old(View()), step)
      ensures step.size == files.sizeOf(step.result)
    {
      hide TablesOk, MemoryOk, Pick, Versions, IsTable, AddTo, RemoveAll, Merge, Enumerate, RowsOf, Flatten, Built,
           CachesTrue, Known, LSMTree.CachesValid, LSMTree.Sourced;
      var task, candidates, id := phase.task, phase.candidates, phase.id;
      CandidatesAreStored(c, View());
      var job := RunJob(c, options, disk, candidates, task.layout);
      var result := job.value;
      BlocksFit32(result, task.layout, c.schema, Merge(RowsOfAll(c, disk, candidates)));
      var path, size := files.pathOf(id), files.sizeOf(result);
      step := EndCompact(result, path, size);
      StepKeeps(c, View(), step);
      StepVersions(c, View(), step);
      StepKeepsCaches(View(), step);
      NotKnown(View(), CachedTables(), id);
      PublishFile(id, result.file, set info | info in candidates :: info.id);
      Publish(InfoOf(id, task.target, result, path, size), candidates);
      phase := Idle;
      assert View() == Apply(c, old(View()), step);
      assert CachesValid() && Sourced();
    }

    /** has_pending_work_locked. */
    method HasPendingWork() returns (pending: bool)
      ensures pending == Pending(c, View())
    {
      if memory.immutables != [] { return true; }
      var task := PickTask(c.config, registry);
      return task.Some?;
    }

    /** A whole flush_one_locked with no insert in between. */
    method FlushOne(ghost cost: Row -> nat, ghost top: nat) returns (done: bool)
      requires Valid() && phase.Idle? && nextId + 1 < U64_LIMIT && Roomy(c, View(), cost, top)
               && WithinCost(c, files, cost)
      modifies this`disk, this`nextId, this`phase, memory`immutables, registry, cacheObjects
      ensures Valid() && phase.Idle? && done == (old(View()).frozen != [])
      ensures !done ==> View() == old(View())
      ensures done ==>
                nextId == old(nextId) + 1 && Roomy(c, View(), cost, top) && Work(View(), top) < Work(old(View()), top)
                && Versions(c, View()) == Versions(c, old(View()))
    {
      hide Inv, Versions, Roomy, Apply, Enabled, Work, Built, Weight, LSMTree.Valid;
      ValidHolds();
      ghost var s := View();
      done := BeginFlushOne();
      if !done { return; }
      ghost var u := View();
      assert u.phase.Flushing? && u.nextId == s.nextId + 1 by { Began(c, s); }
      ghost var step := EndFlushOne();
      FlushIsRound(c, files, s, step, cost);
      FlushBringsNearer(c, s, View(), step, cost, top);
      RoundVersions(c, s, BeginFlush, step);
    }

    /** A whole compact_one_locked with no insert in between. */
    method CompactOne(ghost cost: Row -> nat, ghost top: nat) returns (done: Result<bool>)
      requires Valid() && phase.Idle? && nextId + 1 < U64_LIMIT && Roomy(c, View(), cost, top)
               && WithinCost(c, files, cost)
      requires memory.immutables == [] && top < U32_LIMIT
      modifies this`disk, this`nextId, this`phase, registry, cacheObjects
      ensures Valid() && phase.Idle? && (done == Ok(true) <==> Enabled(c, old(View()), BeginCompact))
      ensures done.Err? <==> Stuck(c, old(View())) && old(View()).levels == []
      ensures done != Ok(true) ==> View() == old(View())
      ensures done == Ok(true) ==>
                && nextId == old(nextId) + 1 && Roomy(c, View(), cost, top)
                && Work(View(), top) < Work(old(View()), top)
                && Versions(c, View()) == Versions(c, old(View()))
    {
      hide Inv, Versions, Roomy, Apply, Enabled, Work, Built, Weight, Pick, Stuck, LSMTree.Valid;
      ValidHolds();
      ghost var s := View();
      done := BeginCompactOne();
      if done != Ok(true) { return; }
      assert phase.Compacting? && nextId == s.nextId + 1
             && phase.task.target < U32_LIMIT by { BeganCompacting(c, s, cost, top); }
      ghost var step := EndCompactOne();
      CompactIsRound(c, files, s, step, cost);
      CompactBringsNearer(c, s, View(), step, cost, top);
      RoundVersions(c, s, BeginCompact, step);
    }

    /**
     drain_work_locked: flush what is frozen, then compact while the policy asks for it. It ends with every
     row still there, and with nothing pending unless it is stuck under a trigger of 0; an exception comes
     out exactly when it is stuck before there was ever a table.
     */
    method DrainWork(ghost cost: Row -> nat, ghost top: nat) returns (ok: bool)
      requires Valid() && phase.Idle? && Roomy(c, View(), cost, top) && WithinCost(c, files, cost)
      requires top < U32_LIMIT && nextId + Work(View(), top) + 1 < U64_LIMIT
      modifies this`disk, this`nextId, this`phase, memory`immutables, registry, cacheObjects
      ensures Valid() && phase.Idle? && (Pending(c, View()) <==> Stuck(c, View()))
      ensures ok <==> !(Stuck(c, View()) && View().levels == [])
      ensures Versions(c, View()) == Versions(c, old(View())) && View().active == old(View()).active
    {
      hide Inv, Versions, Roomy, Work, Weight, Pick, WithinCost, Enabled, Stuck, Pending, LSMTree.Valid;
      ValidHolds();
      var pending := HasPendingWork();
      while pending
        invariant Valid() && phase.Idle? && Roomy(c, View(), cost, top) && pending == Pending(c, View())
        invariant nextId + Work(View(), top) + 1 < U64_LIMIT
        invariant Versions(c, View()) == Versions(c, old(View()))
        decreases Work(View(), top)
      {
        ValidHolds();
        PendingCanStart(c, View());
        var flushed := FlushOne(cost, top);
        if !flushed {
          NoFlush(c, View());
          var compacted := CompactOne(cost, top);
          if compacted.Err? { return false; }
          if !compacted.value { return true; }
        }
        pending := HasPendingWork();
      }
      StuckIsPending(c, View());
      return true;
    }

    /**
     scan: the part of every memtable that lies in the range, a cursor over every table that overlaps it, and
     one cursor over them all, which emits the scan that the theorems are about. A table's read never fails.
     There is no such cursor exactly when the walk over some memtable would overrun its end.
     */
    method ScanRange(range: KeyRange, projection: seq<nat>, filter: seq<NumericPredicate>, order: ScanOrder)
      returns (cursor: Option<Result<Cursor>>)
      requires Valid()
      modifies this`metadataCaches, this`blockCache, this`cacheObjects, cacheObjects
      ensures Valid() && View() == old(View())
      ensures cursor.None? <==> !Walkable(View(), range)
      ensures cursor.Some? && cursor.value.Ok? ==>
                Ready(cursor.value.value, Scan(c, View(), Request(range, ColumnsOf(projection), filter), order))
      ensures cursor.Some? && GoodProjection(Width(c.schema), projection) ==> cursor.value.Ok?
    {
      hide Enumerate, Filter, GoodProjection, ColumnsOf, Ready, Merge, Flatten, LSMTree.Valid;
      ValidHolds();
      ghost var request := Request(range, ColumnsOf(projection), filter);
      var memoryParts := ScanMemory(range);
      if memoryParts.None? { return None; }
      var tables := OverlappingTables(range);
      var tableParts := ScanTables(range, projection, filter, tables);
      if tableParts.Err? { return Some(Err); }
      ghost var all := Children(c, View(), request);
      FilterConcat(FilterAllOf(MemorySources(View()), range), TableParts(c, disk, tables, request), NonEmpty());
      var composed := ComposeCursors(memoryParts.value + tableParts.value, order);
      OnlyNonEmpty(all, order);
      return Some(Ok(composed));
    }

    /** The cursors over the active memtable and the frozen ones, where there is something in the range. */
    method ScanMemory(range: KeyRange) returns (parts: Option<seq<seq<Row>>>)
      requires Valid()
      ensures parts.None? <==> !Walkable(View(), range)
      ensures parts.Some? ==> parts.value == Filter(FilterAllOf(MemorySources(View()), range), NonEmpty())
    {
      hide Inv, Versions, Filter, Ascending, Enumerate, Keyed, Overrun, LSMTree.Valid;
      ValidHolds();
      ghost var sources, all := MemorySources(View()), FilterAllOf(MemorySources(View()), range);
      MemoryIsAscending(c, View());
      var active := memory.active.SortedRows();
      var part := RangeRows(active, range);
      assert sources[0] == active;
      if part.None? { return None; }
      var found := if part.value != [] then [part.value] else [];
      assert all[..0] == [];
      NothingShown();
      NextPart(all, 0);
      for i := 0 to |memory.immutables|
        invariant found == Filter(all[..i + 1], NonEmpty())
        invariant forall k :: 0 <= k <= i ==> !Overrun(sources[k], range)
      {
        part := RangeRows(memory.immutables[i], range);
        assert sources[i + 1] == memory.immutables[i];
        if part.None? { return None; }
        NextPart(all, i + 1);
        if part.value != [] { found := found + [part.value]; }
      }
      assert all[..|all|] == all;
      return Some(found);
    }

    /** The tables that overlap the range, level after level. */
    method OverlappingTables(range: KeyRange) returns (tables: seq<TableInfo>)
      ensures tables == TablesIn(registry.levels, range)
    {
      hide Filter, Flatten;
      tables := [];
      NoTablesIn(range);
      for level := 0 to |registry.levels|
        invariant tables == Filter(Flatten(registry.levels[..level]), OverlapTest(range))
      {
        var some := registry.Overlapping(level, range);
        assert registry.levels[..level + 1] == registry.levels[..level] + [registry.levels[level]];
        FlattenSnoc(registry.levels[..level], registry.levels[level]);
        FilterConcat(Flatten(registry.levels[..level]), registry.levels[level], OverlapTest(range));
        tables := tables + some;
      }
      assert registry.levels[..|registry.levels|] == registry.levels;
    }

    /** The cursors over these tables, where they show anything. */
    method ScanTables(range: KeyRange, projection: seq<nat>, filter: seq<NumericPredicate>, tables: seq<TableInfo>)
      returns (parts: Result<seq<seq<Row>>>)
      requires Valid() && tables == TablesIn(registry.levels, range)
      modifies this`metadataCaches, this`blockCache, this`cacheObjects, cacheObjects
      ensures Valid() && View() == old(View())
      ensures parts.Ok? ==>
                parts.value == Filter(TableParts(c, disk, tables, Request(range, ColumnsOf(projection), filter)),
                                      NonEmpty())
      ensures GoodProjection(Width(c.schema), projection) ==> parts.Ok?
    {
      hide Enumerate, GoodProjection, ColumnsOf, Inv, Versions, ScanTable, Stored, SourceOf, Filter, Flatten,
           SSTableBlockCache.Valid, SSTableMetadataCache.Valid, CachesTrue, Known, LSMTree.Valid;
      ValidHolds();
      ghost var all := TableParts(c, disk, tables, Request(range, ColumnsOf(projection), filter));
      var shown := [];
      assert all[..0] == [];
      NothingShown();
      InFilter(Flatten(registry.levels), OverlapTest(range));
      for i := 0 to |tables|
        invariant Valid() && View() == old(View()) && shown == Filter(all[..i], NonEmpty())
        invariant forall o :: o in cacheObjects ==> o in old(cacheObjects) || fresh(o)
      {
        assert tables[i] in tables;
        var rows := ReadShared(range, projection, filter, tables[i]);
        if rows.Err? { return Err; }
        NextPart(all, i);
        if rows.value != [] { shown := shown + [rows.value]; }
      }
      assert all[..|all|] == all;
      return Ok(shown);
    }

    /** One table read through the shared caches. */
    method ReadShared(range: KeyRange, projection: seq<nat>, filter: seq<NumericPredicate>, info: TableInfo)
      returns (rows: Result<seq<Row>>)
      requires Valid() && info in Flatten(registry.levels)
      modifies this`metadataCaches, this`blockCache, this`cacheObjects, cacheObjects
      ensures Valid() && View() == old(View())
      ensures forall o :: o in cacheObjects ==> o in old(cacheObjects) || fresh(o)
      ensures rows.Ok? ==> rows == ReadTable(c, disk, info, Request(range, ColumnsOf(projection), filter))
      ensures GoodProjection(Width(c.schema), projection) ==> rows.Ok?
    {
      hide Inv, Versions, ScanTable, Stored, SourceOf, Flatten, GoodProjection, ColumnsOf, SSTableBlockCache.Valid,
           SSTableMetadataCache.Valid, CachesTrue, Known;
      var cache := GetOrCreateBlockCache();
      var metadata := GetOrCreateMetadataCache(info);
      assert metadata in cacheObjects && cache in cacheObjects;
      ghost var before := CachedTables();
      rows := ReadRequested(c, disk, info, metadata, cache, range, projection, filter);
      assert CachesValid() && Sourced();
      OneMoreKnown(View(), OpenedFiles(), before, info.id, CachedTables());
    }

    /** A new file on disk, and others gone; the block cache holds no block under the new id. */
    method PublishFile(id: U64, file: TableFile, gone: set<U64>)
      requires CachesValid() && Sourced() && id !in CachedTables()
      modifies this`disk, cacheObjects
      ensures disk == old(disk)[id := file] - gone && CachesValid() && Sourced()
      ensures CachedTables() == old(CachedTables())
    {
      hide SSTableMetadataCache.Valid;
      ghost var known := disk;
      disk := disk[id := file] - gone;
      if blockCache != null {
        ghost var before, after := blockCache.source, SourceOf(known[id := file]);
        forall k | k in blockCache.entries ensures k.table != id { assert k.table in CachedTables(); }
        blockCache.Learn((k: CacheKey) => if k.table == id then after(k) else before(k));
      }
    }

    /** get_or_create_block_cache. */
    method GetOrCreateBlockCache() returns (cache: SSTableBlockCache)
      requires CachesValid() && Sourced() && Width(c.schema) < U32_LIMIT
      modifies this`blockCache, this`cacheObjects
      ensures blockCache == cache && Job(c, disk, cache) && CachesValid() && Sourced()
      ensures blockCache == old(blockCache) || (old(blockCache) == null && fresh(cache))
      ensures forall o :: o in cacheObjects ==> o in old(cacheObjects) || fresh(o)
      ensures CachedTables() == old(CachedTables())
    {
      hide SSTableMetadataCache.Valid;
      if blockCache == null {
        blockCache := new SSTableBlockCache(BLOCK_CACHE_BYTES, SourceOf(disk));
        cacheObjects := cacheObjects + {blockCache};
      }
      cache := blockCache;
    }

    /** get_or_create_metadata_cache. */
    method GetOrCreateMetadataCache(info: TableInfo) returns (metadata: SSTableMetadataCache)
      requires Valid() && info in Flatten(registry.levels)
      modifies this`metadataCaches, this`cacheObjects
      ensures Valid() && info.id in metadataCaches && metadataCaches[info.id] == metadata
      ensures Readable(c, disk, info) && OpenedOn(c, metadata, disk[info.id])
      ensures forall o :: o in cacheObjects ==> o in old(cacheObjects) || fresh(o)
    {
      hide Inv, Stored, SSTableMetadataCache.Valid, SSTableBlockCache.Valid, Versions, Flatten, SourceOf, CachesTrue,
           Known;
      ghost var l, i := InRegistry(c, View(), info);
      if info.id in metadataCaches {
        FoundIsTrue(View(), OpenedFiles(), l, i);
        return metadataCaches[info.id];
      }
      metadata := OpenMetadata(c, disk, info);
      Adopt(info, metadata, l, i);
    }

    /** A metadata cache opened on a registered table joins the others. */
    method Adopt(info: TableInfo, metadata: SSTableMetadataCache, ghost l: nat, ghost i: nat)
      requires Valid() && At(registry.levels, l, i) && registry.levels[l][i] == info && info.id in disk
      requires OpenedOn(c, metadata, disk[info.id]) && metadata !in cacheObjects && info.id !in metadataCaches
      modifies this`metadataCaches, this`cacheObjects
      ensures Valid() && metadataCaches == old(metadataCaches)[info.id := metadata]
      ensures cacheObjects == old(cacheObjects) + {metadata}
    {
      hide Inv, Stored, SSTableMetadataCache.Valid, SSTableBlockCache.Valid, Versions, SourceOf, CachesTrue, Known;
      OpenedCacheIsTrue(c, View(), OpenedFiles(), l, i);
      ghost var known := OpenedFiles()[info.id := disk[info.id]];
      metadataCaches := metadataCaches[info.id := metadata];
      cacheObjects := cacheObjects + {metadata};
      assert OpenedFiles() == known;
    }

    /** The registry part of publishing a compaction. */
    method Publish(info: TableInfo, candidates: seq<TableInfo>)
      modifies registry
      ensures registry.levels == RemoveAll(AddTo(old(registry.levels), info), candidates)
    {
      hide AddTo, RemoveFrom;
      registry.Add(info);
      for i := 0 to |candidates|
        invariant RemoveAll(registry.levels, candidates[i..])
                  == RemoveAll(AddTo(old(registry.levels), info), candidates)
      {
        assert candidates[i..][1..] == candidates[i + 1..];
        registry.Remove(candidates[i].id);
      }
    }
  }

  // ---------- Facts behind the methods ----------

  /** Files are never larger than their rows may cost. */
  ghost predicate WithinCost(c: Setup, files: Files, cost: Row -> nat) {
    forall r: BuildResult, layout, rows :: Built(r, layout, c.schema, rows) ==> files.sizeOf(r) <= Weight(rows, cost)
  }

  lemma {:induction false} FoundIsTrue(s: State, files: map<U64, TableFile>, l: nat, i: nat)
    requires CachesTrue(s, files) && At(s.levels, l, i) && s.levels[l][i].id in files
    ensures var id := s.levels[l][i].id; id in s.disk && files[id] == s.disk[id]
  {
  }

  lemma {:induction false} OneMoreKnown(s: State, files: map<U64, TableFile>, ids: set<U64>, id: U64, more: set<U64>)
    requires CachesTrue(s, files) && Known(s, ids) && id in files && more <= ids + {id}
    ensures Known(s, more)
  {
  }

  lemma {:induction false} NotKnown(s: State, ids: set<U64>, id: U64)
    requires Known(s, ids) && id in InFlight(s)
    ensures id !in ids
  {
  }

  lemma {:induction false} MemoryIsAscending(c: Setup, s: State)
    requires Inv(c, s)
    ensures Keyed(s.active) && Ascending(Enumerate(s.active))
    ensures forall i :: 0 <= i < |s.frozen| ==> Ascending(s.frozen[i])
  {
    hide TablesOk, PhaseOk, RowsFit;
    EnumerateSorts(s.active);
  }

  lemma {:induction false} NoTablesIn(range: KeyRange)
    ensures Filter(Flatten([]), OverlapTest(range)) == []
  {
  }

  lemma {:induction false} NothingShown()
    ensures Filter([], NonEmpty()) == []
  {
  }

  lemma {:induction false} NextPart(parts: seq<seq<Row>>, n: nat)
    requires n < |parts|
    ensures Filter(parts[..n + 1], NonEmpty())
            == Filter(parts[..n], NonEmpty()) + if parts[n] != [] then [parts[n]] else []
  {
    assert parts[..n + 1] == parts[..n] + [parts[n]];
    FilterSnoc(parts[..n], parts[n], NonEmpty());
  }

  lemma {:induction false} OnlyNonEmpty(children: seq<seq<Row>>, order: ScanOrder)
    ensures Composed(Filter(children, NonEmpty()), order) == Composed(children, order)
  {
    EmptyChildrenDoNotMatter(children);
  }

  /** Where a registered table stands; its files are there. */
  lemma {:induction false} InRegistry(c: Setup, s: State, info: TableInfo) returns (l: nat, i: nat)
    requires Inv(c, s) && info in Flatten(s.levels)
    ensures At(s.levels, l, i) && s.levels[l][i] == info && Readable(c, s.disk, info)
  {
    hide MemoryOk, TablesOk, PhaseOk, Holds, Flatten, TableRows;
    Registered(c, s, info);
    InFlatten(s.levels, info);
    l :| 0 <= l < |s.levels| && info in s.levels[l];
    i :| 0 <= i < |s.levels[l]| && s.levels[l][i] == info;
  }

  /** In every reachable state no read of a table fails, whatever is asked for. */
  lemma {:induction false} ReadsNeverFail(c: Setup, s: State, request: Request)
    requires Inv(c, s)
    ensures ReadsSucceed(c, s, request)
  {
    hide Inv, Stored, ScanTable, Filter, Flatten;
    forall info | info in TablesIn(s.levels, request.range) ensures ReadTable(c, s.disk, info, request).Ok? {
      InFilter(Flatten(s.levels), OverlapTest(request.range));
      var l, i := InRegistry(c, s, info);
      ReadNeverFails(c, s.disk[info.id], info, request);
    }
  }

  lemma {:induction false} Began(c: Setup, s: State)
    requires Enabled(c, s, BeginFlush)
    ensures var u := Apply(c, s, BeginFlush); u.phase.Flushing? && u.nextId == s.nextId + 1
  {
  }

  lemma {:induction false} StuckIsPending(c: Setup, s: State)
    ensures Stuck(c, s) ==> Pending(c, s) && Pick(c.config, s.levels).Some?
  {
  }

  lemma {:induction false} NoFlush(c: Setup, s: State)
    requires s.frozen == []
    ensures !Enabled(c, s, BeginFlush)
  {
  }

  lemma {:induction false} BeganCompacting(c: Setup, s: State, cost: Row -> nat, top: nat)
    requires Enabled(c, s, BeginCompact) && Roomy(c, s, cost, top) && top < U32_LIMIT
    ensures var u := Apply(c, s, BeginCompact);
            u.phase.Compacting? && u.nextId == s.nextId + 1 && u.phase.task.target < U32_LIMIT
  {
    hide Roomy, Pick;
    PickedBelow(c, s, cost, top);
    PickIsNext(c, s.levels);
  }

  lemma {:induction false} FlushIsRound(c: Setup, files: Files, s: State, step: Step, cost: Row -> nat)
    requires Enabled(c, s, BeginFlush) && step.EndFlush? && Enabled(c, Apply(c, s, BeginFlush), step)
    requires WithinCost(c, files, cost) && step.size == files.sizeOf(step.result)
    ensures FlushRound(c, s, Apply(c, Apply(c, s, BeginFlush), step), step, cost)
  {
    hide Weight, Built, AddTo;
  }

  lemma {:induction false} CompactIsRound(c: Setup, files: Files, s: State, step: Step, cost: Row -> nat)
    requires Enabled(c, s, BeginCompact) && step.EndCompact? && Enabled(c, Apply(c, s, BeginCompact), step)
    requires WithinCost(c, files, cost) && step.size == files.sizeOf(step.result)
    ensures CompactRound(c, s, Apply(c, Apply(c, s, BeginCompact), step), step, cost)
  {
    hide Weight, Built, AddTo, RemoveAll, Merge, Pick;
  }

  lemma {:induction false} ActiveIsKeyed(c: Setup, s: State)
    requires Inv(c, s)
    ensures Keyed(s.active)
  {
    hide TablesOk, PhaseOk;
  }

  /** A flush writes a whole frozen memtable. */
  method WriteTable(schema: Schema, o: BuildOptions, rows: seq<Row>) returns (r: BuildResult)
    requires GoodBuild(o) && rows != [] && Ascending(rows) && RowsFit(rows, schema) && |rows| < U32_LIMIT
    ensures Built(r, ROW, schema, rows) && r.file.numBlocks < U32_LIMIT
  {
    hide RowSSTableBuilder.Valid, Built;
    var builder := new RowSSTableBuilder(schema, o.index, o.rowTarget);
    WeakerAscending(rows);
    for i := 0 to |rows|
      invariant builder.Valid() && fresh(builder) && fresh(builder.block)
      invariant builder.schema == schema && !builder.finished && builder.rows == rows[..i]
    {
      assert rows[i] in rows;
      var ok := builder.Add(rows[i]);
      assert rows[..i + 1] == rows[..i] + [rows[i]];
    }
    assert rows[..|rows|] == rows;
    var result := builder.Finish();
    r := result.value;
    BlocksFit32(r, ROW, schema, rows);
  }

  lemma {:induction false} BlocksFit32(r: BuildResult, layout: Layout, schema: Schema, rows: seq<Row>)
    requires Built(r, layout, schema, rows) && |rows| < U32_LIMIT
    ensures r.file.numBlocks < U32_LIMIT
  {
    hide Flatten, Offset, EncodeRows, ColumnPiece, StatsOfBlocks;
    var blocks: seq<Block>, step: nat :|
      step >= 1 && AllRows(blocks) == rows && r.file == FileOf(r.file.layout, schema, blocks, step);
    BlocksBelowRows(blocks);
  }

  /** The front of the queue is a part of the versions. */
  lemma {:induction false} QueueFits(c: Setup, s: State)
    requires Inv(c, s) && s.phase.Flushing? && |Versions(c, s)| < U32_LIMIT
    ensures Ascending(s.phase.rows) && RowsFit(s.phase.rows, c.schema) && s.phase.rows != []
            && |s.phase.rows| < U32_LIMIT
  {
    hide TablesOk, TableVersions, Enumerate;
    assert Flatten(s.frozen) == s.phase.rows + Flatten(s.frozen[1..]);
    assert |multiset(Flatten(s.frozen))| <= |Versions(c, s)|;
  }

  lemma {:induction false} CandidatesAreStored(c: Setup, s: State)
    requires Inv(c, s) && s.phase.Compacting? && |Versions(c, s)| < U32_LIMIT
    ensures Candidates(c, s.disk, s.phase.candidates) && s.phase.candidates != []
    ensures |Flatten(RowsOfAll(c, s.disk, s.phase.candidates))| < U32_LIMIT
    ensures |Merge(RowsOfAll(c, s.disk, s.phase.candidates))| < U32_LIMIT
  {
    hide MemoryOk, IsTable, TableRows, TableVersions, Enumerate, Merge, Flatten, Pick;
    var children := RowsOfAll(c, s.disk, s.phase.candidates);
    LevelWithinVersions(c, s.disk, s.levels, s.phase.task.source);
    MergeKeepsAll(children);
    SizeWithin(multiset(Flatten(children)), Versions(c, s));
    assert |multiset(Flatten(children))| == |Flatten(children)| && |multiset(Merge(children))| == |Merge(children)|;
    forall i | 0 <= i < |s.phase.candidates|
      ensures InfoOk(c, s.disk, s.nextId, s.phase.candidates[i])
              && s.disk[s.phase.candidates[i].id].numBlocks < U32_LIMIT
    {
      assert At(s.levels, s.phase.task.source, i);
    }
  }

  lemma {:induction false} SizeWithin<T>(a: multiset<T>, b: multiset<T>)
    requires a <= b
    ensures |a| <= |b|
  {
    assert b == a + (b - a);
  }
}
