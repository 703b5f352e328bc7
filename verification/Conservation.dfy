/** The rows a tree holds, every version counted, and what each step does to them. */
module Conservation {
  import opened Seqs
  import opened Storage
  import opened SortedMaps
  import opened Tables
  import opened Merging
  import opened Registry
  import opened Engine

  type Disk = map<U64, TableFile>

  ghost function LevelVersions(c: Setup, disk: Disk, level: seq<TableInfo>): multiset<Row> {
    multiset(Flatten(RowsOfAll(c, disk, level)))
  }

  ghost function TableVersions(c: Setup, disk: Disk, levels: Levels): multiset<Row> {
    if levels == [] then multiset{}
    else TableVersions(c, disk, levels[..|levels| - 1]) + LevelVersions(c, disk, levels[|levels| - 1])
  }

  /** Every row in the active memtable, the frozen ones and the registered tables. */
  ghost function Versions(c: Setup, s: State): multiset<Row> {
    multiset(Enumerate(s.active)) + multiset(Flatten(s.frozen)) + TableVersions(c, s.disk, s.levels)
  }

  lemma {:induction false} Between<T>(a: multiset<T>, b: multiset<T>, x: multiset<T>, y: multiset<T>, z: multiset<T>)
    requires a + x == b + y
    ensures (a + z) + x == (b + z) + y
  {
    forall e ensures ((a + z) + x)[e] == ((b + z) + y)[e] { assert (a + x)[e] == (b + y)[e]; }
  }

  lemma {:induction false} LevelSnoc(c: Setup, disk: Disk, level: seq<TableInfo>, info: TableInfo)
    ensures LevelVersions(c, disk, level + [info]) == LevelVersions(c, disk, level) + multiset(RowsOf(c, disk, info))
  {
    hide RowsOf;
    FlattenSnoc(RowsOfAll(c, disk, level), RowsOf(c, disk, info));
    assert RowsOfAll(c, disk, level + [info]) == RowsOfAll(c, disk, level) + [RowsOf(c, disk, info)];
  }

  lemma {:induction false} VersionsOfUpdate(c: Setup, disk: Disk, levels: Levels, l: nat, level: seq<TableInfo>)
    requires l < |levels|
    ensures TableVersions(c, disk, levels[l := level]) + LevelVersions(c, disk, levels[l])
            == TableVersions(c, disk, levels) + LevelVersions(c, disk, level)
    decreases |levels|
  {
    hide LevelVersions;
    var n := |levels| - 1;
    if l == n {
      assert levels[l := level][..n] == levels[..n];
    } else {
      VersionsOfUpdate(c, disk, levels[..n], l, level);
      assert levels[l := level][..n] == levels[..n][l := level];
      Between(TableVersions(c, disk, levels[..n][l := level]), TableVersions(c, disk, levels[..n]),
              LevelVersions(c, disk, levels[l]), LevelVersions(c, disk, level), LevelVersions(c, disk, levels[n]));
    }
  }

  lemma {:induction false} NoVersions(c: Setup, disk: Disk)
    ensures LevelVersions(c, disk, []) == multiset{}
  {
    assert RowsOfAll(c, disk, []) == [];
  }

  lemma {:induction false} VersionsOfResize(c: Setup, disk: Disk, levels: Levels, n: nat)
    ensures TableVersions(c, disk, Resize(levels, n)) == TableVersions(c, disk, levels)
    decreases n
  {
    hide RowsOf, LevelVersions;
    if |levels| < n {
      VersionsOfResize(c, disk, levels, n - 1);
      assert Resize(levels, n)[..n - 1] == Resize(levels, n - 1);
      NoVersions(c, disk);
    }
  }

  lemma {:induction false} VersionsOfAdd(c: Setup, disk: Disk, levels: Levels, info: TableInfo)
    ensures TableVersions(c, disk, AddTo(levels, info))
            == TableVersions(c, disk, levels) + multiset(RowsOf(c, disk, info))
  {
    hide TableVersions, LevelVersions, Resize;
    var room := Resize(levels, info.level + 1);
    VersionsOfResize(c, disk, levels, info.level + 1);
    VersionsOfUpdate(c, disk, room, info.level, room[info.level] + [info]);
    LevelSnoc(c, disk, room[info.level], info);
    Cancel(TableVersions(c, disk, AddTo(levels, info)),
           TableVersions(c, disk, levels) + multiset(RowsOf(c, disk, info)),
           LevelVersions(c, disk, room[info.level]));
  }

  /** Only the files of registered tables matter. */
  lemma {:induction false} SameFiles(c: Setup, disk: Disk, other: Disk, levels: Levels)
    requires forall l, i {:trigger At(levels, l, i)} :: At(levels, l, i) ==>
      (levels[l][i].id in disk <==> levels[l][i].id in other)
      && (levels[l][i].id in disk ==> disk[levels[l][i].id] == other[levels[l][i].id])
    ensures TableVersions(c, disk, levels) == TableVersions(c, other, levels)
  {
    hide TableRows;
    if levels != [] {
      var n := |levels| - 1;
      forall l, i | At(levels[..n], l, i) ensures At(levels, l, i) {}
      SameFiles(c, disk, other, levels[..n]);
      forall i | 0 <= i < |levels[n]| ensures RowsOf(c, disk, levels[n][i]) == RowsOf(c, other, levels[n][i]) {
        assert At(levels, n, i);
      }
      assert RowsOfAll(c, disk, levels[n]) == RowsOfAll(c, other, levels[n]);
    }
  }

  /** Freezing moves rows from the active memtable into the queue. */
  lemma {:induction false} FreezeVersions(c: Setup, s: State)
    ensures Versions(c, s.(active := map[], frozen := s.frozen + [Enumerate(s.active)])) == Versions(c, s)
  {
    hide TableVersions, Enumerate, Flatten;
    FlattenSnoc(s.frozen, Enumerate(s.active));
    NothingToEnumerate();
  }

  /** An insert replaces the version in the active memtable, or adds one. */
  lemma {:induction false} InsertVersions(c: Setup, s: State, row: Row)
    requires Keyed(s.active)
    ensures var after := Versions(c, Inserted(c, s, row));
            if row.key in s.active
            then s.active[row.key] in Versions(c, s)
                 && after == Versions(c, s) - multiset{s.active[row.key]} + multiset{row}
            else after == Versions(c, s) + multiset{row}
  {
    hide TableVersions, Enumerate, Flatten;
    EnumerateWrite(s.active, row);
    var t := s.(active := s.active[row.key := row]);
    FreezeVersions(c, t);
    assert Versions(c, Inserted(c, s, row)) == Versions(c, t);
    hide Inserted;
    var before, after := multiset(Enumerate(s.active)), multiset(Enumerate(t.active));
    var rest := multiset(Flatten(s.frozen)) + TableVersions(c, s.disk, s.levels);
    assert Versions(c, t) == after + rest;
    assert Versions(c, s) == before + rest;
    if row.key in s.active {
      Replaced(before, after, rest, s.active[row.key], row);
    } else {
      Added(before, after, rest, row);
    }
  }

  lemma {:induction false} Replaced<T>(before: multiset<T>, after: multiset<T>, rest: multiset<T>, old0: T, new0: T)
    requires old0 in before && after == before - multiset{old0} + multiset{new0}
    ensures old0 in before + rest && after + rest == (before + rest) - multiset{old0} + multiset{new0}
  {
  }

  lemma {:induction false} Added<T>(before: multiset<T>, after: multiset<T>, rest: multiset<T>, new0: T)
    requires after == before + multiset{new0}
    ensures after + rest == before + rest + multiset{new0}
  {
  }

  lemma {:induction false} NothingToEnumerate()
    ensures Enumerate(map[]) == []
  {
  }

  /** Publishing a table under a fresh id adds its rows. */
  lemma {:induction false} PublishVersions(c: Setup, s: State, id: U64, file: TableFile, info: TableInfo)
    requires FreshId(s, id) && info.id == id
    ensures TableVersions(c, s.disk[id := file], AddTo(s.levels, info))
            == TableVersions(c, s.disk, s.levels) + multiset(TableRows(file, c.schema))
  {
    hide TableVersions, TableRows, AddTo;
    SameFiles(c, s.disk[id := file], s.disk, s.levels);
    VersionsOfAdd(c, s.disk[id := file], s.levels, info);
  }

  lemma {:induction false} EndFlushVersions(c: Setup, s: State, step: Step)
    requires Inv(c, s) && step.EndFlush? && Enabled(c, s, step)
    ensures Versions(c, Apply(c, s, step)) == Versions(c, s)
  {
    hide TableVersions, TableRows, AddTo, IsTable, TablesOk, Stored;
    var info := InfoOf(s.phase.id, 0, step.result, step.path, step.size);
    TableRowsIs(step.result.file, c.schema, s.phase.rows);
    PublishVersions(c, s, s.phase.id, step.result.file, info);
    assert Flatten(s.frozen) == s.phase.rows + Flatten(s.frozen[1..]);
  }

  /** What a compaction writes is what its source level held. */
  lemma {:induction false} EndCompactVersions(c: Setup, s: State, step: Step)
    requires Inv(c, s) && step.EndCompact? && Enabled(c, s, step)
    ensures Versions(c, Apply(c, s, step)) == Versions(c, s)
  {
    hide TableVersions, TableRows, AddTo, IsTable, TablesOk, MemoryOk, Stored, Merge, Pick, Flatten, RowsFit;
    var task, candidates := s.phase.task, s.phase.candidates;
    var info := InfoOf(s.phase.id, task.target, step.result, step.path, step.size);
    var children := RowsOfAll(c, s.disk, candidates);
    var t := Apply(c, s, step);
    var disk := s.disk[s.phase.id := step.result.file];
    CandidatesAscending(c, s, task.source);
    MergeFits(children, c.schema);
    TableRowsIs(step.result.file, c.schema, Merge(children));
    MergeKeepsAll(children);
    EndCompactKeeps(c, s, step);
    PublishVersions(c, s, s.phase.id, step.result.file, info);
    CompactedVersions(c, s, info, disk, task.source);
    assert LevelVersions(c, s.disk, candidates) == multiset(Merge(children));
    Cancel(TableVersions(c, t.disk, t.levels), TableVersions(c, s.disk, s.levels),
           LevelVersions(c, s.disk, candidates));
  }

  /** Emptying the source level takes just its rows away; its files may go. */
  lemma {:induction false} CompactedVersions(c: Setup, s: State, info: TableInfo, disk: Disk, source: nat)
    requires TablesOk(c, s) && source < |s.levels| && info.level == source + 1 && FreshId(s, info.id)
    requires info.id in disk && disk == s.disk[info.id := disk[info.id]]
    ensures source < |AddTo(s.levels, info)|
    ensures TableVersions(c, disk - IdsOf(s.levels[source]), AddTo(s.levels, info)[source := []])
              + LevelVersions(c, s.disk, s.levels[source])
            == TableVersions(c, disk, AddTo(s.levels, info))
  {
    hide TableVersions, AddTo, Stored, TableRows;
    var added := AddTo(s.levels, info);
    SourceUntouched(s.levels, source, info);
    VersionsOfUpdate(c, disk, added, source, []);
    assert RowsOfAll(c, disk, []) == [];
    assert RowsOfAll(c, disk, s.levels[source]) == RowsOfAll(c, s.disk, s.levels[source]) by {
      forall i | 0 <= i < |s.levels[source]|
        ensures s.levels[source][i].id != info.id
      {
        assert At(s.levels, source, i);
      }
    }
    var emptied: Levels := added[source := []];
    forall l, i | At(emptied, l, i) ensures emptied[l][i].id !in IdsOf(s.levels[source]) {
      assert l != source && At(added, l, i);
      OtherLevel(s.levels, source, info, l, i);
    }
    SameFiles(c, disk - IdsOf(s.levels[source]), disk, emptied);
  }

  lemma {:induction false} StillKeyed(c: Setup, s: State)
    requires Inv(c, s)
    ensures Keyed(s.active)
  {
  }

  /** Conservation: only an insert changes the rows the tree holds. */
  lemma {:induction false} StepVersions(c: Setup, s: State, step: Step)
    requires Inv(c, s) && Enabled(c, s, step)
    ensures !step.Insert? ==> Versions(c, Apply(c, s, step)) == Versions(c, s)
    ensures step.Insert? ==>
              var row, after := step.row, Versions(c, Apply(c, s, step));
              if row.key in s.active
              then s.active[row.key] in Versions(c, s)
                   && after == Versions(c, s) - multiset{s.active[row.key]} + multiset{row}
              else after == Versions(c, s) + multiset{row}
  {
    hide Inv, TableVersions, Enumerate, Flatten, Merge, IsTable, AddTo, RemoveAll;
    match step
    case Insert(row) => StillKeyed(c, s); InsertVersions(c, s, row);
    case DropEmpty => NeverEmpty(c, s);
    case BeginFlush =>
    case EndFlush(_, _, _) => EndFlushVersions(c, s, step);
    case BeginCompact =>
    case EndCompact(_, _, _) => EndCompactVersions(c, s, step);
  }
}
