/** The mock engine, a plain sorted map, and how far the rows of a tree agree with it. */
module Reference {
  import opened Seqs
  import opened Storage
  import opened SortedMaps
  import opened Registry
  import opened Engine
  import opened TableScan
  import opened Conservation

  /** The map after the inserts among these steps. */
  ghost function MockOf(steps: seq<Step>): RowMap
    decreases |steps|
  {
    if steps == [] then map[]
    else
      var before, last := MockOf(steps[..|steps| - 1]), steps[|steps| - 1];
      if last.Insert? then before[last.row.key := last.row] else before
  }

  /** The insert leaves a row of its key behind: one inserted before that is no longer in the active memtable. */
  ghost predicate Shadows(s: State, m: RowMap, row: Row) { row.key in m && row.key !in s.active }

  /** The rows that the inserts of a run left behind, in frozen memtables and tables. */
  ghost function ShadowedRows(c: Setup, steps: seq<Step>): multiset<Row>
    requires Legal(c, steps)
    decreases |steps|
  {
    if steps == [] then multiset{}
    else
      var front, last := steps[..|steps| - 1], steps[|steps| - 1];
      var before, m := ShadowedRows(c, front), MockOf(front);
      if last.Insert? && Shadows(Run(c, front), m, last.row) then before + multiset{m[last.row.key]} else before
  }

  /** Some insert of the run left behind a row of this range. */
  ghost predicate Shadowed(c: Setup, steps: seq<Step>, range: KeyRange)
    requires Legal(c, steps)
  {
    exists r :: r in ShadowedRows(c, steps) && range.Contains(r.key)
  }

  /** The active memtable holds the map's rows of its keys. */
  ghost predicate Current(active: RowMap, m: RowMap) {
    Keyed(m) && Keyed(active) && forall k :: k in active ==> k in m && m[k] == active[k]
  }

  /** The tree holds the map's rows and the ones left behind. */
  ghost predicate Agree(rows: multiset<Row>, active: RowMap, m: RowMap, shadowed: multiset<Row>) {
    && Current(active, m) && rows == multiset(Enumerate(m)) + shadowed
    && forall r :: r in shadowed ==> r.key in m
  }

  lemma {:induction false} InsertAgrees(rows: multiset<Row>, after: multiset<Row>, active: RowMap, m: RowMap,
                                        shadowed: multiset<Row>, row: Row)
    requires Agree(rows, active, m, shadowed)
    requires if row.key in active
             then active[row.key] in rows && after == rows - multiset{active[row.key]} + multiset{row}
             else after == rows + multiset{row}
    ensures var more := if row.key in m && row.key !in active then multiset{m[row.key]} else multiset{};
            Agree(after, active[row.key := row], m[row.key := row], shadowed + more)
  {
    hide Enumerate, Keyed, Current;
    StillCurrent(active, m, row);
    WriteSums(multiset(Enumerate(m)), active, m, shadowed, row);
  }

  lemma {:induction false} StillCurrent(active: RowMap, m: RowMap, row: Row)
    requires Current(active, m)
    ensures Current(active[row.key := row], m[row.key := row]) && Keyed(m)
    ensures row.key in active ==> row.key in m && m[row.key] == active[row.key]
  {
  }

  /** What the write does to the rows of the map, and to those left behind. */
  lemma {:induction false} WriteSums(mock: multiset<Row>, active: RowMap, m: RowMap, shadowed: multiset<Row>, row: Row)
    requires Keyed(m) && mock == multiset(Enumerate(m))
    requires row.key in active ==> row.key in m && m[row.key] == active[row.key]
    ensures var written := multiset(Enumerate(m[row.key := row]));
            if row.key in active then mock + shadowed - multiset{active[row.key]} + multiset{row} == written + shadowed
            else if row.key in m then mock + shadowed + multiset{row} == written + (shadowed + multiset{m[row.key]})
            else mock + shadowed + multiset{row} == written + (shadowed + multiset{})
  {
    hide Enumerate, Keyed;
    EnumerateWrite(m, row);
    if row.key in active {
      Swapped(mock, shadowed, m[row.key], row);
    } else if row.key in m {
      LeftBehind(mock, shadowed, m[row.key], row);
    }
  }

  lemma {:induction false} Swapped(mock: multiset<Row>, shadowed: multiset<Row>, gone: Row, row: Row)
    requires gone in mock
    ensures mock + shadowed - multiset{gone} + multiset{row} == mock - multiset{gone} + multiset{row} + shadowed
  {
  }

  lemma {:induction false} LeftBehind(mock: multiset<Row>, shadowed: multiset<Row>, gone: Row, row: Row)
    requires gone in mock
    ensures mock + shadowed + multiset{row} == mock - multiset{gone} + multiset{row} + (shadowed + multiset{gone})
  {
  }

  lemma {:induction false} StepAgrees(c: Setup, s: State, step: Step, m: RowMap, shadowed: multiset<Row>)
    requires Inv(c, s) && Enabled(c, s, step) && Agree(Versions(c, s), s.active, m, shadowed)
    ensures var t, m' := Apply(c, s, step), if step.Insert? then m[step.row.key := step.row] else m;
            var more := if step.Insert? && Shadows(s, m, step.row) then multiset{m[step.row.key]} else multiset{};
            Agree(Versions(c, t), t.active, m', shadowed + more)
  {
    hide Inv, Versions, AddTo, RemoveAll, Enumerate, Agree;
    StepVersions(c, s, step);
    if step.Insert? {
      var row := step.row;
      var more := if Shadows(s, m, row) then multiset{m[row.key]} else multiset{};
      InsertAgrees(Versions(c, s), Versions(c, Apply(c, s, step)), s.active, m, shadowed, row);
      ForgetActive(Versions(c, Apply(c, s, step)), s.active[row.key := row], m[row.key := row], shadowed + more);
    } else {
      assert shadowed + multiset{} == shadowed;
    }
  }

  lemma {:induction false} ForgetActive(rows: multiset<Row>, active: RowMap, m: RowMap, shadowed: multiset<Row>)
    requires Agree(rows, active, m, shadowed)
    ensures Agree(rows, map[], m, shadowed)
  {
    hide Enumerate;
  }

  /** After any run the tree holds exactly the map's rows and the ones that inserts left behind. */
  lemma {:induction false} RunAgrees(c: Setup, steps: seq<Step>)
    requires Legal(c, steps)
    ensures Agree(Versions(c, Run(c, steps)), Run(c, steps).active, MockOf(steps), ShadowedRows(c, steps))
    decreases |steps|
  {
    hide Apply, Enabled, Inv, Shadows, Agree, Versions;
    if steps == [] {
      EmptyAgrees(c);
    } else {
      var before := steps[..|steps| - 1];
      RunAgrees(c, before);
      Reachable(c, before);
      StepAgrees(c, Run(c, before), steps[|steps| - 1], MockOf(before), ShadowedRows(c, before));
      assert ShadowedRows(c, before) + multiset{} == ShadowedRows(c, before);
    }
  }

  lemma {:induction false} EmptyAgrees(c: Setup)
    ensures Agree(Versions(c, EMPTY), map[], map[], multiset{})
  {
    NothingToEnumerate();
  }

  /** On the keys of a range, the tree holds the map's rows and no others. */
  ghost predicate SameRows(rows: multiset<Row>, m: RowMap, range: KeyRange) {
    forall r: Row :: range.Contains(r.key) ==> rows[r] == multiset(Enumerate(m))[r]
  }

  /** On a range of keys, the rows of the tree are those of the map exactly when none of the range was left behind. */
  lemma {:induction false} VersionsAreMock(c: Setup, steps: seq<Step>, range: KeyRange)
    requires Legal(c, steps)
    ensures Keyed(MockOf(steps))
    ensures SameRows(Versions(c, Run(c, steps)), MockOf(steps), range) <==> !Shadowed(c, steps, range)
  {
    hide Versions, Enumerate, Run, ShadowedRows, MockOf;
    RunAgrees(c, steps);
    var rows, mock, shadowed := Versions(c, Run(c, steps)), multiset(Enumerate(MockOf(steps))), ShadowedRows(c, steps);
    forall r: Row ensures rows[r] == mock[r] + shadowed[r] {}
    if Shadowed(c, steps, range) {
      var r :| r in shadowed && range.Contains(r.key);
      assert rows[r] != mock[r];
    }
  }

  /** A key is in the tree twice exactly when a row of it was left behind. */
  lemma {:induction false} HeldTwiceIsShadowed(c: Setup, steps: seq<Step>, key: Key)
    requires Legal(c, steps)
    ensures HeldTwice(Versions(c, Run(c, steps)), key) <==> exists r :: r in ShadowedRows(c, steps) && r.key == key
  {
    hide Versions, Enumerate, Run, ShadowedRows, MockOf;
    RunAgrees(c, steps);
    var rows, m, shadowed := Versions(c, Run(c, steps)), MockOf(steps), ShadowedRows(c, steps);
    forall r: Row ensures multiset(Enumerate(m))[r] == if r.key in m && m[r.key] == r then 1 else 0 {
      EnumerateCounts(m, r);
    }
    if r :| r in shadowed && r.key == key {
      assert m[key].key == key && m[key] in rows && r in rows;
    }
  }

  /** With a threshold of one row, inserting a key twice leaves the older row behind. */
  lemma {:induction false} ShadowedRun(c: Setup, older: Row, newer: Row)
    requires RowFits(older, c.schema) && RowFits(newer, c.schema) && older.key == newer.key && c.config.threshold <= 1
    ensures var steps := [Insert(older), Insert(newer)];
            Legal(c, steps) && ShadowedRows(c, steps) == multiset{older}
  {
    hide RowFits, Enumerate;
    var one, steps := [Insert(older)], [Insert(older), Insert(newer)];
    assert steps[..1] == one && one[..0] == [];
    assert Legal(c, one);
    assert MockOf(one) == map[older.key := older];
    assert |EMPTY.active[older.key := older]| == 1;
    assert Run(c, one).active == map[];
    assert ShadowedRows(c, one) == multiset{};
  }
}
