/** What a scan of the tree emits at a point where the lock is held, against the mock engine. */
module Snapshot {
  import opened Seqs
  import opened Storage
  import opened SortedMaps
  import opened Pruning
  import opened Codec
  import opened Tables
  import opened TableScan
  import opened Merging
  import opened Cursors
  import opened Registry
  import opened Engine
  import opened Conservation
  import opened Reference
  import opened Memory

  // ---------- scan ----------

  function FilterAllOf(sources: seq<seq<Row>>, range: KeyRange): (parts: seq<seq<Row>>)
    ensures |parts| == |sources| && forall i :: 0 <= i < |sources| ==> parts[i] == Filter(sources[i], range.Has())
  {
    seq(|sources|, i requires 0 <= i < |sources| => Filter(sources[i], range.Has()))
  }

  ghost function MemorySources(s: State): seq<seq<Row>> { [Enumerate(s.active)] + s.frozen }

  /** The tables that overlap the range, level after level. */
  function TablesIn(levels: Levels, range: KeyRange): seq<TableInfo> { Filter(Flatten(levels), OverlapTest(range)) }

  function ReadTable(c: Setup, disk: Disk, info: TableInfo, request: Request): Result<seq<Row>> {
    if info.id in disk then ScanTable(disk[info.id], c.schema, request) else Err
  }

  function TableParts(c: Setup, disk: Disk, infos: seq<TableInfo>, request: Request): (parts: seq<seq<Row>>)
    ensures |parts| == |infos|
    ensures forall i :: 0 <= i < |infos| && ReadTable(c, disk, infos[i], request).Ok? ==>
              parts[i] == ReadTable(c, disk, infos[i], request).value
  {
    seq(|infos|, i requires 0 <= i < |infos| =>
      var r := ReadTable(c, disk, infos[i], request); if r.Ok? then r.value else [])
  }

  /** The children of the scan's cursor: the active memtable, the frozen ones, the tables. */
  ghost function Children(c: Setup, s: State, request: Request): seq<seq<Row>> {
    FilterAllOf(MemorySources(s), request.range) + TableParts(c, s.disk, TablesIn(s.levels, request.range), request)
  }

  /**
   The walk over every memtable meets its end: no row of memory lies between the ends of an inverted range.
   Otherwise the first iterator of a memtable stands behind its last one, and there is no telling what is shown.
   */
  ghost predicate Walkable(s: State, range: KeyRange) {
    forall i :: 0 <= i < |MemorySources(s)| ==> !Overrun(MemorySources(s)[i], range)
  }

  lemma {:induction false} OrderedIsWalkable(s: State, range: KeyRange)
    requires range.Ordered()
    ensures Walkable(s, range)
  {
  }

  ghost function Scan(c: Setup, s: State, request: Request, order: ScanOrder): seq<Row>
    requires Walkable(s, request.range)
  {
    Composed(Children(c, s, request), order)
  }

  // ---------- Masks and merges ----------

  lemma {:induction false} MaskTwice(row: Row, columns: set<nat>)
    ensures row.Mask(columns).Mask(columns) == row.Mask(columns)
  {
  }

  lemma {:induction false} MaskRowsTwice(rows: seq<Row>, columns: set<nat>)
    ensures MaskRows(MaskRows(rows, columns), columns) == MaskRows(rows, columns)
  {
    forall i | 0 <= i < |rows| ensures rows[i].Mask(columns).Mask(columns) == rows[i].Mask(columns) {
      MaskTwice(rows[i], columns);
    }
  }

  /** The children are masks of these. */
  ghost predicate MasksOf(children: seq<seq<Row>>, originals: seq<seq<Row>>, columns: set<nat>) {
    |children| == |originals| && forall i ::
      0 <= i < |children| ==> MaskRows(children[i], columns) == MaskRows(originals[i], columns)
  }

  /** Masks keep keys, so a merge looks at the same heads. */
  lemma {:induction false} MergeMasked(children: seq<seq<Row>>, originals: seq<seq<Row>>, columns: set<nat>)
    requires MasksOf(children, originals, columns)
    ensures MaskRows(Merge(children), columns) == MaskRows(Merge(originals), columns)
    decreases |Flatten(children)|
  {
    SameTop(children, originals, columns);
    var top := Top(children);
    if top.Some? {
      var t := top.value;
      SameHead(children[t], originals[t], columns);
      AdvanceShrinks(children, t);
      AdvanceShrinks(originals, t);
      MergeMasked(Advance(children, t), Advance(originals, t), columns);
      MaskRowsCons(Merge(children), columns);
      MaskRowsCons(Merge(originals), columns);
    }
  }

  lemma {:induction false} SameHead(a: seq<Row>, b: seq<Row>, columns: set<nat>)
    requires MaskRows(a, columns) == MaskRows(b, columns)
    ensures |a| == |b|
    ensures a != [] ==> a[0].key == b[0].key && a[0].Mask(columns) == b[0].Mask(columns)
                        && MaskRows(a[1..], columns) == MaskRows(b[1..], columns)
  {
    assert |MaskRows(a, columns)| == |MaskRows(b, columns)|;
    if a != [] {
      assert a[0].Mask(columns) == MaskRows(a, columns)[0] == MaskRows(b, columns)[0] == b[0].Mask(columns);
      MaskKeeps(a[0], columns);
      MaskKeeps(b[0], columns);
      MaskRowsCons(a, columns);
      MaskRowsCons(b, columns);
      assert MaskRows(a, columns)[1..] == MaskRows(b, columns)[1..];
    }
  }

  lemma {:induction false} SameTop(children: seq<seq<Row>>, originals: seq<seq<Row>>, columns: set<nat>)
    requires MasksOf(children, originals, columns)
    ensures Top(children) == Top(originals)
  {
    hide MaskRows;
    forall i | 0 <= i < |children|
      ensures |children[i]| == |originals[i]| && (children[i] != [] ==> children[i][0].key == originals[i][0].key)
    {
      SameHead(children[i], originals[i], columns);
    }
    var top := Top(originals);
    if top.None? {
      assert Exhausted(children);
    } else {
      assert children[top.value] != [];
      TopIs(children, top.value);
    }
  }

  lemma {:induction false} FlattenMasked(children: seq<seq<Row>>, originals: seq<seq<Row>>, columns: set<nat>)
    requires MasksOf(children, originals, columns)
    ensures MaskRows(Flatten(children), columns) == MaskRows(Flatten(originals), columns)
  {
    hide MaskRows;
    if children != [] {
      FlattenMasked(children[1..], originals[1..], columns);
      MaskConcat(children[0], Flatten(children[1..]), columns);
      MaskConcat(originals[0], Flatten(originals[1..]), columns);
    }
  }

  // ---------- Parts of the versions ----------

  lemma {:induction false} FlattenWithin(parts: seq<seq<Row>>, sources: seq<seq<Row>>)
    requires |parts| == |sources| && forall i :: 0 <= i < |parts| ==> multiset(parts[i]) <= multiset(sources[i])
    ensures multiset(Flatten(parts)) <= multiset(Flatten(sources))
  {
    if parts != [] {
      FlattenWithin(parts[1..], sources[1..]);
      assert multiset(parts[0] + Flatten(parts[1..])) == multiset(parts[0]) + multiset(Flatten(parts[1..]));
      assert multiset(sources[0] + Flatten(sources[1..])) == multiset(sources[0]) + multiset(Flatten(sources[1..]));
    }
  }

  lemma {:induction false} RowsOfConcat(c: Setup, disk: Disk, a: seq<TableInfo>, b: seq<TableInfo>)
    ensures RowsOfAll(c, disk, a + b) == RowsOfAll(c, disk, a) + RowsOfAll(c, disk, b)
  {
    hide RowsOf;
  }

  lemma {:induction false} RowsOfCons(c: Setup, disk: Disk, info: TableInfo, rest: seq<TableInfo>)
    ensures Flatten(RowsOfAll(c, disk, [info] + rest)) == RowsOf(c, disk, info) + Flatten(RowsOfAll(c, disk, rest))
  {
    hide RowsOf;
    RowsOfConcat(c, disk, [info], rest);
    assert RowsOfAll(c, disk, [info]) == [RowsOf(c, disk, info)];
    FlattenConcat([RowsOf(c, disk, info)], RowsOfAll(c, disk, rest));
    OnePart(RowsOf(c, disk, info));
  }

  lemma {:induction false} RowsOfFiltered(c: Setup, disk: Disk, infos: seq<TableInfo>, p: TableInfo -> bool)
    ensures multiset(Flatten(RowsOfAll(c, disk, Filter(infos, p)))) <= multiset(Flatten(RowsOfAll(c, disk, infos)))
  {
    hide RowsOf, RowsOfAll, Flatten;
    if infos != [] {
      var rest := infos[1..];
      RowsOfFiltered(c, disk, rest, p);
      assert infos == [infos[0]] + rest;
      RowsOfCons(c, disk, infos[0], rest);
      if p(infos[0]) { RowsOfCons(c, disk, infos[0], Filter(rest, p));
                      } else { assert Filter(infos, p) == Filter(rest, p); }
    }
  }

  /** A row that no dropped table has is there as often. */
  lemma {:induction false} RowsOfKept(c: Setup, disk: Disk, infos: seq<TableInfo>, p: TableInfo -> bool, r: Row)
    requires forall info :: info in infos && r in RowsOf(c, disk, info) ==> p(info)
    ensures multiset(Flatten(RowsOfAll(c, disk, Filter(infos, p))))[r]
            == multiset(Flatten(RowsOfAll(c, disk, infos)))[r]
  {
    hide RowsOf, RowsOfAll, Flatten;
    if infos != [] {
      var rest := infos[1..];
      RowsOfKept(c, disk, rest, p, r);
      assert infos == [infos[0]] + rest && infos[0] in infos;
      RowsOfCons(c, disk, infos[0], rest);
      CountOfConcat(RowsOf(c, disk, infos[0]), Flatten(RowsOfAll(c, disk, rest)), r);
      if p(infos[0]) {
        RowsOfCons(c, disk, infos[0], Filter(rest, p));
        CountOfConcat(RowsOf(c, disk, infos[0]), Flatten(RowsOfAll(c, disk, Filter(rest, p))), r);
      } else {
        assert Filter(infos, p) == Filter(rest, p);
      }
    }
  }

  /** The versions in tables, as one list. */
  lemma {:induction false} TableVersionsAre(c: Setup, disk: Disk, levels: Levels)
    ensures TableVersions(c, disk, levels) == multiset(Flatten(RowsOfAll(c, disk, Flatten(levels))))
  {
    hide RowsOf, RowsOfAll, Flatten;
    if levels == [] {
      NoRows(c, disk);
    } else {
      var front, last := levels[..|levels| - 1], levels[|levels| - 1];
      TableVersionsAre(c, disk, front);
      assert levels == front + [last];
      FlattenSnoc(front, last);
      RowsOfConcat(c, disk, Flatten(front), last);
      FlattenConcat(RowsOfAll(c, disk, Flatten(front)), RowsOfAll(c, disk, last));
    }
  }

  lemma {:induction false} NoRows(c: Setup, disk: Disk)
    ensures Flatten(RowsOfAll(c, disk, Flatten([]))) == []
  {
    assert Flatten<TableInfo>([]) == [] && RowsOfAll(c, disk, []) == [];
  }

  /** All sources of a scan: memory, then every table. */
  ghost function Sources(c: Setup, s: State): seq<seq<Row>> {
    MemorySources(s) + RowsOfAll(c, s.disk, Flatten(s.levels))
  }

  lemma {:induction false} SourcesAreVersions(c: Setup, s: State)
    ensures multiset(Flatten(Sources(c, s))) == Versions(c, s)
  {
    hide Enumerate, TableVersions, RowsOfAll, Flatten;
    var tables := RowsOfAll(c, s.disk, Flatten(s.levels));
    TableVersionsAre(c, s.disk, s.levels);
    FlattenConcat(MemorySources(s), tables);
    FlattenConcat([Enumerate(s.active)], s.frozen);
    OnePart(Enumerate(s.active));
  }

  lemma {:induction false} OnePart<T>(part: seq<T>)
    ensures Flatten([part]) == part
  {
    assert [part][1..] == [];
  }

  // ---------- Each child against its source ----------

  lemma {:induction false} Registered(c: Setup, s: State, info: TableInfo)
    requires TablesOk(c, s) && info in Flatten(s.levels)
    ensures InfoOk(c, s.disk, s.nextId, info)
  {
    hide InfoOk;
    InFlatten(s.levels, info);
    var l :| 0 <= l < |s.levels| && info in s.levels[l];
    var i :| 0 <= i < |s.levels[l]| && s.levels[l][i] == info;
    assert At(s.levels, l, i);
  }

  /** Reading a registered table answers the request on its rows. */
  lemma {:induction false} TableAnswers(c: Setup, s: State, info: TableInfo, request: Request)
    requires TablesOk(c, s) && info in Flatten(s.levels) && FilterFits(request.filter, c.schema)
    ensures ReadTable(c, s.disk, info, request).Ok?
    ensures Answers(ReadTable(c, s.disk, info, request).value, RowsOf(c, s.disk, info), request)
  {
    hide ScanTable, IsTable, TableRows, Answers, TablesOk, FilterFits, Flatten, RowFits;
    Registered(c, s, info);
    ScanTableCorrect(s.disk[info.id], c.schema, RowsOf(c, s.disk, info), request);
  }

  /** The rows that a table answers with. */
  ghost function SelectedBy(emitted: seq<Row>, rows: seq<Row>, request: Request): (selected: seq<Row>)
    requires Answers(emitted, rows, request)
    ensures emitted == MaskRows(selected, request.projected) && Selects(selected, multiset(rows), request)
  {
    var selected :| emitted == MaskRows(selected, request.projected) && Selects(selected, multiset(rows), request);
    selected
  }

  lemma {:induction false} MemorySelects(rows: seq<Row>, request: Request)
    requires Ascending(rows)
    ensures Selects(Filter(rows, request.range.Has()), multiset(rows), request)
  {
    var part := Filter(rows, request.range.Has());
    FilterAscending(rows, request.range.Has());
    WeakerAscending(part);
    InFilter(rows, request.range.Has());
    forall r: Row
      ensures multiset(part)[r] <= multiset(rows)[r]
      ensures request.range.Contains(r.key) ==> multiset(part)[r] == multiset(rows)[r]
    {
      FilterMultiset(rows, request.range.Has(), r);
    }
  }

  // ---------- All children together ----------

  ghost predicate AllSelect(parts: seq<seq<Row>>, sources: seq<seq<Row>>, request: Request) {
    |parts| == |sources| && forall i :: 0 <= i < |parts| ==> Selects(parts[i], multiset(sources[i]), request)
  }

  /** Every table can be read and answers. */
  ghost predicate AllAnswer(c: Setup, disk: Disk, infos: seq<TableInfo>, request: Request) {
    forall i :: 0 <= i < |infos| ==>
      && ReadTable(c, disk, infos[i], request).Ok?
      && Answers(ReadTable(c, disk, infos[i], request).value, RowsOf(c, disk, infos[i]), request)
  }

  /** No table that the scan opens fails to be read. */
  ghost predicate ReadsSucceed(c: Setup, s: State, request: Request) {
    forall info :: info in TablesIn(s.levels, request.range) ==> ReadTable(c, s.disk, info, request).Ok?
  }

  lemma {:induction false} AnswersAreRead(c: Setup, s: State, request: Request)
    requires AllAnswer(c, s.disk, TablesIn(s.levels, request.range), request)
    ensures ReadsSucceed(c, s, request)
  {
    hide ReadTable, TablesIn, Answers, RowsOf;
    var infos := TablesIn(s.levels, request.range);
    forall info | info in infos ensures ReadTable(c, s.disk, info, request).Ok? {
      var i :| 0 <= i < |infos| && infos[i] == info;
    }
  }

  ghost function Chosen(c: Setup, disk: Disk, infos: seq<TableInfo>, request: Request): (chosen: seq<seq<Row>>)
    requires AllAnswer(c, disk, infos, request)
    ensures AllSelect(chosen, RowsOfAll(c, disk, infos), request)
    ensures MasksOf(TableParts(c, disk, infos, request), chosen, request.projected)
  {
    var chosen := seq(|infos|, i requires 0 <= i < |infos| =>
      SelectedBy(ReadTable(c, disk, infos[i], request).value, RowsOf(c, disk, infos[i]), request));
    assert MasksOf(TableParts(c, disk, infos, request), chosen, request.projected) by {
      forall i | 0 <= i < |infos| { MaskRowsTwice(chosen[i], request.projected); }
    }
    chosen
  }

  lemma {:induction false} TablesAnswer(c: Setup, s: State, request: Request)
    requires TablesOk(c, s) && FilterFits(request.filter, c.schema)
    ensures AllAnswer(c, s.disk, TablesIn(s.levels, request.range), request)
  {
    hide ReadTable, RowsOf, TablesOk, Answers, Flatten, FilterFits;
    var infos := TablesIn(s.levels, request.range);
    InFilter(Flatten(s.levels), OverlapTest(request.range));
    forall i | 0 <= i < |infos|
      ensures ReadTable(c, s.disk, infos[i], request).Ok?
      ensures Answers(ReadTable(c, s.disk, infos[i], request).value, RowsOf(c, s.disk, infos[i]), request)
    {
      assert infos[i] in infos;
      TableAnswers(c, s, infos[i], request);
    }
  }

  lemma {:induction false} MemoryAscending(c: Setup, s: State)
    requires MemoryOk(c, s)
    ensures forall i :: 0 <= i < |MemorySources(s)| ==> Ascending(MemorySources(s)[i])
  {
    hide Enumerate, RowsFit;
    EnumerateSorts(s.active);
  }

  lemma {:induction false} MemoryAllSelect(c: Setup, s: State, request: Request)
    requires MemoryOk(c, s)
    ensures AllSelect(FilterAllOf(MemorySources(s), request.range), MemorySources(s), request)
  {
    hide MemoryOk, Enumerate, Filter, Selects, Ascending;
    MemoryAscending(c, s);
    var sources := MemorySources(s);
    forall i | 0 <= i < |sources|
      ensures Selects(Filter(sources[i], request.range.Has()), multiset(sources[i]), request)
    {
      MemorySelects(sources[i], request);
    }
  }

  lemma {:induction false} ReadWithin(c: Setup, s: State, range: KeyRange)
    ensures multiset(Flatten(MemorySources(s) + RowsOfAll(c, s.disk, TablesIn(s.levels, range)))) <= Versions(c, s)
  {
    hide Enumerate, TableVersions, RowsOfAll, Flatten, Filter;
    var all, some := RowsOfAll(c, s.disk, Flatten(s.levels)), RowsOfAll(c, s.disk, TablesIn(s.levels, range));
    RowsOfFiltered(c, s.disk, Flatten(s.levels), OverlapTest(range));
    SourcesAreVersions(c, s);
    FlattenConcat(MemorySources(s), all);
    FlattenConcat(MemorySources(s), some);
  }

  /** Every version inside the range is read as often as it is there. */
  lemma {:induction false} VersionIsRead(c: Setup, s: State, range: KeyRange, r: Row)
    requires TablesOk(c, s) && range.Contains(r.key)
    ensures multiset(Flatten(MemorySources(s) + RowsOfAll(c, s.disk, TablesIn(s.levels, range))))[r]
            == Versions(c, s)[r]
  {
    hide Versions, Enumerate, TablesOk, Flatten, RowsOf, Filter, RowsOfAll;
    var infos := Flatten(s.levels);
    var memory, all := MemorySources(s), RowsOfAll(c, s.disk, infos);
    var some := RowsOfAll(c, s.disk, TablesIn(s.levels, range));
    forall info | info in infos && r in RowsOf(c, s.disk, info) ensures OverlapTest(range)(info) {
      RowOverlaps(c, s, info, range, r);
    }
    RowsOfKept(c, s.disk, infos, OverlapTest(range), r);
    SourcesAreVersions(c, s);
    FlattenConcat(memory, all);
    FlattenConcat(memory, some);
    CountOfConcat(Flatten(memory), Flatten(all), r);
    CountOfConcat(Flatten(memory), Flatten(some), r);
  }

  lemma {:induction false} RowOverlaps(c: Setup, s: State, info: TableInfo, range: KeyRange, r: Row)
    requires TablesOk(c, s) && info in Flatten(s.levels) && r in RowsOf(c, s.disk, info) && range.Contains(r.key)
    ensures OverlapTest(range)(info)
  {
    hide TablesOk, Flatten, TableRows, IsTable, RowsFit;
    Registered(c, s, info);
    var rows := RowsOf(c, s.disk, info);
    var i :| 0 <= i < |rows| && rows[i] == r;
    assert rows[0].key <= rows[i].key <= rows[|rows| - 1].key;
  }

  lemma {:induction false} HeldTwiceMore(few: multiset<Row>, many: multiset<Row>, key: Key)
    requires few <= many && HeldTwice(few, key)
    ensures HeldTwice(many, key)
  {
  }

  /** The parts of the sources show each row as often, in all. */
  lemma {:induction false} PartsCount(parts: seq<seq<Row>>, sources: seq<seq<Row>>, r: Row)
    requires |parts| == |sources|
    requires forall i :: 0 <= i < |parts| ==> multiset(parts[i])[r] == multiset(sources[i])[r]
    ensures multiset(Flatten(parts))[r] == multiset(Flatten(sources))[r]
  {
    if parts != [] {
      PartsCount(parts[1..], sources[1..], r);
      CountOfConcat(parts[0], Flatten(parts[1..]), r);
      CountOfConcat(sources[0], Flatten(sources[1..]), r);
    }
  }

  lemma {:induction false} PartOfSources(sources: seq<seq<Row>>, i: nat)
    requires i < |sources|
    ensures multiset(sources[i]) <= multiset(Flatten(sources))
  {
    var rest := sources[1..];
    assert multiset(sources[0] + Flatten(rest)) == multiset(sources[0]) + multiset(Flatten(rest));
    if i > 0 {
      PartOfSources(rest, i - 1);
      assert rest[i - 1] == sources[i];
    }
  }

  /** Merging what is selected of every source selects from all of them. */
  lemma {:induction false} MergeSelects(parts: seq<seq<Row>>, sources: seq<seq<Row>>, request: Request)
    requires AllSelect(parts, sources, request)
    ensures Selects(Merge(parts), multiset(Flatten(sources)), request)
  {
    hide Merge, Flatten, Passes, HeldTwice, WeaklyAscending;
    var all := multiset(Flatten(sources));
    forall i | 0 <= i < |parts| ensures WeaklyAscending(parts[i]) && multiset(parts[i]) <= multiset(sources[i]) {
      assert Selects(parts[i], multiset(sources[i]), request);
    }
    FlattenWithin(parts, sources);
    MergeKeepsAll(parts);
    MergeAscending(parts);
    forall r | r in Merge(parts) ensures request.range.Contains(r.key) {
      InMerge(parts, r);
      var i :| 0 <= i < |parts| && r in parts[i];
      assert Selects(parts[i], multiset(sources[i]), request);
    }
    forall r: Row | request.range.Contains(r.key) && Passes(request.filter, r) && !MayHide(all, request.range, r.key)
      ensures multiset(Merge(parts))[r] == all[r]
    {
      forall i | 0 <= i < |parts| ensures multiset(parts[i])[r] == multiset(sources[i])[r] {
        assert Selects(parts[i], multiset(sources[i]), request);
        PartOfSources(sources, i);
        if MayHide(multiset(sources[i]), request.range, r.key) { HeldTwiceMore(multiset(sources[i]), all, r.key); }
      }
      PartsCount(parts, sources, r);
    }
  }

  /** What is selected of the rows read is selected of all, when those of the range are all read. */
  lemma {:induction false} SelectsOfAll(selected: seq<Row>, few: multiset<Row>, many: multiset<Row>, request: Request)
    requires Selects(selected, few, request) && few <= many
    requires forall r: Row :: request.range.Contains(r.key) ==> few[r] == many[r]
    ensures Selects(selected, many, request)
  {
    hide Passes, HeldTwice, WeaklyAscending;
    forall r: Row | request.range.Contains(r.key) && Passes(request.filter, r) && !MayHide(many, request.range, r.key)
      ensures multiset(selected)[r] == many[r]
    {
      if MayHide(few, request.range, r.key) { HeldTwiceMore(few, many, r.key); }
    }
  }

  /** The scan emits these rows, in key order when that is asked for. */
  ghost predicate ScanEmits(c: Setup, s: State, request: Request, selected: seq<Row>)
    requires Walkable(s, request.range)
  {
    && MaskRows(Scan(c, s, request, KeyAscending), request.projected) == MaskRows(selected, request.projected)
    && multiset(MaskRows(Scan(c, s, request, Unordered), request.projected))
       == multiset(MaskRows(selected, request.projected))
  }

  lemma {:induction false} MaskMultiset(a: seq<Row>, b: seq<Row>, columns: set<nat>)
    requires multiset(a) == multiset(b)
    ensures multiset(MaskRows(a, columns)) == multiset(MaskRows(b, columns))
  {
    MapMultiset(a, b, Masking(columns));
  }

  lemma {:induction false} MasksConcat(a: seq<seq<Row>>, b: seq<seq<Row>>, x: seq<seq<Row>>, y: seq<seq<Row>>,
                                       columns: set<nat>)
    requires MasksOf(a, x, columns) && MasksOf(b, y, columns)
    ensures MasksOf(a + b, x + y, columns)
  {
    hide MaskRows;
  }

  lemma {:induction false} SelectConcat(a: seq<seq<Row>>, b: seq<seq<Row>>, x: seq<seq<Row>>, y: seq<seq<Row>>,
                                        request: Request)
    requires AllSelect(a, x, request) && AllSelect(b, y, request)
    ensures AllSelect(a + b, x + y, request)
  {
    hide Selects;
  }

  /** A scan whose children are masks of these parts emits their merge. */
  lemma {:induction false} EmitsMerge(c: Setup, s: State, request: Request, parts: seq<seq<Row>>)
    requires Walkable(s, request.range) && MasksOf(Children(c, s, request), parts, request.projected)
    ensures ScanEmits(c, s, request, Merge(parts))
  {
    hide Children, Merge, Flatten, MaskRows, MasksOf, Walkable;
    MergeMasked(Children(c, s, request), parts, request.projected);
    FlattenMasked(Children(c, s, request), parts, request.projected);
    MergeKeepsAll(parts);
    MaskMultiset(Flatten(parts), Merge(parts), request.projected);
  }

  /** The parts that a scan's children show, and the sources they were selected from. */
  lemma {:induction false} Gather(c: Setup, s: State, request: Request)
    returns (parts: seq<seq<Row>>, sources: seq<seq<Row>>)
    requires MemoryOk(c, s) && TablesOk(c, s) && FilterFits(request.filter, c.schema)
    ensures sources == MemorySources(s) + RowsOfAll(c, s.disk, TablesIn(s.levels, request.range))
    ensures AllSelect(parts, sources, request) && MasksOf(Children(c, s, request), parts, request.projected)
    ensures ReadsSucceed(c, s, request)
  {
    hide MemoryOk, TablesOk, Enumerate, Selects, MaskRows, RowsOfAll, TableParts, TablesIn, MemorySources, FilterFits,
         AllAnswer, AllSelect, ReadsSucceed;
    var infos := TablesIn(s.levels, request.range);
    TablesAnswer(c, s, request);
    AnswersAreRead(c, s, request);
    MemoryAllSelect(c, s, request);
    var memory, tables := FilterAllOf(MemorySources(s), request.range), Chosen(c, s.disk, infos, request);
    parts := memory + tables;
    sources := MemorySources(s) + RowsOfAll(c, s.disk, infos);
    SelectConcat(memory, tables, MemorySources(s), RowsOfAll(c, s.disk, infos), request);
    SameMasks(memory, request.projected);
    MasksConcat(memory, TableParts(c, s.disk, infos, request), memory, tables, request.projected);
  }

  lemma {:induction false} SameMasks(parts: seq<seq<Row>>, columns: set<nat>)
    ensures MasksOf(parts, parts, columns)
  {
    hide MaskRows;
  }

  /**
   In every state, a scan emits versions of its range, in key order when that is asked for: none more often
   than the tree holds it, and those that pass the skipping filter as often, but for a key that the range
   starts on and that is there twice. No read of a table fails.
   */
  lemma {:induction false} ScanShows(c: Setup, s: State, request: Request) returns (selected: seq<Row>)
    requires Inv(c, s) && Walkable(s, request.range) && FilterFits(request.filter, c.schema)
    ensures Selects(selected, Versions(c, s), request) && ScanEmits(c, s, request, selected)
            && ReadsSucceed(c, s, request)
  {
    hide ReadsSucceed, MemoryOk, TablesOk, PhaseOk, Versions, Merge, Flatten, Selects, MaskRows, RowsOfAll, TableParts,
         TablesIn, MemorySources, FilterFits, ScanEmits, AllSelect, MasksOf, Children, Walkable;
    var parts, sources := Gather(c, s, request);
    ReadWithin(c, s, request.range);
    forall r: Row | request.range.Contains(r.key) ensures multiset(Flatten(sources))[r] == Versions(c, s)[r] {
      VersionIsRead(c, s, request.range, r);
    }
    MergeSelects(parts, sources, request);
    selected := Merge(parts);
    SelectsOfAll(selected, multiset(Flatten(sources)), Versions(c, s), request);
    EmitsMerge(c, s, request, parts);
  }

  // ---------- Main results ----------

  /** Rows of a map, strictly ascending, inside the range, and among them all that pass the filter. */
  ghost predicate SelectsFromMap(selected: seq<Row>, m: RowMap, request: Request) {
    && Ascending(selected)
    && (forall r :: r in selected ==> r in Enumerate(m) && request.range.Contains(r.key))
    && (forall r :: r in Enumerate(m) && request.range.Contains(r.key) && Passes(request.filter, r) ==> r in selected)
  }

  lemma {:induction false} TwiceIn<T>(rows: seq<T>, i: nat, j: nat)
    requires i < j < |rows| && rows[i] == rows[j]
    ensures multiset(rows)[rows[i]] >= 2
  {
    assert rows == rows[..j] + [rows[j]] + rows[j + 1..];
    assert rows[..j][i] == rows[i];
  }

  /** Ascending rows no key of which is there twice are strictly ascending. */
  lemma {:induction false} OnceIsStrict(rows: seq<Row>)
    requires WeaklyAscending(rows) && forall r :: r in rows ==> !HeldTwice(multiset(rows), r.key)
    ensures Ascending(rows)
  {
    forall i, j | 0 <= i < j < |rows| ensures rows[i].key < rows[j].key {
      if rows[i] == rows[j] { TwiceIn(rows, i, j); }
      assert rows[i] in multiset(rows) && rows[j] in multiset(rows);
    }
  }

  /** Where the rows of the range are the map's, and none twice, so is what is selected of them. */
  lemma {:induction false} FromMap(selected: seq<Row>, rows: multiset<Row>, m: RowMap, request: Request)
    requires Keyed(m) && Selects(selected, rows, request) && SameRows(rows, m, request.range)
    requires forall key :: request.range.Contains(key) ==> !HeldTwice(rows, key)
    ensures SelectsFromMap(selected, m, request)
  {
    hide Enumerate, Passes, HeldTwice, WeaklyAscending, Ascending;
    forall r | r in selected ensures r in Enumerate(m) && !HeldTwice(multiset(selected), r.key) {
      assert r in multiset(selected) && multiset(Enumerate(m))[r] == rows[r];
      if HeldTwice(multiset(selected), r.key) { HeldTwiceMore(multiset(selected), rows, r.key); }
    }
    OnceIsStrict(selected);
    forall r | r in Enumerate(m) && request.range.Contains(r.key) && Passes(request.filter, r) ensures r in selected {
      assert multiset(Enumerate(m))[r] == rows[r] && r in multiset(Enumerate(m));
      assert !MayHide(rows, request.range, r.key);
      assert multiset(selected)[r] == rows[r];
    }
  }

  /**
   Where the run left no row of the range behind, a scan emits rows of the map from inside the range, and
   all of those that pass the skipping filter; projected columns show the map's values.
   */
  lemma {:induction false} ScanSelects(c: Setup, steps: seq<Step>, request: Request) returns (selected: seq<Row>)
    requires Legal(c, steps) && !Shadowed(c, steps, request.range) && Walkable(Run(c, steps), request.range)
    requires FilterFits(request.filter, c.schema)
    ensures SelectsFromMap(selected, MockOf(steps), request) && ScanEmits(c, Run(c, steps), request, selected)
            && ReadsSucceed(c, Run(c, steps), request)
  {
    hide ReadsSucceed, Run, ShadowedRows, MockOf, Inv, Versions, Enumerate, Selects, SelectsFromMap, Legal, Walkable,
         ScanEmits, FilterFits, HeldTwice, SameRows;
    Reachable(c, steps);
    VersionsAreMock(c, steps, request.range);
    forall key | request.range.Contains(key) ensures !HeldTwice(Versions(c, Run(c, steps)), key) {
      HeldTwiceIsShadowed(c, steps, key);
    }
    selected := ScanShows(c, Run(c, steps), request);
    FromMap(selected, Versions(c, Run(c, steps)), MockOf(steps), request);
  }

  lemma {:induction false} OnlySelection(selected: seq<Row>, m: RowMap, request: Request)
    requires Keyed(m) && SelectsFromMap(selected, m, request) && request.filter == []
    ensures selected == Filter(Enumerate(m), request.range.Has())
  {
    hide Enumerate;
    var all := Filter(Enumerate(m), request.range.Has());
    EnumerateSorts(m);
    FilterAscending(Enumerate(m), request.range.Has());
    InFilter(Enumerate(m), request.range.Has());
    AscendingUnique(selected, all);
  }

  /** What the mock engine's cursor emits for a range. */
  ghost function MockScan(m: RowMap, range: KeyRange): seq<Row> { Filter(Enumerate(m), range.Has()) }

  /**
   At every point of every run that left no row of the range behind, with a flush or a compaction in flight
   or not, a key-ascending scan of the range is, on the projected columns, the mock engine's scan, and no
   read of a table fails.
   */
  lemma {:induction false} ScanIsMock(c: Setup, steps: seq<Step>, range: KeyRange, projected: set<nat>)
    requires Legal(c, steps) && !Shadowed(c, steps, range) && Walkable(Run(c, steps), range)
    ensures var request := Request(range, projected, []);
            MaskRows(Scan(c, Run(c, steps), request, KeyAscending), projected)
            == MaskRows(MockScan(MockOf(steps), range), projected)
            && ReadsSucceed(c, Run(c, steps), request)
  {
    hide ReadsSucceed, Run, Shadowed, MockOf, Enumerate, Scan, MaskRows, SelectsFromMap, Filter, Legal, Walkable;
    var request := Request(range, projected, []);
    VersionsAreMock(c, steps, range);
    var selected := ScanSelects(c, steps, request);
    OnlySelection(selected, MockOf(steps), request);
  }

  /**
   At every point of every run, rows left behind or not, a full scan shows every version the tree holds,
   once each and in key order.
   */
  lemma {:induction false} FullScanShowsVersions(c: Setup, s: State, projected: set<nat>) returns (rows: seq<Row>)
    requires Inv(c, s)
    ensures WeaklyAscending(rows) && multiset(rows) == Versions(c, s) && Walkable(s, FULL_RANGE)
    ensures MaskRows(Scan(c, s, Request(FULL_RANGE, projected, []), KeyAscending), projected)
            == MaskRows(rows, projected)
  {
    hide Inv, Versions, MaskRows, Scan, ReadsSucceed, Walkable, WeaklyAscending;
    OrderedIsWalkable(s, FULL_RANGE);
    rows := ScanShows(c, s, Request(FULL_RANGE, projected, []));
    forall r: Row ensures multiset(rows)[r] == Versions(c, s)[r] {}
  }

  /** No row with the key that the range starts on was left behind. */
  ghost predicate StartsClear(c: Setup, steps: seq<Step>, range: KeyRange)
    requires Legal(c, steps)
  {
    forall r :: r in ShadowedRows(c, steps) ==> range.from != Some(r.key)
  }

  lemma {:induction false} StrictHoldsOnce(rows: seq<Row>, key: Key)
    requires Ascending(rows)
    ensures !HeldTwice(multiset(rows), key)
  {
    forall r: Row ensures multiset(rows)[r] == if r in rows then 1 else 0 { AscendingCounts(rows, r); }
  }

  /** Rows that look like strictly ascending ones through a mask are strictly ascending. */
  lemma {:induction false} AscendingThroughMask(rows: seq<Row>, others: seq<Row>, columns: set<nat>)
    requires MaskRows(rows, columns) == MaskRows(others, columns) && Ascending(others)
    ensures Ascending(rows)
  {
    assert |MaskRows(rows, columns)| == |rows| && |MaskRows(others, columns)| == |others|;
    forall i | 0 <= i < |rows| ensures rows[i].key == others[i].key {
      assert rows[i].Mask(columns) == MaskRows(rows, columns)[i] == others[i].Mask(columns);
      MaskKeeps(rows[i], columns);
      MaskKeeps(others[i], columns);
    }
  }

  /** A scan that shows a key of its range twice is not the mock engine's. */
  lemma {:induction false} ShowsTwice(c: Setup, steps: seq<Step>, range: KeyRange, projected: set<nat>)
    requires Legal(c, steps) && Walkable(Run(c, steps), range)
    requires Shadowed(c, steps, range) && StartsClear(c, steps, range)
    ensures MaskRows(Scan(c, Run(c, steps), Request(range, projected, []), KeyAscending), projected)
            != MaskRows(MockScan(MockOf(steps), range), projected)
  {
    hide Run, ShadowedRows, MockOf, Inv, Versions, Enumerate, Scan, Legal, Walkable, ReadsSucceed, HeldTwice, MaskRows,
         WeaklyAscending, Filter;
    var request, rows := Request(range, projected, []), Versions(c, Run(c, steps));
    Reachable(c, steps);
    VersionsAreMock(c, steps, range);
    var selected := ScanShows(c, Run(c, steps), request);
    var gone :| gone in ShadowedRows(c, steps) && range.Contains(gone.key);
    HeldTwiceIsShadowed(c, steps, gone.key);
    forall r: Row | r.key == gone.key ensures multiset(selected)[r] == rows[r] {
      assert Passes(request.filter, r) && !MayHide(rows, range, r.key);
    }
    SameTwice(multiset(selected), rows, gone.key);
    EnumerateSorts(MockOf(steps));
    FilterAscending(Enumerate(MockOf(steps)), range.Has());
    if MaskRows(selected, projected) == MaskRows(MockScan(MockOf(steps), range), projected) {
      AscendingThroughMask(selected, MockScan(MockOf(steps), range), projected);
      StrictHoldsOnce(selected, gone.key);
    }
  }

  lemma {:induction false} SameTwice(a: multiset<Row>, b: multiset<Row>, key: Key)
    requires HeldTwice(b, key) && forall r: Row :: r.key == key ==> a[r] == b[r]
    ensures HeldTwice(a, key)
  {
    var x, y :| x in b && y in b && x.key == key && y.key == key && (x == y ==> b[x] >= 2);
    assert x in a && y in a;
  }

  /**
   The scan of a range agrees with the mock engine exactly when no row of the range was left behind. (A row
   left behind under the very key that the range starts on may stay unseen.)
   */
  lemma {:induction false} AgreesUnlessShadowed(c: Setup, steps: seq<Step>, range: KeyRange, projected: set<nat>)
    requires Legal(c, steps) && Walkable(Run(c, steps), range) && StartsClear(c, steps, range)
    ensures MaskRows(Scan(c, Run(c, steps), Request(range, projected, []), KeyAscending), projected)
            == MaskRows(MockScan(MockOf(steps), range), projected)
            <==> !Shadowed(c, steps, range)
  {
    hide Run, Shadowed, MockOf, Enumerate, Scan, Legal, Walkable, StartsClear, MaskRows;
    if Shadowed(c, steps, range) {
      ShowsTwice(c, steps, range, projected);
    } else {
      ScanIsMock(c, steps, range, projected);
    }
  }

  // ---------- Inverted ranges ----------

  /** After one insert, the range from just above the key down to the key stands around the row in memory. */
  lemma {:induction false} InvertedRangeOverruns(c: Setup, row: Row)
    requires RowFits(row, c.schema) && row.key < INT64_MAX
    ensures var steps, range := [Insert(row)], KeyRange(Some(row.key + 1), Some(row.key));
            Legal(c, steps) && !Walkable(Run(c, steps), range) && MockScan(MockOf(steps), range) == []
  {
    hide RowFits, Enumerate;
    var steps, range := [Insert(row)], KeyRange(Some(row.key + 1), Some(row.key));
    assert steps[..0] == [] && Legal(c, steps[..0]) && Run(c, steps[..0]) == EMPTY;
    assert Legal(c, steps) && Run(c, steps) == Apply(c, EMPTY, Insert(row));
    var one := EMPTY.active[row.key := row];
    assert one == map[row.key := row] && MockOf(steps) == one && |one| == 1;
    EnumerateUnique(one, [row]);
    var s := Run(c, steps);
    if c.config.threshold <= 1 {
      assert s.frozen == [] + [Enumerate(one)];
      RowInRange(s, 1, row, range);
    } else {
      RowInRange(s, 0, row, range);
    }
    FilterNone([row], range.Has());
  }

  lemma {:induction false} RowInRange(s: State, i: nat, row: Row, range: KeyRange)
    requires i < |MemorySources(s)| && MemorySources(s)[i] == [row]
    requires range.from.Some? && range.to.Some? && range.to.value <= row.key < range.from.value
    ensures !Walkable(s, range)
  {
    hide Enumerate;
    assert Overrun(MemorySources(s)[i], range) by { assert [row][0] == row; }
  }
}
