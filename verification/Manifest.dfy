/** The manifest: the registry and the next table id, saved to bytes and rebuilt from them. */
module Manifest {
  import opened Seqs
  import opened Storage
  import opened Codec
  import opened Registry

  const MAGIC: U32 := 0x48544150
  const MAX_PATH := 65535

  // ---------- Saving ----------

  /** The path as it is written: its length has 16 bits. */
  function Cut(path: Bytes): Bytes { if |path| <= MAX_PATH then path else path[..MAX_PATH] }

  function CutInfo(info: TableInfo): TableInfo { info.(path := Cut(info.path)) }

  function EncodeInfo(info: TableInfo): Bytes {
    EncodeLE(info.id, 8) + (EncodeLE(info.level, 4) + ([info.layout] + (EncodeLE(ToUnsigned(info.minKey), 8)
      + (EncodeLE(ToUnsigned(info.maxKey), 8) + (EncodeLE(info.numBlocks, 4) + (EncodeLE(info.fileSize, 8)
      + (EncodeLE(|Cut(info.path)|, 2) + Cut(info.path))))))))
  }

  function EncodeInfos(infos: seq<TableInfo>): Bytes {
    if infos == [] then [] else EncodeInfos(infos[..|infos| - 1]) + EncodeInfo(infos[|infos| - 1])
  }

  function Save(levels: Levels, nextId: U64): Bytes {
    var infos := Flatten(levels);
    EncodeLE(MAGIC, 4) + EncodeLE(|infos| % U32_LIMIT, 4) + EncodeLE(nextId, 8) + EncodeInfos(infos)
  }

  method SaveManifest(registry: SSTableRegistry, nextId: U64) returns (bytes: Bytes)
    ensures bytes == Save(registry.levels, nextId)
  {
    hide EncodeInfo, EncodeLE;
    var all: seq<TableInfo> := [];
    for level := 0 to |registry.levels|
      invariant all == Flatten(registry.levels[..level])
    {
      FlattenSnoc(registry.levels[..level], registry.levels[level]);
      assert registry.levels[..level + 1] == registry.levels[..level] + [registry.levels[level]];
      all := all + registry.levels[level];
    }
    assert registry.levels[..|registry.levels|] == registry.levels;
    var header := EncodeLE(MAGIC, 4) + EncodeLE(|all| % U32_LIMIT, 4) + EncodeLE(nextId, 8);
    bytes := header;
    for i := 0 to |all|
      invariant bytes == header + EncodeInfos(all[..i])
    {
      assert all[..i + 1][..i] == all[..i];
      bytes := bytes + EncodeInfo(all[i]);
    }
    assert all[..|all|] == all;
  }

  // ---------- Loading ----------

  function ReadU16(b: Bytes): Result<Read<nat>> {
    var r :- Take(2, b);
    Ok(Read(DecodeLE(r.value), r.rest))
  }

  /** The layout is not looked at. */
  function ReadLayout(b: Bytes): Result<Read<Byte>> {
    var r :- Take(1, b);
    Ok(Read(r.value[0], r.rest))
  }

  function ReadInfo(b: Bytes): Result<Read<TableInfo>> {
    var id :- ReadU64(b);
    var level :- ReadU32(id.rest);
    var layout :- ReadLayout(level.rest);
    var min :- ReadKey(layout.rest);
    var max :- ReadKey(min.rest);
    var blocks :- ReadU32(max.rest);
    var size :- ReadU64(blocks.rest);
    var length :- ReadU16(size.rest);
    var path :- Take(length.value, length.rest);
    Ok(Read(TableInfo(id.value, path.value, level.value, min.value, max.value, size.value, blocks.value, layout.value),
            path.rest))
  }

  /** Entries are added to the registry one after the other. */
  function ReadInfos(count: nat, levels: Levels, b: Bytes): Result<Read<Levels>> {
    if count == 0 then Ok(Read(levels, b))
    else
      var info :- ReadInfo(b);
      ReadInfos(count - 1, AddTo(levels, info.value), info.rest)
  }

  datatype Loaded = Loaded(levels: Levels, nextId: U64)

  function ReadManifest(b: Bytes): Result<Read<Loaded>> {
    var magic :- ReadU32(b);
    if magic.value != MAGIC then Err
    else
      var count :- ReadU32(magic.rest);
      var nextId :- ReadU64(count.rest);
      var levels :- ReadInfos(count.value, [], nextId.rest);
      Ok(Read(Loaded(levels.value, nextId.value), levels.rest))
  }

  /** A missing manifest is an empty registry; bytes behind the last entry are not looked at. */
  function Load(file: Option<Bytes>): Result<Loaded> {
    if file.None? then Ok(Loaded([], 0))
    else
      var r :- ReadManifest(file.value);
      Ok(r.value)
  }

  method LoadManifest(file: Option<Bytes>, registry: SSTableRegistry) returns (nextId: Result<U64>)
    requires registry.levels == []
    modifies registry
    ensures nextId.Err? <==> Load(file).Err?
    ensures nextId.Ok? ==> Load(file) == Ok(Loaded(registry.levels, nextId.value))
  {
    hide ReadInfo, ReadU32, ReadU64, AddTo;
    if file.None? { return Ok(0); }
    var magic := ReadU32(file.value);
    if magic.Err? || magic.value.value != MAGIC { return Err; }
    var count := ReadU32(magic.value.rest);
    if count.Err? { return Err; }
    var next := ReadU64(count.value.rest);
    if next.Err? { return Err; }
    var rest := next.value.rest;
    ghost var all := ReadInfos(count.value.value, [], rest);
    for i := 0 to count.value.value
      invariant ReadInfos(count.value.value - i, registry.levels, rest) == all
    {
      var info := ReadInfo(rest);
      if info.Err? { return Err; }
      registry.Add(info.value.value);
      rest := info.value.rest;
    }
    return Ok(next.value.value);
  }

  // ---------- Round trip ----------

  /** Tables added to an empty registry in this order. */
  function Rebuild(infos: seq<TableInfo>): Levels {
    if infos == [] then [] else AddTo(Rebuild(infos[..|infos| - 1]), infos[|infos| - 1])
  }

  function CutInfos(infos: seq<TableInfo>): (cut: seq<TableInfo>)
    ensures |cut| == |infos|
  {
    Map(infos, CutInfo)
  }

  lemma {:induction false} ReadU16Back(n: nat, rest: Bytes)
    requires n <= MAX_PATH
    ensures ReadU16(EncodeLE(n, 2) + rest) == Ok(Read(n, rest))
  {
    TakeFront(EncodeLE(n, 2), rest);
    Widths();
    LERoundTrip(n, 2);
  }

  lemma {:induction false} ReadLayoutBack(layout: Byte, rest: Bytes)
    ensures ReadLayout([layout] + rest) == Ok(Read(layout, rest))
  {
    TakeFront([layout], rest);
  }

  lemma {:induction false} Front(a: Bytes, b: Bytes, rest: Bytes)
    ensures (a + b) + rest == a + (b + rest)
  {
  }

  lemma {:induction false} ReadInfoBack(info: TableInfo, rest: Bytes)
    ensures ReadInfo(EncodeInfo(info) + rest) == Ok(Read(CutInfo(info), rest))
  {
    hide EncodeLE, DecodeLE, ReadU64, ReadU32, ReadU16, ReadKey, ReadLayout, Take, ToUnsigned, Cut;
    var path := Cut(info.path);
    assert |path| <= MAX_PATH by { CutFits(info.path); }
    var tail8 := path + rest;
    var tail7 := EncodeLE(|path|, 2) + tail8;
    var tail6 := EncodeLE(info.fileSize, 8) + tail7;
    var tail5 := EncodeLE(info.numBlocks, 4) + tail6;
    var tail4 := EncodeLE(ToUnsigned(info.maxKey), 8) + tail5;
    var tail3 := EncodeLE(ToUnsigned(info.minKey), 8) + tail4;
    var tail2 := [info.layout] + tail3;
    var tail1 := EncodeLE(info.level, 4) + tail2;
    assert EncodeInfo(info) + rest == EncodeLE(info.id, 8) + tail1;
    ReadU64Back(info.id, tail1);
    ReadU32Back(info.level, tail2);
    ReadLayoutBack(info.layout, tail3);
    ReadKeyBack(info.minKey, tail4);
    ReadKeyBack(info.maxKey, tail5);
    ReadU32Back(info.numBlocks, tail6);
    ReadU64Back(info.fileSize, tail7);
    ReadU16Back(|path|, tail8);
    TakeFront(path, rest);
  }

  lemma {:induction false} CutFits(path: Bytes)
    ensures |Cut(path)| <= MAX_PATH
    ensures |path| <= MAX_PATH <==> Cut(path) == path
  {
  }

  lemma {:induction false} EncodeInfosCons(infos: seq<TableInfo>)
    requires infos != []
    ensures EncodeInfos(infos) == EncodeInfo(infos[0]) + EncodeInfos(infos[1..])
  {
    hide EncodeInfo;
    var before, last := infos[..|infos| - 1], infos[|infos| - 1];
    if before == [] {
      assert infos[1..] == [];
    } else {
      EncodeInfosCons(before);
      assert before[1..] == infos[1..][..|infos| - 2];
    }
  }

  /** Entries written and read back are added in the same order, with their paths cut. */
  lemma {:induction false} ReadInfosBack(infos: seq<TableInfo>, done: nat, rest: Bytes)
    requires done <= |infos|
    ensures ReadInfos(|infos| - done, Rebuild(CutInfos(infos)[..done]), EncodeInfos(infos[done..]) + rest)
            == Ok(Read(Rebuild(CutInfos(infos)), rest))
    decreases |infos| - done
  {
    hide EncodeInfo, ReadInfo, AddTo;
    var cut := CutInfos(infos);
    if done == |infos| {
      assert cut[..done] == cut && infos[done..] == [];
      assert [] + rest == rest;
    } else {
      EncodeInfosCons(infos[done..]);
      assert infos[done..][1..] == infos[done + 1..];
      var tail := EncodeInfos(infos[done + 1..]) + rest;
      Front(EncodeInfo(infos[done]), EncodeInfos(infos[done + 1..]), rest);
      ReadInfoBack(infos[done], tail);
      assert cut[..done + 1][..done] == cut[..done];
      ReadInfosBack(infos, done + 1, rest);
    }
  }

  ghost predicate WellPlaced(levels: Levels) {
    forall l, i :: 0 <= l < |levels| && 0 <= i < |levels[l]| ==> levels[l][i].level == l
  }

  predicate TopUsed(levels: Levels) { levels == [] || levels[|levels| - 1] != [] }

  ghost predicate PathsFit(levels: Levels) {
    forall info :: info in Flatten(levels) ==> |info.path| <= MAX_PATH
  }

  lemma {:induction false} AddKeepsPlaces(levels: Levels, info: TableInfo)
    requires WellPlaced(levels) && TopUsed(levels)
    ensures WellPlaced(AddTo(levels, info)) && TopUsed(AddTo(levels, info))
  {
  }

  lemma {:induction false} FlattenUpdate<T>(parts: seq<seq<T>>, i: nat, x: T)
    requires i < |parts|
    ensures |Flatten(parts[i := parts[i] + [x]])| == |Flatten(parts)| + 1
    ensures forall y :: y in Flatten(parts[i := parts[i] + [x]]) <==> y in Flatten(parts) || y == x
  {
    var after := parts[i := parts[i] + [x]];
    var front, back := parts[..i], parts[i + 1..];
    assert parts == front + ([parts[i]] + back) && after == front + ([parts[i] + [x]] + back);
    FlattenConcat(front, [parts[i]] + back);
    FlattenConcat(front, [parts[i] + [x]] + back);
    assert Flatten([parts[i]] + back) == parts[i] + Flatten(back) by { assert ([parts[i]] + back)[1..] == back; }
    assert Flatten([parts[i] + [x]] + back) == parts[i] + [x] + Flatten(back) by {
      assert ([parts[i] + [x]] + back)[1..] == back;
    }
  }

  lemma {:induction false} FlattenPadded<T>(parts: seq<seq<T>>, n: nat)
    ensures Flatten(parts + seq(n, i => [])) == Flatten(parts)
    decreases n
  {
    if n == 0 {
      assert parts + seq(0, i => []) == parts;
    } else {
      FlattenPadded(parts, n - 1);
      FlattenSnoc(parts + seq(n - 1, i => []), []);
      assert parts + seq(n, i => []) == parts + seq(n - 1, i => []) + [[]];
    }
  }

  lemma {:induction false} FlattenAddTo(levels: Levels, info: TableInfo)
    ensures |Flatten(AddTo(levels, info))| == |Flatten(levels)| + 1
    ensures forall y :: y in Flatten(AddTo(levels, info)) <==> y in Flatten(levels) || y == info
  {
    hide Flatten;
    var room := Resize(levels, info.level + 1);
    if |levels| < info.level + 1 {
      FlattenPadded(levels, info.level + 1 - |levels|);
      assert room == levels + seq(info.level + 1 - |levels|, i => []);
    }
    assert Flatten(room) == Flatten(levels);
    FlattenUpdate(room, info.level, info);
    assert AddTo(levels, info) == room[info.level := room[info.level] + [info]];
  }

  /** Whatever is loaded is well placed, and holds the entries it was built from. */
  lemma {:induction false} RebuildIs(infos: seq<TableInfo>)
    ensures WellPlaced(Rebuild(infos)) && TopUsed(Rebuild(infos))
    ensures |Flatten(Rebuild(infos))| == |infos| && forall y :: y in Flatten(Rebuild(infos)) <==> y in infos
  {
    if infos != [] {
      var before, last := infos[..|infos| - 1], infos[|infos| - 1];
      assert infos == before + [last];
      RebuildIs(before);
      AddKeepsPlaces(Rebuild(before), last);
      FlattenAddTo(Rebuild(before), last);
    }
  }

  /** Without the empty levels at the top. */
  function Trim(levels: Levels): (r: Levels)
    ensures r <= levels && forall i :: |r| <= i < |levels| ==> levels[i] == []
    ensures TopUsed(r) && (r == levels <==> TopUsed(levels))
  {
    if TopUsed(levels) then levels else Trim(levels[..|levels| - 1])
  }

  lemma {:induction false} RebuildSnoc(infos: seq<TableInfo>, info: TableInfo)
    ensures Rebuild(infos + [info]) == AddTo(Rebuild(infos), info)
  {
    assert (infos + [info])[..|infos|] == infos;
  }

  /** Putting back the last table of the last level. */
  lemma {:induction false} AddLast(front: Levels, init: seq<TableInfo>, info: TableInfo)
    requires info.level == |front|
    ensures AddTo(Trim(front + [init]), info) == front + [init + [info]]
  {
    assert Resize(Trim(front + [init]), |front| + 1) == front + [init];
  }

  lemma {:induction false} RebuildTrims(levels: Levels)
    requires WellPlaced(levels) && |levels| < U32_LIMIT
    ensures Rebuild(Flatten(levels)) == Trim(levels)
    decreases |levels|, if levels == [] then 0 else |levels[|levels| - 1]|
  {
    hide Flatten, Rebuild, AddTo;
    if levels == [] {
      RebuildOfNothing();
      NoTables();
    } else {
      var n := |levels| - 1;
      var front, last := levels[..n], levels[n];
      assert levels == front + [last];
      FlattenSnoc(front, last);
      if last == [] {
        assert Flatten(front) + [] == Flatten(front);
        RebuildTrims(front);
      } else {
        var init, info := last[..|last| - 1], last[|last| - 1];
        assert info.level == n;
        var less := front + [init];
        assert less[n] == init && forall l :: 0 <= l < n ==> less[l] == levels[l];
        RebuildTrims(less);
        FlattenSnoc(front, init);
        assert last == init + [info];
        assert Flatten(front) + (init + [info]) == Flatten(front) + init + [info];
        RebuildSnoc(Flatten(less), info);
        AddLast(front, init, info);
      }
    }
  }

  lemma {:induction false} NoTables()
    ensures Flatten<TableInfo>([]) == []
  {
  }

  lemma {:induction false} EncodeInfosConcat(a: seq<TableInfo>, b: seq<TableInfo>)
    ensures EncodeInfos(a + b) == EncodeInfos(a) + EncodeInfos(b)
  {
    hide EncodeInfo;
    if b == [] {
      assert a + b == a;
    } else {
      EncodeInfosConcat(a, b[..|b| - 1]);
      assert (a + b)[..|a + b| - 1] == a + b[..|b| - 1];
    }
  }

  /** What loading a saved manifest gives, for any registry, and what it leaves of the file. */
  lemma {:induction false} LoadOfSave(levels: Levels, nextId: U64)
    ensures var infos := Flatten(levels);
            var count := |infos| % U32_LIMIT;
            ReadManifest(Save(levels, nextId))
            == Ok(Read(Loaded(Rebuild(CutInfos(infos[..count])), nextId), EncodeInfos(infos[count..])))
  {
    hide EncodeInfos, Rebuild, Flatten, ReadInfos, ReadU32, ReadU64, EncodeLE;
    var infos := Flatten(levels);
    var count := |infos| % U32_LIMIT;
    var read, left := infos[..count], infos[count..];
    assert infos == read + left;
    EncodeInfosConcat(read, left);
    var body := EncodeInfos(read) + EncodeInfos(left);
    assert Save(levels, nextId) == EncodeLE(MAGIC, 4) + (EncodeLE(count, 4) + (EncodeLE(nextId, 8) + body));
    ReadU32Back(MAGIC, EncodeLE(count, 4) + (EncodeLE(nextId, 8) + body));
    ReadU32Back(count, EncodeLE(nextId, 8) + body);
    ReadU64Back(nextId, body);
    ReadInfosBack(read, 0, EncodeInfos(left));
    assert read[0..] == read && CutInfos(read)[..0] == [];
    RebuildOfNothing();
  }

  lemma {:induction false} RebuildOfNothing()
    ensures Rebuild([]) == []
  {
  }

  /**
   Saving and loading rebuilds the registry and the next id exactly when every table sits in the level
   it names, the top level is used, and paths and their number fit the format.
   */
  lemma {:induction false} ManifestRoundTrip(levels: Levels, nextId: U64)
    requires |levels| < U32_LIMIT
    ensures Load(Some(Save(levels, nextId))) == Ok(Loaded(levels, nextId))
            <==> WellPlaced(levels) && TopUsed(levels) && PathsFit(levels) && |Flatten(levels)| < U32_LIMIT
  {
    hide Save, ReadManifest, Rebuild, WellPlaced, TopUsed, Flatten, CutInfos;
    var infos := Flatten(levels);
    var count := |infos| % U32_LIMIT;
    LoadOfSave(levels, nextId);
    RebuildIs(CutInfos(infos[..count]));
    if |infos| < U32_LIMIT {
      assert infos[..count] == infos;
      if WellPlaced(levels) && TopUsed(levels) && PathsFit(levels) {
        NothingCut(infos);
        RebuildTrims(levels);
      }
      if Rebuild(CutInfos(infos)) == levels { AllCut(infos); }
    }
  }

  lemma {:induction false} NothingCut(infos: seq<TableInfo>)
    requires forall info :: info in infos ==> |info.path| <= MAX_PATH
    ensures CutInfos(infos) == infos
  {
    forall i | 0 <= i < |infos| ensures CutInfos(infos)[i] == infos[i] { assert infos[i] in infos; }
  }

  lemma {:induction false} AllCut(infos: seq<TableInfo>)
    ensures forall info :: info in CutInfos(infos) ==> |info.path| <= MAX_PATH
  {
    forall info | info in CutInfos(infos) ensures |info.path| <= MAX_PATH {
      var i :| 0 <= i < |infos| && CutInfos(infos)[i] == info;
      CutFits(infos[i].path);
    }
  }

  // ---------- A truncated manifest ----------

  /** Readers look at a prefix only: more bytes behind it change nothing but the rest. */
  lemma {:induction false} ReadInfoMore(b: Bytes, more: Bytes)
    requires ReadInfo(b).Ok?
    ensures ReadInfo(b + more) == Ok(Read(ReadInfo(b).value.value, ReadInfo(b).value.rest + more))
  {
    hide ReadU64, ReadU32, ReadKey, ReadU16, ReadLayout, Take;
    var id := ReadU64(b).value;
    ReadU64More(b, more);
    var level := ReadU32(id.rest).value;
    ReadU32More(id.rest, more);
    var layout := ReadLayout(level.rest).value;
    ReadLayoutMore(level.rest, more);
    var min := ReadKey(layout.rest).value;
    ReadKeyMore(layout.rest, more);
    var max := ReadKey(min.rest).value;
    ReadKeyMore(min.rest, more);
    var blocks := ReadU32(max.rest).value;
    ReadU32More(max.rest, more);
    var size := ReadU64(blocks.rest).value;
    ReadU64More(blocks.rest, more);
    var length := ReadU16(size.rest).value;
    ReadU16More(size.rest, more);
    TakeMore(length.value, length.rest, more);
  }

  lemma {:induction false} TakeMore(size: nat, b: Bytes, more: Bytes)
    requires Take(size, b).Ok?
    ensures Take(size, b + more) == Ok(Read(Take(size, b).value.value, Take(size, b).value.rest + more))
  {
    assert (b + more)[..size] == b[..size] && (b + more)[size..] == b[size..] + more;
  }

  lemma {:induction false} ReadU64More(b: Bytes, more: Bytes)
    requires ReadU64(b).Ok?
    ensures ReadU64(b + more) == Ok(Read(ReadU64(b).value.value, ReadU64(b).value.rest + more))
  {
    TakeMore(8, b, more);
  }

  lemma {:induction false} ReadU32More(b: Bytes, more: Bytes)
    requires ReadU32(b).Ok?
    ensures ReadU32(b + more) == Ok(Read(ReadU32(b).value.value, ReadU32(b).value.rest + more))
  {
    TakeMore(4, b, more);
  }

  lemma {:induction false} ReadU16More(b: Bytes, more: Bytes)
    requires ReadU16(b).Ok?
    ensures ReadU16(b + more) == Ok(Read(ReadU16(b).value.value, ReadU16(b).value.rest + more))
  {
    TakeMore(2, b, more);
  }

  lemma {:induction false} ReadKeyMore(b: Bytes, more: Bytes)
    requires ReadKey(b).Ok?
    ensures ReadKey(b + more) == Ok(Read(ReadKey(b).value.value, ReadKey(b).value.rest + more))
  {
    ReadU64More(b, more);
  }

  lemma {:induction false} ReadLayoutMore(b: Bytes, more: Bytes)
    requires ReadLayout(b).Ok?
    ensures ReadLayout(b + more) == Ok(Read(ReadLayout(b).value.value, ReadLayout(b).value.rest + more))
  {
    TakeMore(1, b, more);
  }

  lemma {:induction false} ReadInfosMore(count: nat, levels: Levels, b: Bytes, more: Bytes)
    requires ReadInfos(count, levels, b).Ok?
    ensures ReadInfos(count, levels, b + more)
            == Ok(Read(ReadInfos(count, levels, b).value.value, ReadInfos(count, levels, b).value.rest + more))
    decreases count
  {
    hide ReadInfo, AddTo;
    if count > 0 {
      ReadInfoMore(b, more);
      var info := ReadInfo(b).value;
      ReadInfosMore(count - 1, AddTo(levels, info.value), info.rest, more);
    }
  }

  lemma {:induction false} ReadManifestMore(b: Bytes, more: Bytes)
    requires ReadManifest(b).Ok?
    ensures ReadManifest(b + more) == Ok(Read(ReadManifest(b).value.value, ReadManifest(b).value.rest + more))
  {
    hide ReadU32, ReadU64, ReadInfos;
    ReadU32More(b, more);
    var magic := ReadU32(b).value;
    ReadU32More(magic.rest, more);
    var count := ReadU32(magic.rest).value;
    ReadU64More(count.rest, more);
    var next := ReadU64(count.rest).value;
    ReadInfosMore(count.value, [], next.rest, more);
  }

  /** A manifest cut off anywhere is refused. */
  lemma {:induction false} TruncatedIsRefused(levels: Levels, nextId: U64, n: nat)
    requires |Flatten(levels)| < U32_LIMIT && n < |Save(levels, nextId)|
    ensures Load(Some(Save(levels, nextId)[..n])).Err?
  {
    hide Save, ReadManifest, Flatten, Rebuild, CutInfos, EncodeInfos;
    var all := Save(levels, nextId);
    SaveIsRead(levels, nextId);
    assert all[..n] + all[n..] == all;
    if ReadManifest(all[..n]).Ok? { ReadManifestMore(all[..n], all[n..]); }
  }

  lemma {:induction false} SaveIsRead(levels: Levels, nextId: U64)
    requires |Flatten(levels)| < U32_LIMIT
    ensures ReadManifest(Save(levels, nextId)).Ok? && ReadManifest(Save(levels, nextId)).value.rest == []
  {
    hide Save, ReadManifest, Flatten, Rebuild, CutInfos;
    LoadOfSave(levels, nextId);
    assert Flatten(levels)[|Flatten(levels)|..] == [];
  }
}
