/** The paged LRU cache of one table's block metadata and statistics, against direct reads of the files. */
module MetadataCache {
  import opened Seqs
  import opened Storage
  import opened Pruning
  import opened Tables
  import opened Lru

  datatype PageKind = RowMetadata | ColumnMetadata | NumericStats
  datatype PageKey = PageKey(kind: PageKind, page: nat, column: nat)

  const ROW_META_BYTES := 40
  const COLUMN_META_BYTES := 44
  const STATS_ENTRY_BYTES := 17

  /** How the blocks of a table are cut into pages. */
  datatype Pages = Pages(numBlocks: U32, pageBlocks: U32, columns: U32) {
    predicate Valid() { pageBlocks > 0 }

    function First(page: nat): nat { page * pageBlocks }

    /** First block behind the page. */
    function End(page: nat): nat {
      if First(page) + pageBlocks <= numBlocks then First(page) + pageBlocks
      else if First(page) <= numBlocks then numBlocks
      else First(page)
    }

    function PageOf(block: nat): nat
      requires Valid()
    {
      block / pageBlocks
    }

    lemma {:induction false} PageBounds(block: nat)
      requires Valid() && block < numBlocks
      ensures First(PageOf(block)) <= block < End(PageOf(block)) <= numBlocks
    {
      assert block == PageOf(block) * pageBlocks + block % pageBlocks;
    }

    lemma {:induction false} NextPage(page: nat)
      ensures First(page + 1) == First(page) + pageBlocks
    {
      MulSum(page, 1, pageBlocks);
    }

    lemma {:induction false} PageOrder(a: nat, b: nat)
      requires a <= b
      ensures First(a) <= First(b)
    {
      MulSum(a, b - a, pageBlocks);
    }

    /** How far into [first, last) the pages before `page` reach. */
    function Reached(first: nat, last: nat, page: nat): nat {
      if First(page) <= first then first else if First(page) <= last then First(page) else last
    }

    /** The page of the first block is not behind the page of the last one, and starts the range. */
    lemma {:induction false} PageRange(first: nat, last: nat)
      requires Valid() && first < last <= numBlocks
      ensures PageOf(first) <= PageOf(last - 1)
      ensures Reached(first, last, PageOf(first)) == first
    {
      PageBounds(first);
      PageBounds(last - 1);
      if PageOf(last - 1) < PageOf(first) {
        PageOrder(PageOf(last - 1) + 1, PageOf(first));
        NextPage(PageOf(last - 1));
      }
    }

    /** A page between those of the first and the last block covers the next piece of the range. */
    lemma {:induction false} PageStep(first: nat, last: nat, page: nat)
      requires Valid() && first < last <= numBlocks && PageOf(first) <= page <= PageOf(last - 1)
      ensures First(page) < last
      ensures First(page) <= Reached(first, last, page) <= Reached(first, last, page + 1) <= End(page) <= numBlocks
      ensures first <= Reached(first, last, page) && Reached(first, last, page + 1) <= last
      ensures page == PageOf(last - 1) ==> Reached(first, last, page + 1) == last
    {
      PageBounds(first);
      PageBounds(last - 1);
      PageOrder(PageOf(first), page);
      PageOrder(page, PageOf(last - 1));
      NextPage(page);
    }
  }

  /** What the files hold for one page. */
  function RowPage(file: TableFile, pages: Pages, page: nat): seq<RowBlockMeta>
    requires |file.rowMeta| == pages.numBlocks && pages.First(page) <= pages.numBlocks
  {
    file.rowMeta[pages.First(page)..pages.End(page)]
  }

  /** The metadata entries of the blocks [from, end), all columns of one block side by side. */
  function ColumnEntries(file: TableFile, pages: Pages, from: nat, end: nat): seq<ColumnBlockMeta>
    requires |file.columnMeta| == pages.numBlocks * pages.columns && from <= end <= pages.numBlocks
  {
    MulSum(from, end - from, pages.columns);
    MulSum(end, pages.numBlocks - end, pages.columns);
    file.columnMeta[from * pages.columns..end * pages.columns]
  }

  function StatsPage(file: TableFile, pages: Pages, page: nat, column: nat): Option<seq<BlockStats>>
    requires forall c :: c in file.stats ==> |file.stats[c]| == pages.numBlocks
    requires pages.First(page) <= pages.numBlocks
  {
    if column in file.stats then Some(file.stats[column][pages.First(page)..pages.End(page)]) else None
  }

  /** The files hold metadata of every block; a file of one layout may lack the other layout's metadata. */
  ghost predicate Covers(file: TableFile, pages: Pages) {
    && pages.numBlocks == file.numBlocks && pages.Valid()
    && (file.layout.ROW? ==> |file.rowMeta| == pages.numBlocks)
    && (file.layout.COLUMN? ==> |file.columnMeta| == pages.numBlocks * pages.columns)
    && forall c :: c in file.stats ==> |file.stats[c]| == pages.numBlocks
  }

  function StatsBytes(stats: Option<seq<BlockStats>>): nat {
    if stats.None? then 1 else |stats.value| * STATS_ENTRY_BYTES
  }

  /** The cached copy is what the files hold. */
  ghost predicate IsRowPage(file: TableFile, pages: Pages, page: nat, blocks: seq<RowBlockMeta>) {
    Covers(file, pages) && file.layout.ROW? && pages.First(page) <= pages.numBlocks
    && blocks == RowPage(file, pages, page)
  }

  ghost predicate IsColumnPage(file: TableFile, pages: Pages, page: nat, blocks: seq<ColumnBlockMeta>) {
    && Covers(file, pages) && file.layout.COLUMN? && pages.First(page) <= pages.numBlocks
    && blocks == ColumnEntries(file, pages, pages.First(page), pages.End(page))
  }

  ghost predicate IsStatsPage(file: TableFile, pages: Pages, page: nat, column: nat, stats: Option<seq<BlockStats>>) {
    Covers(file, pages) && pages.First(page) <= pages.numBlocks && stats == StatsPage(file, pages, page, column)
  }

  /** The bytes a page is charged with, whenever it is loaded. */
  ghost function PageBytes(file: TableFile, pages: Pages): PageKey -> nat
    requires Covers(file, pages)
  {
    (k: PageKey) =>
      if pages.First(k.page) > pages.numBlocks then 0
      else
        match k.kind
        case RowMetadata => if file.layout.ROW? then |RowPage(file, pages, k.page)| * ROW_META_BYTES else 0
        case ColumnMetadata =>
          if file.layout.COLUMN?
          then |ColumnEntries(file, pages, pages.First(k.page), pages.End(k.page))| * COLUMN_META_BYTES
          else 0
        case NumericStats => StatsBytes(StatsPage(file, pages, k.page, k.column))
  }

  lemma {:induction false} RowPageBytes(file: TableFile, pages: Pages, page: nat, blocks: seq<RowBlockMeta>)
    requires IsRowPage(file, pages, page, blocks)
    ensures Covers(file, pages) && PageBytes(file, pages)(PageKey(RowMetadata, page, 0)) == |blocks| * ROW_META_BYTES
  {
  }

  lemma {:induction false} ColumnPageBytes(file: TableFile, pages: Pages, page: nat, blocks: seq<ColumnBlockMeta>)
    requires IsColumnPage(file, pages, page, blocks)
    ensures Covers(file, pages) && PageBytes(file, pages)(PageKey(ColumnMetadata, page, 0))
            == |blocks| * COLUMN_META_BYTES
  {
  }

  lemma {:induction false} StatsPageBytes(file: TableFile, pages: Pages, page: nat, column: nat,
                                          stats: Option<seq<BlockStats>>)
    requires IsStatsPage(file, pages, page, column, stats)
    ensures Covers(file, pages) && PageBytes(file, pages)(PageKey(NumericStats, page, column)) == StatsBytes(stats)
  {
  }

  /** Reading on through the window of a page, in entries. */
  lemma {:induction false} ColumnEntriesStep(file: TableFile, pages: Pages, first: nat, a: nat, b: nat, from: nat,
                                             end: nat)
    requires |file.columnMeta| == pages.numBlocks * pages.columns
    requires first <= a <= b <= end <= pages.numBlocks && from <= a
    ensures var page, w := ColumnEntries(file, pages, from, end), pages.columns;
            && 0 <= (a - from) * w <= (b - from) * w <= |page|
            && ColumnEntries(file, pages, first, a) + page[(a - from) * w..(b - from) * w]
               == ColumnEntries(file, pages, first, b)
  {
    var w := pages.columns;
    MulSum(from, a - from, w);
    MulSum(a, b - a, w);
    MulSum(b, end - b, w);
    MulSum(a - from, b - a, w);
    MulSum(first, a - first, w);
    MulSum(end, pages.numBlocks - end, w);
    MulSum(from, b - from, w);
    SliceStep(file.columnMeta, first * w, a * w, b * w, from * w, end * w);
  }

  lemma {:induction false} NoColumnEntries(file: TableFile, pages: Pages, first: nat)
    requires |file.columnMeta| == pages.numBlocks * pages.columns && first <= pages.numBlocks
    ensures ColumnEntries(file, pages, first, first) == []
  {
  }

  predicate StatsReach(file: TableFile, end: nat) {
    forall c :: c in file.stats ==> end <= |file.stats[c]|
  }

  /** The statistics of the blocks [from, end), for those of the columns that have any. */
  function StatsSlices(file: TableFile, columns: seq<nat>, from: nat, end: nat): map<nat, seq<BlockStats>>
    requires from <= end && StatsReach(file, end)
  {
    map c | c in columns && c in file.stats :: file.stats[c][from..end]
  }

  function RowKey(page: nat): PageKey { PageKey(RowMetadata, page, 0) }
  function ColumnKey(page: nat): PageKey { PageKey(ColumnMetadata, page, 0) }

  class SSTableMetadataCache {
    const file: TableFile
    const pages: Pages
    const maxCachedBytes: nat
    ghost const size: PageKey -> nat
    var lru: seq<PageKey>
    var rowPages: map<nat, seq<RowBlockMeta>>
    var columnPages: map<nat, seq<ColumnBlockMeta>>
    var statsPages: map<PageKey, Option<seq<BlockStats>>>
    var cachedBytes: nat

    /** The page is in the map of its kind. */
    ghost predicate Cached(k: PageKey)
      reads this`rowPages, this`columnPages, this`statsPages
    {
      match k.kind
      case RowMetadata => k.column == 0 && k.page in rowPages
      case ColumnMetadata => k.column == 0 && k.page in columnPages
      case NumericStats => k in statsPages
    }

    /** Every page of the three maps is a true copy. */
    ghost predicate Copies()
      reads this`rowPages, this`columnPages, this`statsPages
    {
      && (forall p :: p in rowPages ==> IsRowPage(file, pages, p, rowPages[p]))
      && (forall p :: p in columnPages ==> IsColumnPage(file, pages, p, columnPages[p]))
      && (forall k :: k in statsPages ==>
            k.kind.NumericStats? && IsStatsPage(file, pages, k.page, k.column, statsPages[k]))
    }

    ghost predicate Fixed()
    {
      Covers(file, pages) && size == PageBytes(file, pages) && maxCachedBytes > 0
    }

    /** One list names the pages of all three maps without repetition, and the counter is their size. */
    ghost predicate Consistent()
      reads this
    {
      && Fixed() && Copies() && Distinct(lru)
      && (forall k :: k in lru <==> Cached(k))
      && cachedBytes == Total(lru, size)
    }

    ghost predicate Valid()
      reads this
    {
      Consistent() && Settled(lru, size, maxCachedBytes)
    }

    constructor (file: TableFile, columns: U32, pageBlocks: U32, maxCachedBytes: nat)
      requires file.numBlocks < U32_LIMIT && Covers(file, Pages(file.numBlocks, pageBlocks, columns))
      requires maxCachedBytes > 0
      ensures Valid() && lru == []
      ensures this.file == file && pages == Pages(file.numBlocks, pageBlocks, columns)
    {
      this.file := file;
      this.pages := Pages(file.numBlocks, pageBlocks, columns);
      this.maxCachedBytes := maxCachedBytes;
      this.size := PageBytes(file, Pages(file.numBlocks, pageBlocks, columns));
      lru, rowPages, columnPages, statsPages, cachedBytes := [], map[], map[], map[], 0;
    }

    lemma {:induction false} Covered()
      requires Valid()
      ensures Covers(file, pages) && pages.Valid()
      ensures file.layout.ROW? ==> |file.rowMeta| == pages.numBlocks
      ensures file.layout.COLUMN? ==> |file.columnMeta| == pages.numBlocks * pages.columns
    {
    }

    lemma {:induction false} StatsCovered()
      requires Valid()
      ensures Covers(file, pages)
      ensures forall c :: c in file.stats ==> |file.stats[c]| == pages.numBlocks
    {
    }

    /** A hit only moves the page to the front. */
    method TouchPage(k: PageKey)
      requires Valid() && Cached(k)
      modifies this`lru
      ensures Valid() && lru == Touch(old(lru), k) && lru == Fit(Touch(old(lru), k), size, maxCachedBytes)
    {
      hide Touch, Without, Distinct, Total, Covers, PageBytes, IsRowPage, IsColumnPage, IsStatsPage;
      TouchKeeps(lru, k, size);
      lru := Touch(lru, k);
      FitKeeps(lru, size, maxCachedBytes);
      assert forall x :: Cached(x) == old(Cached(x));
    }

    method EvictIfNeeded()
      requires Consistent() && lru != []
      modifies this`lru, this`rowPages, this`columnPages, this`statsPages, this`cachedBytes
      ensures Valid() && lru == Fit(old(lru), size, maxCachedBytes)
      ensures lru != [] && lru[0] == old(lru[0])
    {
      hide Distinct, Covers, PageBytes, IsRowPage, IsColumnPage, IsStatsPage, Copies;
      ghost var first := lru[0];
      while cachedBytes > maxCachedBytes && |lru| > 1
        invariant Consistent() && lru != [] && lru[0] == first
        invariant Fit(lru, size, maxCachedBytes) == Fit(old(lru), size, maxCachedBytes)
        decreases |lru|
      {
        DropLast(lru, size);
        var victim := lru[|lru| - 1];
        assert victim in lru;
        lru := lru[..|lru| - 1];
        EvictPage(victim);
      }
    }

    /** evict_page: drops a page that has already left the list from its map. */
    method EvictPage(k: PageKey)
      requires Fixed() && Copies() && Distinct(lru) && Cached(k) && cachedBytes == Total(lru, size) + size(k)
      requires forall x :: x in lru <==> Cached(x) && x != k
      modifies this`rowPages, this`columnPages, this`statsPages, this`cachedBytes
      ensures Consistent()
    {
      hide Distinct, Total, Covers, PageBytes, IsRowPage, IsColumnPage, IsStatsPage;
      match k.kind
      case RowMetadata =>
        RowPageBytes(file, pages, k.page, rowPages[k.page]);
        cachedBytes := cachedBytes - |rowPages[k.page]| * ROW_META_BYTES;
        rowPages := rowPages - {k.page};
      case ColumnMetadata =>
        ColumnPageBytes(file, pages, k.page, columnPages[k.page]);
        cachedBytes := cachedBytes - |columnPages[k.page]| * COLUMN_META_BYTES;
        columnPages := columnPages - {k.page};
      case NumericStats =>
        StatsPageBytes(file, pages, k.page, k.column, statsPages[k]);
        cachedBytes := cachedBytes - StatsBytes(statsPages[k]);
        statsPages := statsPages - {k};
    }

    /** get_row_page: the page is the file's, however often it came and went before. */
    method GetRowPage(page: nat) returns (blocks: seq<RowBlockMeta>)
      requires Valid() && file.layout.ROW? && pages.First(page) < pages.numBlocks
      modifies this
      ensures Valid() && blocks == RowPage(file, pages, page)
      ensures lru == Fit(Touch(old(lru), RowKey(page)), size, maxCachedBytes)
    {
      hide Without, Distinct, Total, Fit, PageBytes, IsColumnPage, IsStatsPage;
      if page in rowPages {
        TouchPage(RowKey(page));
        return rowPages[page];
      }
      blocks := file.rowMeta[pages.First(page)..pages.End(page)];
      RowPageBytes(file, pages, page, blocks);
      TouchKeeps(lru, RowKey(page), size);
      TotalWithout(lru, RowKey(page), size);
      lru := [RowKey(page)] + lru;
      rowPages := rowPages[page := blocks];
      cachedBytes := cachedBytes + |blocks| * ROW_META_BYTES;
      EvictIfNeeded();
      assert lru[0] in lru;
      return rowPages[page];
    }

    method GetColumnPage(page: nat) returns (blocks: seq<ColumnBlockMeta>)
      requires Valid() && file.layout.COLUMN? && pages.First(page) < pages.numBlocks
      modifies this
      ensures Valid() && blocks == ColumnEntries(file, pages, pages.First(page), pages.End(page))
      ensures lru == Fit(Touch(old(lru), ColumnKey(page)), size, maxCachedBytes)
    {
      hide Without, Distinct, Total, Fit, PageBytes, IsRowPage, IsStatsPage;
      if page in columnPages {
        TouchPage(ColumnKey(page));
        return columnPages[page];
      }
      blocks := ColumnEntries(file, pages, pages.First(page), pages.End(page));
      ColumnPageBytes(file, pages, page, blocks);
      TouchKeeps(lru, ColumnKey(page), size);
      TotalWithout(lru, ColumnKey(page), size);
      lru := [ColumnKey(page)] + lru;
      columnPages := columnPages[page := blocks];
      cachedBytes := cachedBytes + |blocks| * COLUMN_META_BYTES;
      EvictIfNeeded();
      assert lru[0] in lru;
      return columnPages[page];
    }

    method GetStatsPage(column: nat, page: nat) returns (stats: Option<seq<BlockStats>>)
      requires Valid() && pages.First(page) < pages.numBlocks
      modifies this
      ensures Valid() && stats == StatsPage(file, pages, page, column)
      ensures lru == Fit(Touch(old(lru), PageKey(NumericStats, page, column)), size, maxCachedBytes)
    {
      hide Without, Distinct, Total, Fit, PageBytes, IsRowPage, IsColumnPage;
      var key := PageKey(NumericStats, page, column);
      if key in statsPages {
        TouchPage(key);
        return statsPages[key];
      }
      stats := StatsPage(file, pages, page, column);
      StatsPageBytes(file, pages, page, column, stats);
      TouchKeeps(lru, key, size);
      TotalWithout(lru, key, size);
      lru := [key] + lru;
      statsPages := statsPages[key := stats];
      cachedBytes := cachedBytes + StatsBytes(stats);
      EvictIfNeeded();
      assert lru[0] in lru;
      return statsPages[key];
    }

    /** The end of [first, first + count) in 32 bits, unless it is out of bounds. */
    method RangeEnd(first: U32, count: U32) returns (last: Option<U32>)
      requires count > 0
      ensures last == if first + count > pages.numBlocks then None else Some(first + count)
    {
      var end := (first + count) % U32_LIMIT;
      if end > pages.numBlocks || end < first { return None; }
      return Some(end);
    }

    /**
     read_row_metadata_range: what one direct read returns. The end of the range is computed in 32
     bits; the wrap-around test makes the error exactly "beyond the last block".
     */
    method ReadRowMetadataRange(first: U32, count: U32) returns (r: Result<seq<RowBlockMeta>>)
      requires Valid() && file.layout.ROW?
      modifies this
      ensures Valid()
      ensures count > 0 && first + count > pages.numBlocks ==> r == Err
      ensures count > 0 && first + count <= pages.numBlocks ==>
                first + count <= |file.rowMeta| && r == Ok(file.rowMeta[first..first + count])
      ensures count == 0 ==> r == Ok([])
    {
      hide Valid, Covers;
      if count == 0 { return Ok([]); }
      var last := RangeEnd(first, count);
      if last.None? { return Err; }
      var blocks := CollectRows(first, last.value);
      return Ok(blocks);
    }

    /** The pages of the range, each cut to the blocks in it. */
    method CollectRows(first: nat, last: nat) returns (result: seq<RowBlockMeta>)
      requires Valid() && file.layout.ROW? && first < last <= pages.numBlocks
      modifies this
      ensures Valid() && last <= |file.rowMeta| && result == file.rowMeta[first..last]
    {
      hide Valid, Fit, Touch, Pages.Reached, Pages.PageOf, Pages.First, Pages.End, Covers;
      Covered();
      pages.PageRange(first, last);
      var page := pages.PageOf(first);
      result := [];
      while page <= pages.PageOf(last - 1)
        invariant Valid() && page <= pages.PageOf(last - 1) + 1
        invariant first <= pages.Reached(first, last, page) <= last
        invariant page > pages.PageOf(last - 1) ==> pages.Reached(first, last, page) == last
        invariant result == file.rowMeta[first..pages.Reached(first, last, page)]
      {
        pages.PageStep(first, last, page);
        var blocks := GetRowPage(page);
        var from, end := pages.Reached(first, last, page), pages.Reached(first, last, page + 1);
        SliceStep(file.rowMeta, first, from, end, pages.First(page), pages.End(page));
        result := result + blocks[from - pages.First(page)..end - pages.First(page)];
        page := page + 1;
      }
    }

    /** read_column_metadata_range: all columns of the blocks of the range. */
    method ReadColumnMetadataRange(first: U32, count: U32) returns (r: Result<seq<ColumnBlockMeta>>)
      requires Valid() && file.layout.COLUMN? && pages.columns > 0
      modifies this
      ensures Valid()
      ensures count > 0 && first + count > pages.numBlocks ==> r == Err
      ensures count > 0 && first + count <= pages.numBlocks ==>
                Covers(file, pages) && r == Ok(ColumnEntries(file, pages, first, first + count))
      ensures count == 0 ==> r == Ok([])
    {
      hide Valid, Covers, ColumnEntries;
      Covered();
      if count == 0 { return Ok([]); }
      var last := RangeEnd(first, count);
      if last.None? { return Err; }
      var blocks := CollectColumns(first, last.value);
      return Ok(blocks);
    }

    method CollectColumns(first: nat, last: nat) returns (result: seq<ColumnBlockMeta>)
      requires Valid() && file.layout.COLUMN? && first < last <= pages.numBlocks
      modifies this
      ensures Valid() && Covers(file, pages) && result == ColumnEntries(file, pages, first, last)
    {
      hide Valid, Fit, Touch, Pages.Reached, Pages.PageOf, Pages.First, Pages.End, Covers;
      hide ColumnEntries;
      Covered();
      pages.PageRange(first, last);
      var page := pages.PageOf(first);
      NoColumnEntries(file, pages, first);
      result := [];
      while page <= pages.PageOf(last - 1)
        invariant Valid() && page <= pages.PageOf(last - 1) + 1
        invariant first <= pages.Reached(first, last, page) <= last
        invariant page > pages.PageOf(last - 1) ==> pages.Reached(first, last, page) == last
        invariant result == ColumnEntries(file, pages, first, pages.Reached(first, last, page))
      {
        pages.PageStep(first, last, page);
        var blocks := GetColumnPage(page);
        var from, end := pages.Reached(first, last, page), pages.Reached(first, last, page + 1);
        ColumnEntriesStep(file, pages, first, from, end, pages.First(page), pages.End(page));
        result := result
            + blocks[(from - pages.First(page)) * pages.columns..(end - pages.First(page)) * pages.columns];
        page := page + 1;
      }
    }

    /**
     read_numeric_stats_range: for every requested column that has statistics, those of the range;
     a column without statistics is left out.
     */
    method ReadNumericStatsRange(first: U32, count: U32, columns: seq<nat>) returns (r: Result<StatsRange>)
      requires Valid()
      modifies this
      ensures Valid()
      ensures count > 0 && columns != [] && first + count > pages.numBlocks ==> r == Err
      ensures count > 0 && first + count <= pages.numBlocks ==>
                StatsReach(file, first + count) && r
                    == Ok(StatsRange(first, count, StatsSlices(file, columns, first, first + count)))
      ensures count == 0 || (columns == [] && first + count > pages.numBlocks)
              ==> r == Ok(StatsRange(first, count, map[]))
    {
      hide Valid, Covers;
      StatsCovered();
      if count == 0 || columns == [] { return Ok(StatsRange(first, count, map[])); }
      var last := RangeEnd(first, count);
      if last.None? { return Err; }
      var byColumn := CollectStats(first, last.value, columns);
      r := Ok(StatsRange(first, count, byColumn));
    }

    method CollectStats(first: nat, last: nat, columns: seq<nat>) returns (byColumn: map<nat, seq<BlockStats>>)
      requires Valid() && first < last <= pages.numBlocks
      modifies this
      ensures Valid() && StatsReach(file, last) && byColumn == StatsSlices(file, columns, first, last)
    {
      hide Valid, Covers;
      StatsCovered();
      byColumn := map[];
      for i := 0 to |columns|
        invariant Valid()
        invariant byColumn == StatsSlices(file, columns[..i], first, last)
      {
        var column := CollectColumnStats(first, last, columns[i]);
        if column.Some? { byColumn := byColumn[columns[i] := column.value]; }
        assert columns[..i + 1] == columns[..i] + [columns[i]];
      }
      assert columns[..|columns|] == columns;
    }

    /** The pages of one column, until a page says that the column has no statistics. */
    method CollectColumnStats(first: nat, last: nat, column: nat) returns (r: Option<seq<BlockStats>>)
      requires Valid() && first < last <= pages.numBlocks
      modifies this
      ensures Valid()
      ensures column !in file.stats ==> r == None
      ensures column in file.stats ==> last <= |file.stats[column]| && r == Some(file.stats[column][first..last])
    {
      hide Valid, Fit, Touch, Pages.Reached, Pages.PageOf, Pages.First, Pages.End, Covers;
      Covered();
      StatsCovered();
      pages.PageRange(first, last);
      var page, result := pages.PageOf(first), [];
      while page <= pages.PageOf(last - 1)
        invariant Valid() && page <= pages.PageOf(last - 1) + 1
        invariant first <= pages.Reached(first, last, page) <= last
        invariant page > pages.PageOf(last - 1) ==> pages.Reached(first, last, page) == last && column in file.stats
        invariant column in file.stats ==> result == file.stats[column][first..pages.Reached(first, last, page)]
      {
        pages.PageStep(first, last, page);
        var blocks := GetStatsPage(column, page);
        if blocks.None? { return None; }
        var from, end := pages.Reached(first, last, page), pages.Reached(first, last, page + 1);
        SliceStep(file.stats[column], first, from, end, pages.First(page), pages.End(page));
        result := result + blocks.value[from - pages.First(page)..end - pages.First(page)];
        page := page + 1;
      }
      r := Some(result);
    }
  }
}
