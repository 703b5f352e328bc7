/** The LRU cache of data blocks shared by the cursors of a tree. */
module BlockCache {
  import opened Storage
  import opened Codec
  import opened Lru

  datatype BlockKind = RowBlock | ColumnBlock
  datatype CacheKey = CacheKey(table: U64, kind: BlockKind, block: nat, column: nat)

  class SSTableBlockCache {
    const maxCachedBytes: nat
    /** What the files hold: every loader passed for a key returns its bytes. Files never change, but new ones come. */
    ghost var source: CacheKey -> Bytes
    ghost var size: CacheKey -> nat
    var lru: seq<CacheKey>
    var entries: map<CacheKey, Bytes>
    var cachedBytes: nat
    var hits: nat
    var misses: nat

    /** Every entry is a true copy. */
    ghost predicate Copies()
      reads this`entries, this`source, this`size
    {
      forall k :: k in entries ==> entries[k] == source(k) && size(k) == |source(k)|
    }

    /** The list names each entry once, the entries are true copies, and the counter is their size. */
    ghost predicate Consistent()
      reads this
    {
      && Distinct(lru) && (forall k :: k in lru <==> k in entries)
      && Copies() && cachedBytes == Total(lru, size)
    }

    ghost predicate Valid()
      reads this
    {
      && maxCachedBytes > 0 && Consistent() && Settled(lru, size, maxCachedBytes)
      && forall k :: size(k) == |source(k)|
    }

    /** The cache has been told nothing new, and holds at most blocks of this table besides what it held. */
    twostate predicate OnlyRead(table: U64)
      reads this
    {
      source == old(source) && forall k :: k in entries ==> k in old(entries) || k.table == table
    }

    constructor (maxCachedBytes: nat, ghost source: CacheKey -> Bytes)
      requires maxCachedBytes > 0
      ensures Valid() && lru == [] && hits == 0 && misses == 0
      ensures this.maxCachedBytes == maxCachedBytes && this.source == source
    {
      this.maxCachedBytes := maxCachedBytes;
      this.source := source;
      this.size := k => |source(k)|;
      lru, entries, cachedBytes, hits, misses := [], map[], 0, 0, 0;
    }

    /** New files: the cache may be told about keys that it holds no entry for. */
    ghost method Learn(newSource: CacheKey -> Bytes)
      requires Valid() && forall k :: k in entries ==> newSource(k) == source(k)
      modifies this`source, this`size
      ensures Valid() && source == newSource
    {
      hide Distinct, Total;
      TotalSame(lru, size, k => |newSource(k)|);
      source, size := newSource, k => |newSource(k)|;
    }

    /**
     read_block: the bytes are the loader's, the key becomes the most recent one, and of the keys in
     recency order the longest prefix that fits the budget stays.
     */
    method ReadBlock(key: CacheKey, loader: () -> Bytes) returns (bytes: Bytes)
      requires Valid() && loader() == source(key)
      modifies this`lru, this`entries, this`cachedBytes, this`hits, this`misses
      ensures Valid() && bytes == loader()
      ensures lru == Fit(Touch(old(lru), key), size, maxCachedBytes) && key in entries && OnlyRead(key.table)
      ensures if key in old(entries) then hits == old(hits) + 1 && misses == old(misses)
              else misses == old(misses) + 1 && hits == old(hits)
    {
      hide Touch, Without, Distinct, Fit, Total;
      TouchKeeps(lru, key, size);
      FitKeeps(Touch(lru, key), size, maxCachedBytes);
      if key in entries {
        hits := hits + 1;
        lru := Touch(lru, key);
        return entries[key];
      }
      misses := misses + 1;
      bytes := loader();
      InsertFront(key, bytes);
      EvictIfNeeded();
      assert lru[0] in lru;
      return entries[key];
    }

    method InsertFront(key: CacheKey, bytes: Bytes)
      requires Consistent() && key !in entries && bytes == source(key) && size(key) == |bytes|
      modifies this`lru, this`entries, this`cachedBytes
      ensures Consistent() && lru == Touch(old(lru), key) && entries == old(entries)[key := bytes]
    {
      hide Distinct, Total, Without;
      TouchKeeps(lru, key, size);
      TotalWithout(lru, key, size);
      lru := [key] + lru;
      entries := entries[key := bytes];
      cachedBytes := cachedBytes + |bytes|;
    }

    method EvictIfNeeded()
      requires Consistent()
      modifies this`lru, this`entries, this`cachedBytes
      ensures Consistent() && lru == Fit(old(lru), size, maxCachedBytes)
    {
      hide Distinct;
      while cachedBytes > maxCachedBytes && |lru| > 1
        invariant Consistent()
        invariant Fit(lru, size, maxCachedBytes) == Fit(old(lru), size, maxCachedBytes)
        decreases |lru|
      {
        DropLast(lru, size);
        var victim := lru[|lru| - 1];
        assert victim in lru;
        lru := lru[..|lru| - 1];
        EvictPage(victim);
      }
    }

    /** evict_page: drops the entry of a key that has already left the list. */
    method EvictPage(key: CacheKey)
      requires Copies() && Distinct(lru) && key in entries && cachedBytes == Total(lru, size) + size(key)
      requires forall k :: k in lru <==> k in entries && k != key
      modifies this`entries, this`cachedBytes
      ensures Consistent() && entries == old(entries) - {key}
    {
      hide Distinct, Total;
      cachedBytes := cachedBytes - |entries[key]|;
      entries := entries - {key};
    }
  }
}
