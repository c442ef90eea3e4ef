/** The client's file operations: capacity, flush interval, and the detection of files that
    other clients have changed (client_src/netfs.cpp). */
module NetFS {
  import opened Ranges
  import opened FlatFile
  import opened CachedFile
  import opened Servers
  import opened Recency
  import opened CacheSteps
  import opened Caches

  /** How many blocks may be cached, how many an eviction drops, and how many writes go between two flushes. */
  datatype Limits = Limits(maxCacheEntry: nat, evictCount: nat, flushInterval: nat)

  class NetFS {
    const cache: Cache
    const maxCacheEntry: nat
    const evictCount: nat
    const flushInterval: nat
    var writeOpCount: nat

    ghost predicate Valid()
      reads this, cache, cache.server
    {
      cache.Valid()
    }

    constructor (server: Server, blockSize: nat, maxCacheEntry: nat, evictCount: nat, flushInterval: nat)
      requires blockSize > 0 && server.Valid()
      ensures Valid() && fresh(cache) && cache.server == server && cache.blockSize == blockSize
      ensures this.maxCacheEntry == maxCacheEntry && this.evictCount == evictCount
      ensures this.flushInterval == flushInterval
      ensures cache.fileMap == map[] && cache.recent == [] && writeOpCount == 0
    {
      cache := new Cache(blockSize, server);
      this.maxCacheEntry, this.evictCount, this.flushInterval := maxCacheEntry, evictCount, flushInterval;
      this.writeOpCount := 0;
    }

    /** A quiet step kept the sizes the server knows, but for those of `grown`, and kept clean files settled. */
    twostate predicate SizesKept(grown: set<string>)
      requires cache.blockSize > 0
      reads cache, cache.server
    {
      (old(cache.Sized()) ==> cache.Sized()) && cache.Unstored() <= old(cache.Unstored()) + grown
    }

    function Bounds(): Limits {
      Limits(maxCacheEntry, evictCount, flushInterval)
    }

    /** A step has cleaned only what it has stored. */
    twostate predicate CleanOnlyStored()
      requires old(Valid()) && Valid()
      reads this, cache, cache.server
    {
      CleanedAreStored(old(cache.fileMap), old(cache.server.files), cache.fileMap, cache.server.files, cache.blockSize)
    }

    /** No copy was dropped; the sizes known to the client are moved by the effect `e` on `f` alone. */
    twostate predicate CopiesKept(f: string, e: Effect)
      reads cache
    {
      old(cache.fileMap).Keys <= cache.fileMap.Keys && OwnSizes(old(cache.fileMap), cache.fileMap, f, e)
    }

    /** A copy is marked as not to be trusted. */
    ghost predicate SomeStale()
      reads cache
    {
      exists g <- cache.fileMap :: cache.fileMap[g].stale
    }

    /** The cache is within its limit and one eviction makes room for so many blocks. */
    predicate Fits(span: nat)
      reads this, cache
    {
      |cache.recent| <= maxCacheEntry && span <= evictCount
    }

    method Evict() returns (err: int)
      requires Valid()
      modifies cache, cache.server
      ensures Valid()
      ensures cache.recent == if err == 0 then Trimmed(old(cache.recent), Bounds()) else old(cache.recent)
      ensures err == 0 ==> CleanOnlyStored()
      ensures cache.server.Refused(err)
      ensures old(cache.Trusted()) ==> cache.Trusted()
      ensures cache.Kept(old(cache.fileMap), old(cache.server.files))
      ensures err == 0 && |old(cache.recent)| <= maxCacheEntry + evictCount ==> |cache.recent| <= maxCacheEntry
      ensures old(cache.Quiet()) ==> err == 0 && cache.Quiet() && cache.Views() == old(cache.Views()) && SizesKept({})
    {
      err := 0;
      if |cache.recent| > maxCacheEntry {
        err := EvictCount(evictCount);
      } else {
        NothingKeepsViews(cache.fileMap, cache.server.files, cache.blockSize);
      }
    }

    method EvictCount(count: nat) returns (err: int)
      requires Valid()
      modifies cache, cache.server
      ensures Valid()
      ensures cache.recent == if err == 0 then CutBy(old(cache.recent), count) else old(cache.recent)
      ensures err == 0 ==> CleanOnlyStored()
      ensures err == 0 ==> forall g <- cache.fileMap :: AllClean(cache.fileMap[g])
      ensures cache.server.Refused(err)
      ensures old(cache.Trusted()) ==> cache.Trusted()
      ensures cache.Kept(old(cache.fileMap), old(cache.server.files))
      ensures old(cache.Quiet()) ==> err == 0 && cache.Quiet() && cache.Views() == old(cache.Views()) && SizesKept({})
      ensures old(cache.Quiet() && cache.Sized()) ==> cache.Unstored() == {}
    {
      err := cache.EvictBlocks(count);
      if old(cache.Quiet()) {
        SameViews(old(cache.fileMap), old(cache.server.files), cache.fileMap, cache.server.files, cache.blockSize);
      }
    }

    /** The same as a step of a client: whatever file one asks about, it looks as it did. */
    method EvictStep(count: nat, ghost f: string) returns (err: int)
      requires Valid()
      modifies cache, cache.server
      ensures Valid()
      ensures err == 0 ==> forall g <- cache.fileMap :: AllClean(cache.fileMap[g])
      ensures cache.recent == if err == 0 then CutBy(old(cache.recent), count) else old(cache.recent)
      ensures cache.server.Refused(err) && cache.fileMap.Keys == old(cache.fileMap).Keys && CopiesKept(f, Keep)
      ensures old(cache.Trusted()) ==>
                cache.Trusted() && cache.Did(old(cache.fileMap), old(cache.server.files), f, Keep)
      ensures old(cache.Quiet()) ==> err == 0 && cache.Quiet() && cache.Views() == old(cache.Views()) && SizesKept({})
      ensures old(cache.Quiet() && cache.Sized()) ==> cache.Unstored() == {}
    {
      err := EvictCount(count);
      KeepsViewsIsOwn(old(cache.fileMap), old(cache.server.files), cache.fileMap, cache.server.files,
                      cache.blockSize, f);
    }

    method Read(f: string, offset: nat, size: nat, buf: array<Byte>) returns (err: int, totalRead: nat)
      requires Valid() && size <= buf.Length
      modifies cache, cache.server, buf
      ensures Valid()
      ensures ReadOrdered(old(cache.recent), cache.recent, f, offset, size, err == 0, totalRead, Bounds(),
                          cache.blockSize)
      ensures cache.server.Refused(err) && CopiesKept(f, Keep) && (err == 0 ==> f in cache.fileMap)
      ensures old(cache.Trusted()) ==>
                cache.Trusted() && cache.Did(old(cache.fileMap), old(cache.server.files), f, Keep)
      ensures totalRead <= size
      ensures old(cache.Trusted()) && err == 0 && cache.Current(f) ==>
                buf[..totalRead] == PRead(cache.View(f), offset, size)
      ensures err == 0 && old(Fits(SpannedBlocks(offset, size, cache.blockSize))) ==> |cache.recent| <= maxCacheEntry
      ensures old(cache.Quiet()) && err != 0 ==> cache.recent == old(cache.recent)
      ensures old(cache.Quiet()) ==>
                && cache.Quiet() && cache.Views() == old(cache.Views()) && SizesKept({})
                && (err == 0 <==> f in cache.Views())
                && (err == 0 ==> buf[..totalRead] == PRead(cache.Views()[f], offset, size))
    {
      err, totalRead := ReadCache(f, offset, size, buf);
      if err != 0 {
        return;
      }
      ghost var cached, files, read := cache.fileMap, cache.server.files, cache.recent;
      err := Evict();
      ReadThenEvicted(old(cache.recent), read, cache.recent, f, offset, size, err == 0, totalRead, Bounds(),
                      cache.blockSize);
      if old(cache.Trusted()) {
        OwnThenKept(old(cache.fileMap), old(cache.server.files), cached, files, cache.fileMap, cache.server.files,
                    cache.blockSize, f, Keep);
      }
    }

    /** The cache's part of a read. */
    method ReadCache(f: string, offset: nat, size: nat, buf: array<Byte>) returns (err: int, totalRead: nat)
      requires Valid() && size <= buf.Length
      modifies cache, cache.server, buf
      ensures Valid()
      ensures cache.ReadOrder(old(cache.recent), f, offset, size, err, totalRead)
      ensures cache.server.Refused(err) && CopiesKept(f, Keep) && (err == 0 ==> f in cache.fileMap)
      ensures old(cache.Trusted()) ==>
                cache.Trusted() && cache.Did(old(cache.fileMap), old(cache.server.files), f, Keep)
      ensures totalRead <= size
      ensures err == 0 && f in cache.server.files ==> buf[..totalRead] == PRead(cache.View(f), offset, size)
      ensures |cache.recent| <= |old(cache.recent)| + SpannedBlocks(offset, size, cache.blockSize)
      ensures old(cache.Quiet()) ==>
                && cache.Quiet() && cache.Views() == old(cache.Views()) && SizesKept({})
                && (err == 0 <==> f in cache.Views()) && (err != 0 ==> cache.recent == old(cache.recent))
    {
      err, totalRead := cache.Read(f, offset, buf, size);
    }

    /** The cache's part of a write. */
    method WriteCache(f: string, offset: nat, data: seq<Byte>) returns (err: int)
      requires Valid()
      modifies cache, cache.server
      ensures Valid()
      ensures Extended(old(cache.recent), cache.recent, f, BlockNum(offset, cache.blockSize),
                       EndBlock(offset + |data|, cache.blockSize))
      ensures err == 0 ==> StillDirty(old(cache.fileMap), cache.fileMap, cache.blockSize, f, data)
      ensures cache.server.Refused(err) && CopiesKept(f, Overwriting(offset, data)) && (err == 0 ==> f in cache.fileMap)
      ensures old(cache.Trusted()) ==>
                cache.Trusted() && cache.Did(old(cache.fileMap), old(cache.server.files), f, Overwriting(offset, data))
      ensures |cache.recent| <= |old(cache.recent)| + SpannedBlocks(offset, |data|, cache.blockSize)
      ensures err != 0 ==> cache.recent == old(cache.recent)
      ensures old(cache.Quiet()) ==>
                && cache.Quiet() && (err == 0 <==> f in old(cache.Views()))
                && cache.Views() == Overwritten(old(cache.Views()), f, offset, data)
      ensures old(cache.Quiet() && InFile(cache.Views(), f, offset, data)) ==>
                SizesKept(Grows(old(cache.Views()), f, offset, data))
    {
      err := cache.Write(f, offset, data);
      if old(cache.Quiet()) && err == 0 {
        OneViewChanged(old(cache.fileMap), old(cache.server.files), cache.fileMap, cache.server.files, cache.blockSize,
                       f);
      }
    }

    /** Counts a write and flushes everything at the interval; the outcome of the flush is dropped. */
    method CountWrite()
      requires Valid()
      modifies this, cache, cache.server
      ensures Valid() && cache.recent == old(cache.recent)
      ensures cache.server.Refused(0) || (cache.server.Refused(EIO) && SomeStale())
      ensures old(cache.Trusted()) ==> cache.Trusted()
      ensures cache.Kept(old(cache.fileMap), old(cache.server.files))
      ensures writeOpCount == CountedOn(old(writeOpCount), Bounds())
      ensures cache.server.Refused(0) ==> CleanOnlyStored()
      ensures cache.server.Refused(0) && writeOpCount == 0 ==> forall g <- cache.fileMap :: AllClean(cache.fileMap[g])
      ensures old(cache.Quiet()) ==> cache.Quiet() && cache.Views() == old(cache.Views()) && SizesKept({})
      ensures old(cache.Quiet()) && writeOpCount == 0 ==> forall f <- cache.fileMap :: AllClean(cache.fileMap[f])
    {
      writeOpCount := writeOpCount + 1;
      if writeOpCount >= flushInterval {
        writeOpCount := 0;
        var _ := cache.FlushDirtyBlocks();
        if old(cache.Quiet()) {
          SameViews(old(cache.fileMap), old(cache.server.files), cache.fileMap, cache.server.files, cache.blockSize);
        }
      } else {
        NothingKeepsViews(cache.fileMap, cache.server.files, cache.blockSize);
      }
    }

    method Write(f: string, offset: nat, data: seq<Byte>) returns (err: int)
      requires Valid()
      modifies this, cache, cache.server
      ensures Valid()
      ensures writeOpCount == if err == 0 then CountedOn(old(writeOpCount), Bounds()) else old(writeOpCount)
      ensures err == 0 && writeOpCount == 0 && cache.server.Refused(0) ==>
                IsSaved(old(cache.fileMap), f, data, cache.fileMap, cache.server.files, cache.blockSize,
                        old(cache.Trusted()))
      ensures WriteOrdered(old(cache.recent), cache.recent, f, offset, |data|, err == 0, Bounds(), cache.blockSize)
      ensures cache.server.Refused(err) || (err == 0 && cache.server.Refused(EIO) && SomeStale())
      ensures CopiesKept(f, Overwriting(offset, data)) && (err == 0 ==> f in cache.fileMap)
      ensures old(cache.Trusted()) ==>
                cache.Trusted() && cache.Did(old(cache.fileMap), old(cache.server.files), f, Overwriting(offset, data))
      ensures err == 0 && old(Fits(SpannedBlocks(offset, |data|, cache.blockSize))) ==> |cache.recent| <= maxCacheEntry
      ensures old(cache.Quiet()) && err != 0 ==> cache.recent == old(cache.recent)
      ensures old(cache.Quiet()) ==>
                && cache.Quiet() && (err == 0 <==> f in old(cache.Views()))
                && cache.Views() == Overwritten(old(cache.Views()), f, offset, data)
      ensures old(cache.Quiet() && InFile(cache.Views(), f, offset, data)) ==>
                SizesKept(Grows(old(cache.Views()), f, offset, data))
    {
      err := WriteCache(f, offset, data);
      ghost var written := cache.recent;
      if err != 0 {
        WriteThenEvicted(old(cache.recent), written, written, f, offset, |data|, false, Bounds(), cache.blockSize);
        return;
      }
      err := WriteFinish(f, offset, data, old(cache.fileMap), old(cache.server.files), old(cache.recent),
                         old(cache.Trusted()));
    }

    /** The same as part of a write that began in state (`start`, `files`) with the list `recent`. */
    method WriteFinish(ghost f: string, ghost offset: nat, ghost data: seq<Byte>, ghost start: FileMap,
                       ghost files: Files, ghost recent: seq<UseRecord>, ghost trusted: bool)
      returns (err: int)
      requires Valid() && BothOk(start, cache.fileMap, cache.blockSize) && f in cache.fileMap
      requires StillDirty(start, cache.fileMap, cache.blockSize, f, data)
      requires start.Keys <= cache.fileMap.Keys && OwnSizes(start, cache.fileMap, f, Overwriting(offset, data))
      requires trusted ==> cache.Trusted() && cache.Did(start, files, f, Overwriting(offset, data))
      requires Extended(recent, cache.recent, f, BlockNum(offset, cache.blockSize),
                        EndBlock(offset + |data|, cache.blockSize))
      modifies this, cache, cache.server
      ensures Valid() && f in cache.fileMap
      ensures writeOpCount == if err == 0 then CountedOn(old(writeOpCount), Bounds()) else old(writeOpCount)
      ensures err == 0 && cache.server.Refused(0) && writeOpCount == 0 ==>
                IsSaved(start, f, data, cache.fileMap, cache.server.files, cache.blockSize, trusted)
      ensures WriteOrdered(recent, cache.recent, f, offset, |data|, err == 0, Bounds(), cache.blockSize)
      ensures cache.server.Refused(err) || (err == 0 && cache.server.Refused(EIO) && SomeStale())
      ensures start.Keys <= cache.fileMap.Keys && OwnSizes(start, cache.fileMap, f, Overwriting(offset, data))
      ensures trusted ==> cache.Trusted() && cache.Did(start, files, f, Overwriting(offset, data))
      ensures err == 0 && |old(cache.recent)| <= maxCacheEntry + evictCount ==> |cache.recent| <= maxCacheEntry
      ensures old(cache.Quiet()) ==> err == 0 && cache.Quiet() && cache.Views() == old(cache.Views()) && SizesKept({})
    {
      ghost var cached, files1, written := cache.fileMap, cache.server.files, cache.recent;
      err := WriteEnds(start, f, data);
      WriteThenEvicted(recent, written, cache.recent, f, offset, |data|, err == 0, Bounds(), cache.blockSize);
      if trusted {
        OwnThenKept(start, files, cached, files1, cache.fileMap, cache.server.files, cache.blockSize, f,
                    Overwriting(offset, data));
      }
    }

    /** What a write does after the cache has taken it. */
    method WriteEnds(ghost start: FileMap, ghost f: string, ghost data: seq<Byte>) returns (err: int)
      requires Valid() && BothOk(start, cache.fileMap, cache.blockSize)
      requires StillDirty(start, cache.fileMap, cache.blockSize, f, data)
      modifies this, cache, cache.server
      ensures Valid()
      ensures writeOpCount == if err == 0 then CountedOn(old(writeOpCount), Bounds()) else old(writeOpCount)
      ensures cache.recent == if err == 0 then Trimmed(old(cache.recent), Bounds()) else old(cache.recent)
      ensures err == 0 && cache.server.Refused(0) && writeOpCount == 0 ==>
                IsSaved(start, f, data, cache.fileMap, cache.server.files, cache.blockSize, old(cache.Trusted()))
      ensures cache.server.Refused(err) || (err == 0 && cache.server.Refused(EIO) && SomeStale())
      ensures old(cache.Trusted()) ==> cache.Trusted()
      ensures cache.Kept(old(cache.fileMap), old(cache.server.files))
      ensures err == 0 && |old(cache.recent)| <= maxCacheEntry + evictCount ==> |cache.recent| <= maxCacheEntry
      ensures old(cache.Quiet()) ==> err == 0 && cache.Quiet() && cache.Views() == old(cache.Views()) && SizesKept({})
    {
      err := Evict();
      if err != 0 {
        return;
      }
      ghost var cached, files := cache.fileMap, cache.server.files;
      CountWrite();
      KeepsViewsComposes(old(cache.fileMap), old(cache.server.files), cached, files, cache.fileMap, cache.server.files,
                         cache.blockSize);
      if cache.server.Refused(0) {
        CleanedComposes(old(cache.fileMap), old(cache.server.files), cached, files, cache.fileMap, cache.server.files,
                        cache.blockSize);
        if writeOpCount == 0 && old(cache.Trusted()) {
          SavedAfter(start, f, data, old(cache.fileMap), old(cache.server.files), cache.fileMap, cache.server.files,
                     cache.blockSize);
        }
      }
    }

    method Truncate(f: string, size: nat) returns (err: int)
      requires Valid()
      modifies cache, cache.server
      ensures Filtered(old(cache.recent), cache.recent, f)
      ensures Valid() && |cache.recent| <= |old(cache.recent)|
      ensures cache.server.Refused(err) && CopiesKept(f, Resizing(size)) && (err == 0 ==> f in cache.fileMap)
      ensures old(cache.Trusted() && SafeHere(f, size)) ==> cache.Trusted()
      ensures old(cache.Trusted()) ==> cache.Did(old(cache.fileMap), old(cache.server.files), f, Resizing(size))
      ensures old(cache.Quiet()) ==>
                && (err == 0 <==> f in old(cache.Views()))
                && (cache.Quiet() <==> old(SafeHere(f, size)))
                && cache.Views() == Resized(old(cache.Views()), f, size) && SizesKept({})
    {
      err := cache.Truncate(f, size);
      if old(cache.Quiet()) {
        if f in old(cache.server.files) {
          OneViewChanged(old(cache.fileMap), old(cache.server.files), cache.fileMap, cache.server.files,
                         cache.blockSize, f);
        }
      }
    }

    /** Would truncating the file now keep every later read right? */
    predicate SafeHere(f: string, size: nat)
      requires Valid()
      reads this, cache, cache.server
    {
      f in cache.fileMap ==> SafeTruncate(cache.fileMap[f], cache.blockSize, size)
    }

    method Flush(f: string) returns (err: int)
      requires Valid()
      modifies cache, cache.server
      ensures Valid() && err == 0 && cache.recent == old(cache.recent)
      ensures cache.Current(f) ==> AllClean(cache.fileMap[f])
      ensures cache.server.Refused(0) || (cache.server.Refused(EIO) && f in cache.fileMap && cache.fileMap[f].stale)
      ensures cache.fileMap.Keys == old(cache.fileMap).Keys && CopiesKept(f, Keep)
      ensures f in old(cache.fileMap) && !AllClean(old(cache.fileMap)[f]) ==>
                Stored(old(cache.fileMap), old(cache.server.files), cache.fileMap, cache.server.files,
                       cache.blockSize, f)
      ensures old(cache.Trusted()) ==>
                cache.Trusted() && cache.Did(old(cache.fileMap), old(cache.server.files), f, Keep)
      ensures old(cache.Quiet()) ==>
                && cache.Quiet() && cache.Views() == old(cache.Views()) && SizesKept({})
                && (f in cache.fileMap ==> AllClean(cache.fileMap[f]))
                && (old(cache.Sized()) ==>
                      && f !in cache.Unstored()
                      && (f in cache.Views() ==> cache.server.files[f].content == cache.Views()[f]))
    {
      err := cache.Flush(f);
      if f in old(cache.fileMap) {
        KeepsViewsIsOwn(old(cache.fileMap), old(cache.server.files), cache.fileMap, cache.server.files,
                        cache.blockSize, f);
      } else {
        NothingKeepsViews(cache.fileMap, cache.server.files, cache.blockSize);
        KeepsViewsIsOwn(cache.fileMap, cache.server.files, cache.fileMap, cache.server.files, cache.blockSize, f);
      }
      if old(cache.Quiet()) {
        SameViews(old(cache.fileMap), old(cache.server.files), cache.fileMap, cache.server.files, cache.blockSize);
      }
    }

    /** Once this returns, a copy the client still keeps is not stale and agrees with the server. */
    method Access(f: string) returns (err: int)
      requires Valid()
      modifies cache, cache.server
      ensures Filtered(old(cache.recent), cache.recent, f)
      ensures Valid() && |cache.recent| <= |old(cache.recent)|
      ensures cache.server.Refused(err)
      ensures old(cache.Trusted()) ==> cache.Trusted()
      ensures cache.Did(old(cache.fileMap), old(cache.server.files), f, Keep)
      ensures f in cache.fileMap ==> err == 0 && cache.Current(f)
      ensures f in cache.fileMap && old(cache.Trusted()) ==>
                InSync(cache.fileMap[f], cache.server.files[f].content, cache.blockSize)
      ensures cache.fileMap == Revalidated(old(cache.fileMap), cache.server.files, f, err)
      ensures err == 0 ==> f in cache.server.files
      ensures old(cache.Quiet()) ==>
                && (err == 0 <==> f in cache.Views()) && cache.Quiet() && cache.Views() == old(cache.Views())
                && cache.fileMap == old(cache.fileMap) && cache.server.files == old(cache.server.files)
    {
      var time;
      err, time := cache.server.Access(f);
      TrustedAfterOthers(cache.fileMap, cache.blockSize, old(cache.server.files), old(cache.server.clock),
                         cache.server.files);
      Revalidate(f, err, time);
      OthersOwn(old(cache.fileMap), old(cache.server.files), old(cache.server.clock), cache.fileMap,
                cache.server.files, cache.blockSize, f);
    }

    /** What NetFS::access and NetFS::stat do with the server's answer. */
    method Revalidate(f: string, err: int, time: nat)
      requires Valid() && (err == 0 ==> f in cache.server.files && cache.server.files[f].time == time)
      modifies cache
      ensures Filtered(old(cache.recent), cache.recent, f)
      ensures Valid() && |cache.recent| <= |old(cache.recent)|
      ensures old(cache.Trusted()) ==> cache.Trusted()
      ensures f in cache.fileMap ==> err == 0 && cache.Current(f)
      ensures cache.fileMap == Revalidated(old(cache.fileMap), cache.server.files, f, err)
    {
      FilteredNone(cache.recent, f);
      if err != 0 {
        cache.Invalidate(f);
      } else if f in cache.fileMap && cache.fileMap[f].stale {
        cache.Invalidate(f);
      } else if f in cache.fileMap && cache.fileMap[f].attr.time != time {
        cache.Invalidate(f);
      }
    }

    /** The same check with the answer to a stat request. The size told is the server's: in a quiet run it is the size
        readers see exactly when the server knows it. */
    method Stat(f: string) returns (err: int, attr: FileAttr)
      requires Valid()
      modifies cache, cache.server
      ensures Filtered(old(cache.recent), cache.recent, f)
      ensures Valid() && |cache.recent| <= |old(cache.recent)|
      ensures cache.server.Refused(err)
      ensures old(cache.Trusted()) ==> cache.Trusted()
      ensures cache.Did(old(cache.fileMap), old(cache.server.files), f, Keep)
      ensures f in cache.fileMap ==> err == 0 && cache.Current(f)
      ensures f in cache.fileMap && old(cache.Trusted()) ==>
                InSync(cache.fileMap[f], cache.server.files[f].content, cache.blockSize)
      ensures cache.fileMap == Revalidated(old(cache.fileMap), cache.server.files, f, err)
      ensures err == 0 ==>
                && f in cache.server.files && attr.size == |cache.server.files[f].content|
                && attr.time == cache.server.files[f].time
      ensures old(cache.Quiet()) ==>
                && (err == 0 <==> f in cache.Views()) && cache.Quiet() && cache.Views() == old(cache.Views())
                && cache.fileMap == old(cache.fileMap) && cache.server.files == old(cache.server.files)
                && (err == 0 ==> (attr.size == |cache.Views()[f]| <==> f !in old(cache.Unstored())))
    {
      err, attr := cache.server.ReadAttr(f);
      TrustedAfterOthers(cache.fileMap, cache.blockSize, old(cache.server.files), old(cache.server.clock),
                         cache.server.files);
      Revalidate(f, err, attr.time);
      OthersOwn(old(cache.fileMap), old(cache.server.files), old(cache.server.clock), cache.fileMap,
                cache.server.files, cache.blockSize, f);
    }

    /** Creates or empties the file on the server; a cached copy is left to be caught by its time. In a quiet
        run the file shows up empty exactly when no copy of it with a size is cached. */
    method Create(f: string) returns (err: int)
      requires Valid()
      modifies cache.server
      ensures Valid()
      ensures cache.server.Refused(err)
      ensures old(cache.Trusted()) ==> cache.Trusted()
      ensures cache.Did(old(cache.fileMap), old(cache.server.files), f, Keep)
      ensures err == 0 ==> !cache.Current(f) && f in cache.server.files && cache.server.files[f].content == []
      ensures old(cache.Quiet()) ==>
                && err == 0 && (cache.Quiet() <==> f !in cache.fileMap)
                && (cache.Views() == old(cache.Views())[f := []] <==> (f in cache.fileMap ==>
                      cache.fileMap[f].attr.size == 0))
      ensures old(cache.Quiet()) && f !in cache.fileMap ==> SizesKept({})
    {
      err := cache.server.Create(f);
      TrustedAfterOthers(cache.fileMap, cache.blockSize, old(cache.server.files), old(cache.server.clock),
                         cache.server.files);
      OthersOwn(cache.fileMap, old(cache.server.files), old(cache.server.clock), cache.fileMap, cache.server.files,
                cache.blockSize, f);
      if old(cache.Quiet()) {
        CreatedQuietlyIff(cache.fileMap, old(cache.server.files), old(cache.server.clock), cache.server.files,
                          cache.blockSize, f);
        CreatedViewsIff(cache.fileMap, old(cache.server.files), cache.server.files, cache.blockSize, f);
      }
    }

    method Unlink(f: string) returns (err: int)
      requires Valid()
      modifies cache, cache.server
      ensures Filtered(old(cache.recent), cache.recent, f)
      ensures Valid() && |cache.recent| <= |old(cache.recent)|
      ensures cache.server.Refused(err)
      ensures old(cache.Trusted()) ==> cache.Trusted()
      ensures cache.Did(old(cache.fileMap), old(cache.server.files), f, Keep)
      ensures cache.fileMap == if err == 0 then old(cache.fileMap) - {f} else old(cache.fileMap)
      ensures err == 0 ==> f !in cache.server.files
      ensures old(cache.Quiet()) ==>
                && (err == 0 <==> f in old(cache.Views()))
                && cache.Quiet() && cache.Views() == old(cache.Views()) - {f} && SizesKept({})
    {
      FilteredNone(cache.recent, f);
      err := cache.server.Unlink(f);
      TrustedAfterOthers(cache.fileMap, cache.blockSize, old(cache.server.files), old(cache.server.clock),
                         cache.server.files);
      if err == 0 {
        cache.Invalidate(f);
        if old(cache.Quiet()) {
          UnlinkedQuietly(old(cache.fileMap), old(cache.server.files), cache.blockSize, f);
        }
      }
      OthersOwn(old(cache.fileMap), old(cache.server.files), old(cache.server.clock), cache.fileMap,
                cache.server.files, cache.blockSize, f);
    }
  }

  /** A read that failed has at most added blocks it has fetched, or, if it failed in the eviction, put the blocks it
      has read first. */
  ghost predicate ReadFailed(recent: seq<UseRecord>, recent': seq<UseRecord>, f: string, first: nat, end: nat) {
    Extended(recent, recent', f, first, end) || exists e: nat :: e <= end && ReadFirst(recent, recent', f, first, e)
  }

  /** The list after an eviction, which happens only above the limit. */
  function Trimmed(recent: seq<UseRecord>, limits: Limits): seq<UseRecord> {
    if |recent| > limits.maxCacheEntry then CutBy(recent, limits.evictCount) else recent
  }

  /** What an eviction that succeeded, or failed, has left of a list. */
  predicate IsEvicted(recent: seq<UseRecord>, recent': seq<UseRecord>, ok: bool, limits: Limits) {
    recent' == if ok then Trimmed(recent, limits) else recent
  }

  /** The writes since the last flush at the interval, one more counted. */
  function CountedOn(count: nat, limits: Limits): nat {
    if count + 1 >= limits.flushInterval then 0 else count + 1
  }

  /** The list that a read has made, before an eviction: the blocks read come first. */
  ghost predicate ReadList(recent: seq<UseRecord>, read: seq<UseRecord>, f: string, first: nat, end: nat, n: nat) {
    if n == 0 then read == recent else ReadFirst(recent, read, f, first, end)
  }

  ghost predicate ReadAndCut(recent: seq<UseRecord>, recent': seq<UseRecord>, f: string, first: nat, end: nat, n: nat,
                             limits: Limits) {
    exists read :: ReadList(recent, read, f, first, end, n) && IsEvicted(read, recent', true, limits)
  }

  /** What a read of `n` bytes does to the recency list, with the eviction that follows it. */
  ghost predicate ReadOrdered(recent: seq<UseRecord>, recent': seq<UseRecord>, f: string, offset: nat, size: nat,
                              ok: bool, n: nat, limits: Limits, blockSize: nat)
    requires blockSize > 0
  {
    var first := BlockNum(offset, blockSize);
    if ok then n <= size && ReadAndCut(recent, recent', f, first, EndBlock(offset + n, blockSize), n, limits)
    else ReadFailed(recent, recent', f, first, EndBlock(offset + size, blockSize))
  }

  lemma ReadThenEvicted(recent: seq<UseRecord>, read: seq<UseRecord>, recent': seq<UseRecord>, f: string, offset: nat,
                        size: nat, ok: bool, n: nat, limits: Limits, blockSize: nat)
    requires blockSize > 0 && n <= size && IsEvicted(read, recent', ok, limits)
    requires ReadList(recent, read, f, BlockNum(offset, blockSize), EndBlock(offset + n, blockSize), n)
    ensures ReadOrdered(recent, recent', f, offset, size, ok, n, limits, blockSize)
  {
    EndBlockMonotone(offset + n, offset + size, blockSize);
    if n == 0 {
      assert Extended(recent, recent, f, BlockNum(offset, blockSize), EndBlock(offset + size, blockSize));
    }
  }

  /** What a write of `n` bytes does to it: records of new blocks are added at the tail, before an eviction. */
  ghost predicate WriteOrdered(recent: seq<UseRecord>, recent': seq<UseRecord>, f: string, offset: nat, n: nat,
                               ok: bool, limits: Limits, blockSize: nat)
    requires blockSize > 0
  {
    exists written :: Extended(recent, written, f, BlockNum(offset, blockSize), EndBlock(offset + n, blockSize))
                      && IsEvicted(written, recent', ok, limits)
  }

  lemma WriteThenEvicted(recent: seq<UseRecord>, written: seq<UseRecord>, recent': seq<UseRecord>, f: string,
                         offset: nat, n: nat, ok: bool, limits: Limits, blockSize: nat)
    requires blockSize > 0
    requires Extended(recent, written, f, BlockNum(offset, blockSize), EndBlock(offset + n, blockSize))
    requires IsEvicted(written, recent', ok, limits)
    ensures WriteOrdered(recent, recent', f, offset, n, ok, limits, blockSize)
  {
  }

  /** Every file that had a dirty byte, or has been written to, and is current is on the server as readers see it. */
  ghost predicate SavedDirty(cached: FileMap, f: string, data: seq<Byte>, cached': FileMap, files': Files,
                             blockSize: nat)
    requires BothOk(cached, cached', blockSize)
  {
    forall g <- cached' ::
      && IsCurrent(cached', files', g)
      && ((g == f && data != []) || (g in cached && !NoDirtyByte(cached[g], blockSize))) ==>
        files'[g].content == Contents(cached'[g], files'[g].content, blockSize)
  }

  /** Nothing is dirty, and, if the client could trust its copies, what was is saved. */
  ghost predicate IsSaved(cached: FileMap, f: string, data: seq<Byte>, cached': FileMap, files': Files, blockSize: nat,
                          trusted: bool)
    requires BothOk(cached, cached', blockSize)
  {
    && (forall g <- cached' :: AllClean(cached'[g]))
    && (trusted ==> SavedDirty(cached, f, data, cached', files', blockSize))
  }

  lemma SavedAfter(cached: FileMap, f: string, data: seq<Byte>, cached1: FileMap, files1: Files, cached': FileMap,
                   files': Files, blockSize: nat)
    requires BothOk(cached, cached1, blockSize) && BothOk(cached1, cached', blockSize)
    requires StillDirty(cached, cached1, blockSize, f, data) && IsTrusted(cached1, files1, blockSize)
    requires KeepsViews(cached1, files1, cached', files', blockSize)
    requires CleanedAreStored(cached1, files1, cached', files', blockSize)
    requires forall g <- cached' :: AllClean(cached'[g])
    ensures SavedDirty(cached, f, data, cached', files', blockSize)
  {
    forall g | g in cached' && !NoDirtyByte(cached1[g], blockSize) && IsCurrent(cached', files', g)
      ensures files'[g].content == Contents(cached'[g], files'[g].content, blockSize)
    {
      CleanedShows(cached1, files1, cached', files', blockSize, g);
    }
  }

  /** A list without its last `count` records. */
  function CutBy(recent: seq<UseRecord>, count: nat): seq<UseRecord> {
    recent[..|recent| - Min(|recent|, count)]
  }

  /** Of the copies checked against the server's answer, those that pass are kept: a copy goes exactly if the file
      cannot be had or the copy is not current. */
  ghost function Revalidated(cached: FileMap, files: Files, f: string, err: int): FileMap {
    if f in cached && (err != 0 || !IsCurrent(cached, files, f)) then cached - {f} else cached
  }

  function Overwritten(views: map<string, seq<Byte>>, f: string, offset: nat, data: seq<Byte>): map<string, seq<Byte>> {
    if f in views then views[f := Overwrite(views[f], offset, data)] else views
  }

  function Resized(views: map<string, seq<Byte>>, f: string, size: nat): map<string, seq<Byte>> {
    if f in views then views[f := Resize(views[f], size)] else views
  }

  /** A write that is not empty, or does not begin past the end of the file. */
  predicate InFile(views: map<string, seq<Byte>>, f: string, offset: nat, data: seq<Byte>) {
    f in views ==> data != [] || offset <= |views[f]|
  }

  /** The file, if a write makes it longer. */
  function Grows(views: map<string, seq<Byte>>, f: string, offset: nat, data: seq<Byte>): set<string> {
    if f in views && offset + |data| > |views[f]| then {f} else {}
  }

  // ------------------------------------------------- a plain file system

  datatype Op =
    | ReadOp(file: string, offset: nat, size: nat)
    | WriteOp(file: string, offset: nat, data: seq<Byte>)
    | TruncateOp(file: string, size: nat)
    | FlushOp(file: string)
    | EvictOp(count: nat)
    | AccessOp(file: string)
    | StatOp(file: string)
    | CreateOp(file: string)
    | UnlinkOp(file: string)

  /** What a client is told: success, the bytes read, the size of the file asked about. */
  datatype Answer = Answer(ok: bool, bytes: seq<Byte>, size: nat)

  const REFUSED := Answer(false, [], 0)
  const DONE := Answer(true, [], 0)

  function Told(ok: bool): Answer {
    if ok then DONE else REFUSED
  }

  /** A plain file system: what each operation leaves and answers. */
  function FlatStep(views: map<string, seq<Byte>>, op: Op): (map<string, seq<Byte>>, Answer) {
    match op
    case ReadOp(f, offset, size) =>
      (views, if f in views then Answer(true, PRead(views[f], offset, size), 0) else REFUSED)
    case WriteOp(f, offset, data) =>
      (if f in views then views[f := PWrite(views[f], offset, data)] else views, Told(f in views))
    case TruncateOp(f, size) => (Resized(views, f, size), Told(f in views))
    case FlushOp(_) => (views, DONE)
    case EvictOp(_) => (views, DONE)
    case AccessOp(f) => (views, Told(f in views))
    case StatOp(f) => (views, if f in views then Answer(true, [], |views[f]|) else REFUSED)
    case CreateOp(f) => (views[f := []], DONE)
    case UnlinkOp(f) => (views - {f}, Told(f in views))
  }

  function FlatRun(views: map<string, seq<Byte>>, ops: seq<Op>): (map<string, seq<Byte>>, seq<Answer>) {
    if ops == [] then (views, [])
    else
      var (views1, answers) := FlatRun(views, ops[..|ops| - 1]);
      var (views2, answer) := FlatStep(views1, ops[|ops| - 1]);
      (views2, answers + [answer])
  }

  lemma FlatRunSnoc(views: map<string, seq<Byte>>, ops: seq<Op>, op: Op)
    ensures FlatRun(views, ops + [op]) ==
            (FlatStep(FlatRun(views, ops).0, op).0, FlatRun(views, ops).1 + [FlatStep(FlatRun(views, ops).0, op).1])
  {
    assert (ops + [op])[..|ops + [op]| - 1] == ops;
  }

  /** The files that may have grown since they were last flushed, as far as the operations tell. */
  function NextGrown(grown: set<string>, views: map<string, seq<Byte>>, op: Op): set<string> {
    match op
    case WriteOp(f, offset, data) => grown + Grows(views, f, offset, data)
    case FlushOp(f) => grown - {f}
    case EvictOp(_) => {}
    case _ => grown
  }

  function GrownBy(views: map<string, seq<Byte>>, ops: seq<Op>): set<string> {
    if ops == [] then {}
    else
      var done := ops[..|ops| - 1];
      NextGrown(GrownBy(views, done), FlatRun(views, done).0, ops[|ops| - 1])
  }

  /** The blocks one operation can add to the cache. */
  function Span(op: Op, blockSize: nat): nat
    requires blockSize > 0
  {
    match op
    case ReadOp(_, offset, size) => SpannedBlocks(offset, size, blockSize)
    case WriteOp(_, offset, data) => SpannedBlocks(offset, |data|, blockSize)
    case _ => 0
  }

  // --------------------------------------------------------- single steps

  /** The state between two operations. */
  datatype Snapshot = Snapshot(cached: FileMap, files: Files, recent: seq<UseRecord>, refusals: nat, writes: nat,
                               limits: Limits)

  ghost function Now(fs: NetFS): Snapshot
    reads fs, fs.cache, fs.cache.server
  {
    Snapshot(fs.cache.fileMap, fs.cache.server.files, fs.cache.recent, fs.cache.server.refusals, fs.writeOpCount,
             fs.Bounds())
  }

  ghost predicate SnapshotOk(s: Snapshot, blockSize: nat) {
    blockSize > 0 && forall g <- s.cached :: EntriesOk(s.cached[g], blockSize)
  }

  /** The four cases in which the cache is not a plain file system: a truncate that keeps old bytes past the new end, an
      empty write past end of file, creating a file while a copy of it is cached, and asking for a size that the
      server does not know. */
  ghost predicate Faithful(s: Snapshot, op: Op, blockSize: nat)
    requires SnapshotOk(s, blockSize)
  {
    match op
    case TruncateOp(_, _) => Careful(s, op, blockSize)
    case WriteOp(f, offset, data) => InFile(ViewsOf(s.cached, s.files, blockSize), f, offset, data)
    case CreateOp(f) => f !in s.cached
    case StatOp(f) => f !in UnknownSizes(s.cached, s.files)
    case _ => true
  }

  /** A truncate is careful unless it keeps old bytes past the new end in the cache. */
  predicate Careful(s: Snapshot, op: Op, blockSize: nat)
    requires blockSize > 0
  {
    op.TruncateOp? && op.file in s.cached ==> SafeTruncate(s.cached[op.file], blockSize, op.size)
  }

  /** The same cases, told from the files and the operations so far alone: a truncate grows the file or cuts it
      at a block boundary, an empty write stays within it, a file is created only where there is none, and a
      size is asked for only of a file that has not grown since it was last flushed. */
  predicate Plain(views: map<string, seq<Byte>>, grown: set<string>, op: Op, blockSize: nat)
    requires blockSize > 0
  {
    match op
    case TruncateOp(f, size) => f in views ==> size % blockSize == 0 || |views[f]| <= size
    case WriteOp(f, offset, data) => InFile(views, f, offset, data)
    case CreateOp(f) => f !in views
    case StatOp(f) => f !in grown
    case _ => true
  }

  predicate PlainRun(views: map<string, seq<Byte>>, ops: seq<Op>, blockSize: nat)
    requires blockSize > 0
  {
    forall i: nat {:trigger PlainAt(views, ops, i, blockSize)} :: i < |ops| ==> PlainAt(views, ops, i, blockSize)
  }

  predicate PlainAt(views: map<string, seq<Byte>>, ops: seq<Op>, i: nat, blockSize: nat)
    requires blockSize > 0 && i < |ops|
  {
    Plain(FlatRun(views, ops[..i]).0, GrownBy(views, ops[..i]), ops[i], blockSize)
  }

  lemma PlainIsFaithful(fs: NetFS, grown: set<string>, op: Op)
    requires fs.Valid() && fs.cache.Quiet() && fs.cache.Unstored() <= grown
    requires Plain(fs.cache.Views(), grown, op, fs.cache.blockSize)
    ensures Faithful(Now(fs), op, fs.cache.blockSize)
  {
    assert forall f <- fs.cache.fileMap :: fs.cache.Current(f);
    if op.TruncateOp? && op.file in fs.cache.fileMap {
      assert |fs.cache.Views()[op.file]| == fs.cache.fileMap[op.file].attr.size;
    }
  }

  function FileOf(op: Op): string {
    if op.EvictOp? then "" else op.file
  }

  function EffectOf(op: Op): Effect {
    match op
    case WriteOp(_, offset, data) => Overwriting(offset, data)
    case TruncateOp(_, size) => Resizing(size)
    case _ => Keep
  }

  /** What an answer tells of the state it leaves, whatever other clients do. */
  ghost predicate Tells(op: Op, answer: Answer, after: Snapshot, blockSize: nat)
    requires SnapshotOk(after, blockSize)
  {
    match op
    case ReadOp(f, offset, size) =>
      answer.ok && IsCurrent(after.cached, after.files, f) ==>
        answer.bytes == PRead(ViewOf(after.cached, after.files, blockSize, f), offset, size)
    case AccessOp(f) =>
      && (f in after.cached ==> IsCurrent(after.cached, after.files, f))
      && (answer.ok ==> f in after.files)
    case StatOp(f) =>
      && (f in after.cached ==> IsCurrent(after.cached, after.files, f))
      && (answer.ok ==> f in after.files && answer.size == |after.files[f].content|)
    case CreateOp(f) => answer.ok ==> f in after.files && after.files[f].content == []
    case UnlinkOp(f) => answer.ok ==> f !in after.files
    case FlushOp(_) => answer.ok
    case _ => true
  }

  /** The copies an operation keeps, takes and drops, and their sizes. A copy goes only by an unlink, or by an
      access or a stat that cannot have the file or finds the copy not current. */
  ghost predicate Copies(before: Snapshot, op: Op, answer: Answer, after: Snapshot) {
    match op
    case AccessOp(_) | StatOp(_) =>
      after.cached == Revalidated(before.cached, after.files, FileOf(op), if answer.ok then 0 else EIO)
    case CreateOp(_) => after.cached == before.cached
    case UnlinkOp(f) => after.cached == if answer.ok then before.cached - {f} else before.cached
    case FlushOp(_) | EvictOp(_) =>
      after.cached.Keys == before.cached.Keys && OwnSizes(before.cached, after.cached, FileOf(op), Keep)
    case _ =>
      && before.cached.Keys <= after.cached.Keys && OwnSizes(before.cached, after.cached, FileOf(op), EffectOf(op))
      && (answer.ok ==> FileOf(op) in after.cached)
  }

  /** What a flush and an eviction have written back. */
  ghost predicate WroteBack(before: Snapshot, op: Op, answer: Answer, after: Snapshot, blockSize: nat)
    requires SnapshotOk(before, blockSize) && SnapshotOk(after, blockSize)
  {
    match op
    case FlushOp(f) =>
      && (IsCurrent(after.cached, after.files, f) ==> AllClean(after.cached[f]))
      && (f in before.cached && !AllClean(before.cached[f]) ==>
            Stored(before.cached, before.files, after.cached, after.files, blockSize, f))
    case EvictOp(count) =>
      answer.ok ==> forall g <- after.cached :: AllClean(after.cached[g])
    case WriteOp(f, _, data) =>
      answer.ok && after.writes == 0 && after.refusals == before.refusals ==>
        IsSaved(before.cached, f, data, after.cached, after.files, blockSize,
                IsTrusted(before.cached, before.files, blockSize))
    case _ => true
  }

  /** The writes since the last flush at the interval: exactly those that succeeded are counted. */
  predicate Counts(before: Snapshot, op: Op, answer: Answer, after: Snapshot) {
    && after.limits == before.limits
    && after.writes == if op.WriteOp? && answer.ok then CountedOn(before.writes, before.limits) else before.writes
  }

  /** What an operation does to the recency list. */
  ghost predicate Reorders(before: Snapshot, op: Op, answer: Answer, after: Snapshot, blockSize: nat)
    requires blockSize > 0
  {
    match op
    case ReadOp(f, offset, size) =>
      ReadOrdered(before.recent, after.recent, f, offset, size, answer.ok, |answer.bytes|, before.limits, blockSize)
    case WriteOp(f, offset, data) =>
      WriteOrdered(before.recent, after.recent, f, offset, |data|, answer.ok, before.limits, blockSize)
    case EvictOp(count) => after.recent == if answer.ok then CutBy(before.recent, count) else before.recent
    case FlushOp(_) | CreateOp(_) => after.recent == before.recent
    case TruncateOp(_, _) | AccessOp(_) | StatOp(_) | UnlinkOp(_) => Filtered(before.recent, after.recent, FileOf(op))
  }

  /** An operation fails exactly when the server refuses one of its requests, with two exceptions: a write-back that a
      flush asks for, or a write at the flush interval. Those leave a copy marked as not to be trusted. */
  ghost predicate Reports(before: Snapshot, op: Op, answer: Answer, after: Snapshot) {
    || after.refusals == before.refusals + (if answer.ok then 0 else 1)
    || (&& answer.ok && after.refusals == before.refusals + 1
        && match op
           case FlushOp(f) => f in after.cached && after.cached[f].stale
           case WriteOp(_, _, _) => exists g <- after.cached :: after.cached[g].stale
           case _ => false)
  }

  /** One step of the client, with other clients' steps in between: from a trusted state, each copy it has no reason to
      distrust shows what it did with this operation's own effect, and the answer is right. */
  ghost predicate StepAmongOthers(before: Snapshot, op: Op, answer: Answer, after: Snapshot, blockSize: nat) {
    && SnapshotOk(before, blockSize) && SnapshotOk(after, blockSize)
    && Copies(before, op, answer, after) && Reports(before, op, answer, after)
    && WroteBack(before, op, answer, after, blockSize)
    && ((op.ReadOp? ==> IsTrusted(before.cached, before.files, blockSize)) ==> Tells(op, answer, after, blockSize))
    && (IsTrusted(before.cached, before.files, blockSize) ==>
          && OwnStep(before.cached, before.files, after.cached, after.files, blockSize, FileOf(op), EffectOf(op))
          && (Careful(before, op, blockSize) ==> IsTrusted(after.cached, after.files, blockSize)))
  }

  /** What one step does to the recency list and to the count of writes. */
  ghost predicate Housekeeping(before: Snapshot, op: Op, answer: Answer, after: Snapshot, blockSize: nat)
    requires blockSize > 0
  {
    && Counts(before, op, answer, after) && Reorders(before, op, answer, after, blockSize)
    && Lists(after.cached, after.recent)
  }

  /** What one operation does: among other clients, to the capacity, and as a step of a plain file system. */
  twostate predicate Performed(fs: NetFS, op: Op, answer: Answer)
    requires old(fs.Valid()) && fs.Valid()
    reads fs, fs.cache, fs.cache.server
  {
    && StepAmongOthers(old(Now(fs)), op, answer, Now(fs), fs.cache.blockSize)
    && Housekeeping(old(Now(fs)), op, answer, Now(fs), fs.cache.blockSize)
    && ((answer.ok || old(fs.cache.Quiet())) && old(fs.Fits(Span(op, fs.cache.blockSize))) ==>
          |fs.cache.recent| <= fs.maxCacheEntry)
    && (old(fs.cache.Quiet() && Faithful(Now(fs), op, fs.cache.blockSize)) ==>
          && fs.cache.Quiet()
          && (fs.cache.Views(), answer) == FlatStep(old(fs.cache.Views()), op)
          && (old(fs.cache.Sized()) ==>
                && fs.cache.Sized()
                && fs.cache.Unstored() <= NextGrown(old(fs.cache.Unstored()), old(fs.cache.Views()), op)))
  }

  method PerformRead(fs: NetFS, f: string, offset: nat, size: nat) returns (answer: Answer)
    requires fs.Valid()
    modifies fs, fs.cache, fs.cache.server
    ensures fs.Valid() && Performed(fs, ReadOp(f, offset, size), answer)
  {
    var buf := new Byte[size];
    var err, n := fs.Read(f, offset, size, buf);
    answer := if err == 0 then Answer(true, buf[..n], 0) else REFUSED;
    LinkedLists(fs.cache.fileMap, fs.cache.recent, fs.cache.nextRecord);
    assert StepAmongOthers(old(Now(fs)), ReadOp(f, offset, size), answer, Now(fs), fs.cache.blockSize);
    assert Housekeeping(old(Now(fs)), ReadOp(f, offset, size), answer, Now(fs), fs.cache.blockSize);
  }

  method PerformWrite(fs: NetFS, f: string, offset: nat, data: seq<Byte>) returns (answer: Answer)
    requires fs.Valid()
    modifies fs, fs.cache, fs.cache.server
    ensures fs.Valid() && Performed(fs, WriteOp(f, offset, data), answer)
  {
    var err := fs.Write(f, offset, data);
    answer := Told(err == 0);
    LinkedLists(fs.cache.fileMap, fs.cache.recent, fs.cache.nextRecord);
    assert StepAmongOthers(old(Now(fs)), WriteOp(f, offset, data), answer, Now(fs), fs.cache.blockSize);
    assert Housekeeping(old(Now(fs)), WriteOp(f, offset, data), answer, Now(fs), fs.cache.blockSize);
    if old(fs.cache.Quiet()) && f in old(fs.cache.Views()) {
      OverwriteIsPWrite(old(fs.cache.Views())[f], offset, data);
    }
  }

  method PerformTruncate(fs: NetFS, f: string, size: nat) returns (answer: Answer)
    requires fs.Valid()
    modifies fs, fs.cache, fs.cache.server
    ensures fs.Valid() && Performed(fs, TruncateOp(f, size), answer)
  {
    var err := fs.Truncate(f, size);
    answer := Told(err == 0);
    LinkedLists(fs.cache.fileMap, fs.cache.recent, fs.cache.nextRecord);
    assert StepAmongOthers(old(Now(fs)), TruncateOp(f, size), answer, Now(fs), fs.cache.blockSize);
    assert Housekeeping(old(Now(fs)), TruncateOp(f, size), answer, Now(fs), fs.cache.blockSize);
  }

  method PerformFlush(fs: NetFS, f: string) returns (answer: Answer)
    requires fs.Valid()
    modifies fs, fs.cache, fs.cache.server
    ensures fs.Valid() && Performed(fs, FlushOp(f), answer)
  {
    var err := fs.Flush(f);
    answer := DONE;
    LinkedLists(fs.cache.fileMap, fs.cache.recent, fs.cache.nextRecord);
    assert StepAmongOthers(old(Now(fs)), FlushOp(f), answer, Now(fs), fs.cache.blockSize);
  }

  method PerformEvict(fs: NetFS, count: nat) returns (answer: Answer)
    requires fs.Valid()
    modifies fs, fs.cache, fs.cache.server
    ensures fs.Valid() && Performed(fs, EvictOp(count), answer)
  {
    var err := fs.EvictStep(count, FileOf(EvictOp(count)));
    answer := Told(err == 0);
    LinkedLists(fs.cache.fileMap, fs.cache.recent, fs.cache.nextRecord);
    assert StepAmongOthers(old(Now(fs)), EvictOp(count), answer, Now(fs), fs.cache.blockSize);
  }

  method PerformAccess(fs: NetFS, f: string) returns (answer: Answer)
    requires fs.Valid()
    modifies fs, fs.cache, fs.cache.server
    ensures fs.Valid() && Performed(fs, AccessOp(f), answer)
  {
    var err := fs.Access(f);
    answer := Told(err == 0);
    LinkedLists(fs.cache.fileMap, fs.cache.recent, fs.cache.nextRecord);
    assert StepAmongOthers(old(Now(fs)), AccessOp(f), answer, Now(fs), fs.cache.blockSize);
  }

  method PerformStat(fs: NetFS, f: string) returns (answer: Answer)
    requires fs.Valid()
    modifies fs, fs.cache, fs.cache.server
    ensures fs.Valid() && Performed(fs, StatOp(f), answer)
  {
    var err, attr := fs.Stat(f);
    answer := if err == 0 then Answer(true, [], attr.size) else REFUSED;
    LinkedLists(fs.cache.fileMap, fs.cache.recent, fs.cache.nextRecord);
    assert StepAmongOthers(old(Now(fs)), StatOp(f), answer, Now(fs), fs.cache.blockSize);
  }

  method PerformCreate(fs: NetFS, f: string) returns (answer: Answer)
    requires fs.Valid()
    modifies fs, fs.cache, fs.cache.server
    ensures fs.Valid() && Performed(fs, CreateOp(f), answer)
  {
    var err := fs.Create(f);
    answer := Told(err == 0);
    LinkedLists(fs.cache.fileMap, fs.cache.recent, fs.cache.nextRecord);
    assert StepAmongOthers(old(Now(fs)), CreateOp(f), answer, Now(fs), fs.cache.blockSize);
  }

  method PerformUnlink(fs: NetFS, f: string) returns (answer: Answer)
    requires fs.Valid()
    modifies fs, fs.cache, fs.cache.server
    ensures fs.Valid() && Performed(fs, UnlinkOp(f), answer)
  {
    var err := fs.Unlink(f);
    answer := Told(err == 0);
    LinkedLists(fs.cache.fileMap, fs.cache.recent, fs.cache.nextRecord);
    assert StepAmongOthers(old(Now(fs)), UnlinkOp(f), answer, Now(fs), fs.cache.blockSize);
  }

  /** Performs one operation. */
  method Perform(fs: NetFS, op: Op) returns (answer: Answer)
    requires fs.Valid()
    modifies fs, fs.cache, fs.cache.server
    ensures fs.Valid() && Performed(fs, op, answer)
  {
    match op
    case ReadOp(f, offset, size) => answer := PerformRead(fs, f, offset, size);
    case WriteOp(f, offset, data) => answer := PerformWrite(fs, f, offset, data);
    case TruncateOp(f, size) => answer := PerformTruncate(fs, f, size);
    case FlushOp(f) => answer := PerformFlush(fs, f);
    case EvictOp(count) => answer := PerformEvict(fs, count);
    case AccessOp(f) => answer := PerformAccess(fs, f);
    case StatOp(f) => answer := PerformStat(fs, f);
    case CreateOp(f) => answer := PerformCreate(fs, f);
    case UnlinkOp(f) => answer := PerformUnlink(fs, f);
  }

  // ------------------------------------------------------------------ runs

  /** The states, one before each operation and one after the last, that a run of the client went through. */
  ghost predicate TraceOf(trace: seq<Snapshot>, ops: seq<Op>, answers: seq<Answer>, blockSize: nat) {
    && |trace| == |ops| + 1 && |answers| == |ops|
    && forall i: nat {:trigger StepAt(trace, ops, answers, i, blockSize)} :: i < |ops| ==>
          StepAt(trace, ops, answers, i, blockSize)
  }

  ghost predicate StepAt(trace: seq<Snapshot>, ops: seq<Op>, answers: seq<Answer>, i: nat, blockSize: nat)
    requires i < |ops| && i < |answers| && i + 1 < |trace|
  {
    && StepAmongOthers(trace[i], ops[i], answers[i], trace[i + 1], blockSize)
    && Housekeeping(trace[i], ops[i], answers[i], trace[i + 1], blockSize)
  }

  ghost predicate TrustedAt(s: Snapshot, blockSize: nat) {
    SnapshotOk(s, blockSize) && IsTrusted(s.cached, s.files, blockSize)
  }

  /** The first `n` operations were careful, each in the state it was performed in. */
  ghost predicate CarefulUpTo(trace: seq<Snapshot>, ops: seq<Op>, n: nat, blockSize: nat)
    requires blockSize > 0 && n <= |ops| && n <= |trace|
  {
    forall j | 0 <= j < n :: Careful(trace[j], ops[j], blockSize)
  }

  ghost predicate FaithfulUpTo(trace: seq<Snapshot>, ops: seq<Op>, n: nat, blockSize: nat)
    requires n <= |ops| && n <= |trace|
  {
    forall j: nat {:trigger FaithfulAt(trace, ops, j, blockSize)} :: j < n ==> FaithfulAt(trace, ops, j, blockSize)
  }

  ghost predicate FaithfulAt(trace: seq<Snapshot>, ops: seq<Op>, j: nat, blockSize: nat)
    requires j < |ops| && j < |trace|
  {
    SnapshotOk(trace[j], blockSize) && Faithful(trace[j], ops[j], blockSize)
  }

  /** In a run from a trusted state, each state up to the first careless truncate is trusted. */
  lemma {:induction false} TrustAlong(trace: seq<Snapshot>, ops: seq<Op>, answers: seq<Answer>, n: nat, blockSize: nat)
    requires blockSize > 0 && TraceOf(trace, ops, answers, blockSize) && TrustedAt(trace[0], blockSize)
    requires n <= |ops| && CarefulUpTo(trace, ops, n, blockSize)
    ensures TrustedAt(trace[n], blockSize)
  {
    if n > 0 {
      TrustAlong(trace, ops, answers, n - 1, blockSize);
      assert StepAt(trace, ops, answers, n - 1, blockSize);
    }
  }

  /** What the client's own operations make of a file. */
  function Effects(ops: seq<Op>, g: string, v: seq<Byte>): seq<Byte> {
    if ops == [] then v
    else
      var op, before := ops[|ops| - 1], Effects(ops[..|ops| - 1], g, v);
      Applied(if g == FileOf(op) then EffectOf(op) else Keep, before)
  }

  lemma EffectsSnoc(ops: seq<Op>, m: nat, p: nat, g: string, v: seq<Byte>)
    requires m <= p < |ops|
    ensures Effects(ops[m..p + 1], g, v) == Applied(if g == FileOf(ops[p]) then EffectOf(ops[p]) else Keep,
                                                    Effects(ops[m..p], g, v))
  {
    var part := ops[m..p + 1];
    assert part[..|part| - 1] == ops[m..p] && part[|part| - 1] == ops[p];
  }

  /** What the client's operations on its copy of `g` start from in the `m`-th state: what the copy shows, or, if the
      next operation takes the copy, the file it was taken from. */
  ghost function StartOf(trace: seq<Snapshot>, m: nat, g: string, blockSize: nat): seq<Byte>
    requires m < |trace| && SnapshotOk(trace[m], blockSize)
    requires if g in trace[m].cached then g in trace[m].files else m + 1 < |trace| && g in trace[m + 1].files
  {
    if g in trace[m].cached then ViewOf(trace[m].cached, trace[m].files, blockSize, g)
    else trace[m + 1].files[g].content
  }

  lemma OwnViewStep(before: Snapshot, op: Op, answer: Answer, after: Snapshot, blockSize: nat, g: string)
    requires StepAmongOthers(before, op, answer, after, blockSize) && TrustedAt(before, blockSize)
    requires IsCurrent(after.cached, after.files, g)
    ensures g in before.cached ==> IsCurrent(before.cached, before.files, g)
    ensures ViewOf(after.cached, after.files, blockSize, g) ==
            Applied(if g == FileOf(op) then EffectOf(op) else Keep,
                    if g in before.cached then ViewOf(before.cached, before.files, blockSize, g)
                    else after.files[g].content)
  {
    assert OwnView(before.cached, before.files, after.cached, after.files, blockSize, FileOf(op), EffectOf(op), g);
  }

  /** A copy the client has had from the `m`-th state or operation to the `n`-th state, and has no reason to distrust
      then, shows exactly what the client's own operations since have made of it, whatever other clients did. */
  lemma {:induction false} OwnHistory(trace: seq<Snapshot>, ops: seq<Op>, answers: seq<Answer>, m: nat, n: nat,
                                      blockSize: nat, g: string)
    requires blockSize > 0 && TraceOf(trace, ops, answers, blockSize) && TrustedAt(trace[0], blockSize)
    requires m <= n <= |ops| && CarefulUpTo(trace, ops, n, blockSize)
    requires (forall k | m < k <= n :: g in trace[k].cached) && (m == n ==> g in trace[m].cached)
    requires IsCurrent(trace[n].cached, trace[n].files, g)
    ensures TrustedAt(trace[m], blockSize) && TrustedAt(trace[n], blockSize)
    ensures if g in trace[m].cached then IsCurrent(trace[m].cached, trace[m].files, g)
            else IsCurrent(trace[m + 1].cached, trace[m + 1].files, g)
    ensures ViewOf(trace[n].cached, trace[n].files, blockSize, g) ==
            Effects(ops[m..n], g, StartOf(trace, m, g, blockSize))
    decreases n
  {
    TrustAlong(trace, ops, answers, n, blockSize);
    if m < n {
      var p := n - 1;
      TrustAlong(trace, ops, answers, p, blockSize);
      assert StepAt(trace, ops, answers, p, blockSize);
      OwnViewStep(trace[p], ops[p], answers[p], trace[n], blockSize, g);
      if m < p || g in trace[m].cached {
        OwnHistory(trace, ops, answers, m, p, blockSize, g);
      }
      EffectsSnoc(ops, m, p, g, StartOf(trace, m, g, blockSize));
    }
  }

  /** An operation that neither changes `f` nor checks or drops the client's copy of it. */
  predicate Leaves(op: Op, f: string) {
    FileOf(op) == f ==> op.EvictOp? || op.ReadOp? || op.FlushOp? || op.CreateOp?
  }

  predicate AllLeave(ops: seq<Op>, m: nat, n: nat, f: string)
    requires n <= |ops|
  {
    forall k | m <= k < n :: Leaves(ops[k], f)
  }

  /** A copy goes only by an unlink, an access or a stat of its file. */
  lemma {:induction false} CopyStays(trace: seq<Snapshot>, ops: seq<Op>, answers: seq<Answer>, m: nat, n: nat,
                                     blockSize: nat, f: string)
    requires TraceOf(trace, ops, answers, blockSize) && m <= n <= |ops|
    requires f in trace[m].cached
    requires forall k | m <= k < n :: (ops[k].UnlinkOp? || ops[k].AccessOp? || ops[k].StatOp?) ==> ops[k].file != f
    ensures forall k | m <= k <= n :: f in trace[k].cached
    decreases n - m
  {
    if m < n {
      assert StepAt(trace, ops, answers, m, blockSize);
      assert f in trace[m + 1].cached;
      CopyStays(trace, ops, answers, m + 1, n, blockSize, f);
    }
  }

  lemma LeftAlone(op: Op, f: string, v: seq<Byte>)
    requires Leaves(op, f)
    ensures Applied(if f == FileOf(op) then EffectOf(op) else Keep, v) == v
  {
  }

  lemma {:induction false} EffectsStay(ops: seq<Op>, m: nat, p: nat, n: nat, f: string, v: seq<Byte>)
    requires m <= p <= n <= |ops| && AllLeave(ops, p, n, f)
    ensures Effects(ops[m..n], f, v) == Effects(ops[m..p], f, v)
  {
    if p < n {
      EffectsStay(ops, m, p, n - 1, f, v);
      EffectsSnoc(ops, m, n - 1, f, v);
      LeftAlone(ops[n - 1], f, Effects(ops[m..n - 1], f, v));
    }
  }

  lemma PReadOverwritten(v: seq<Byte>, offset: nat, data: seq<Byte>, start: nat, size: nat)
    requires start + size <= |data|
    ensures PRead(Overwrite(v, offset, data), offset + start, size) == data[start..start + size]
  {
  }

  /** A write that succeeded and was then left alone shows in a copy the client has no reason to distrust. */
  lemma OwnWriteStays(trace: seq<Snapshot>, ops: seq<Op>, answers: seq<Answer>, i: nat, n: nat, blockSize: nat)
    returns (base: seq<Byte>)
    requires blockSize > 0 && TraceOf(trace, ops, answers, blockSize) && TrustedAt(trace[0], blockSize)
    requires i < n <= |ops| && CarefulUpTo(trace, ops, n, blockSize)
    requires ops[i].WriteOp? && answers[i].ok && AllLeave(ops, i + 1, n, ops[i].file)
    requires IsCurrent(trace[n].cached, trace[n].files, ops[i].file)
    ensures TrustedAt(trace[n], blockSize)
    ensures ViewOf(trace[n].cached, trace[n].files, blockSize, ops[i].file) ==
            Overwrite(base, ops[i].offset, ops[i].data)
  {
    var f := ops[i].file;
    assert f in trace[i + 1].cached by {
      assert StepAt(trace, ops, answers, i, blockSize);
    }
    assert forall k | i + 1 <= k < n :: Leaves(ops[k], f);
    CopyStays(trace, ops, answers, i + 1, n, blockSize, f);
    OwnHistory(trace, ops, answers, i, n, blockSize, f);
    base := StartOf(trace, i, f, blockSize);
    EffectsStay(ops, i, i + 1, n, f, base);
    EffectsSnoc(ops, i, i, f, base);
  }

  /** A client reads its own writes, whatever other clients do: bytes that it wrote and then left alone are what a later
      read answers, if it still has no reason to distrust its copy. */
  lemma ReadsOwnWrite(trace: seq<Snapshot>, ops: seq<Op>, answers: seq<Answer>, i: nat, j: nat, start: nat,
                      blockSize: nat)
    requires blockSize > 0 && TraceOf(trace, ops, answers, blockSize) && TrustedAt(trace[0], blockSize)
    requires i < j < |ops| && CarefulUpTo(trace, ops, j, blockSize)
    requires ops[i].WriteOp? && ops[j].ReadOp? && answers[i].ok && answers[j].ok && ops[j].file == ops[i].file
    requires AllLeave(ops, i + 1, j, ops[i].file)
    requires ops[j].offset == ops[i].offset + start && start + ops[j].size <= |ops[i].data|
    requires IsCurrent(trace[j + 1].cached, trace[j + 1].files, ops[i].file)
    ensures answers[j].bytes == ops[i].data[start..start + ops[j].size]
  {
    var base := OwnWriteStays(trace, ops, answers, i, j + 1, blockSize);
    PReadOverwritten(base, ops[i].offset, ops[i].data, start, ops[j].size);
    ReadTells(trace, ops, answers, j, blockSize);
  }

  /** A read in such a run answers what the copy shows. */
  lemma ReadTells(trace: seq<Snapshot>, ops: seq<Op>, answers: seq<Answer>, j: nat, blockSize: nat)
    requires blockSize > 0 && TraceOf(trace, ops, answers, blockSize) && TrustedAt(trace[0], blockSize)
    requires j < |ops| && CarefulUpTo(trace, ops, j, blockSize) && ops[j].ReadOp? && answers[j].ok
    requires IsCurrent(trace[j + 1].cached, trace[j + 1].files, ops[j].file)
    ensures SnapshotOk(trace[j + 1], blockSize)
    ensures answers[j].bytes == PRead(ViewOf(trace[j + 1].cached, trace[j + 1].files, blockSize, ops[j].file),
                                      ops[j].offset, ops[j].size)
  {
    TrustAlong(trace, ops, answers, j, blockSize);
    assert StepAt(trace, ops, answers, j, blockSize);
  }

  /** After an access or a stat anywhere in such a run, a copy the client still keeps is not stale, has the
      server's time, and agrees with the server. */
  lemma AccessCatches(trace: seq<Snapshot>, ops: seq<Op>, answers: seq<Answer>, i: nat, blockSize: nat)
    requires blockSize > 0 && TraceOf(trace, ops, answers, blockSize) && TrustedAt(trace[0], blockSize)
    requires i < |ops| && CarefulUpTo(trace, ops, i, blockSize) && (ops[i].AccessOp? || ops[i].StatOp?)
    ensures var f, after := ops[i].file, trace[i + 1];
            f in after.cached ==>
              && IsCurrent(after.cached, after.files, f) && SnapshotOk(after, blockSize)
              && InSync(after.cached[f], after.files[f].content, blockSize)
  {
    TrustAlong(trace, ops, answers, i, blockSize);
    assert StepAt(trace, ops, answers, i, blockSize);
  }

  // ------------------------------------------------------ the flush at the interval

  /** How many of the operations from the `a`-th to the `n`-th are writes that succeeded. */
  function WritesDone(ops: seq<Op>, answers: seq<Answer>, a: nat, n: nat): nat
    requires a <= n <= |ops| && n <= |answers|
  {
    if a == n then 0
    else WritesDone(ops, answers, a, n - 1) + if ops[n - 1].WriteOp? && answers[n - 1].ok then 1 else 0
  }

  /** The `k`-th operation is a write that has flushed everything: if nothing was refused, nothing is dirty after it,
      and in a trusted state what was dirty is on the server. */
  ghost predicate FlushesAt(trace: seq<Snapshot>, ops: seq<Op>, answers: seq<Answer>, k: nat, blockSize: nat)
    requires k < |ops| && k < |answers| && k + 1 < |trace|
  {
    var before, after := trace[k], trace[k + 1];
    && ops[k].WriteOp? && answers[k].ok && BothOk(before.cached, after.cached, blockSize)
    && (after.refusals == before.refusals ==>
          IsSaved(before.cached, ops[k].file, ops[k].data, after.cached, after.files, blockSize,
                  IsTrusted(before.cached, before.files, blockSize)))
  }

  lemma CountStep(trace: seq<Snapshot>, ops: seq<Op>, answers: seq<Answer>, k: nat, blockSize: nat)
    requires blockSize > 0 && TraceOf(trace, ops, answers, blockSize) && k < |ops|
    ensures trace[k + 1].limits == trace[k].limits
    ensures if ops[k].WriteOp? && answers[k].ok then
              if trace[k].writes + 1 >= trace[k].limits.flushInterval then FlushesAt(trace, ops, answers, k, blockSize)
              else trace[k + 1].writes == trace[k].writes + 1
            else trace[k + 1].writes == trace[k].writes
  {
    assert StepAt(trace, ops, answers, k, blockSize);
  }

  lemma {:induction false} CountsUp(trace: seq<Snapshot>, ops: seq<Op>, answers: seq<Answer>, a: nat, n: nat,
                                    blockSize: nat)
    requires blockSize > 0 && TraceOf(trace, ops, answers, blockSize) && a <= n <= |ops|
    requires forall k: nat | a <= k < n :: !FlushesAt(trace, ops, answers, k, blockSize)
    ensures trace[n].limits == trace[a].limits
    ensures trace[n].writes == trace[a].writes + WritesDone(ops, answers, a, n)
    ensures WritesDone(ops, answers, a, n) > 0 ==> trace[n].writes < trace[a].limits.flushInterval
    decreases n
  {
    if a < n {
      CountsUp(trace, ops, answers, a, n - 1, blockSize);
      CountStep(trace, ops, answers, n - 1, blockSize);
    }
  }

  /** Of any operations among which there are as many successful writes as the interval says, one is a write that has
      flushed everything. */
  lemma IntervalFlushes(trace: seq<Snapshot>, ops: seq<Op>, answers: seq<Answer>, a: nat, n: nat, blockSize: nat)
    requires blockSize > 0 && TraceOf(trace, ops, answers, blockSize) && a <= n <= |ops|
    requires WritesDone(ops, answers, a, n) > 0
    requires WritesDone(ops, answers, a, n) >= trace[a].limits.flushInterval
    ensures exists k: nat | a <= k < n :: FlushesAt(trace, ops, answers, k, blockSize)
  {
    if forall k: nat | a <= k < n :: !FlushesAt(trace, ops, answers, k, blockSize) {
      CountsUp(trace, ops, answers, a, n, blockSize);
    }
  }

  // ------------------------------------------------------------ the order of eviction

  /** A read asks for this block. */
  predicate AsksFor(op: Op, x: BlockId, blockSize: nat)
    requires blockSize > 0
  {
    op.ReadOp? && IsAmong(x, op.file, BlockNum(op.offset, blockSize), EndBlock(op.offset + op.size, blockSize))
  }

  /** A read has read this block. */
  predicate HasRead(op: Op, answer: Answer, x: BlockId, blockSize: nat)
    requires blockSize > 0
  {
    && op.ReadOp? && answer.ok && |answer.bytes| > 0
    && IsAmong(x, op.file, BlockNum(op.offset, blockSize), EndBlock(op.offset + |answer.bytes|, blockSize))
  }

  /** The operation may take blocks of this file out of the cache, whatever their rank. */
  predicate Discards(op: Op, f: string) {
    (op.TruncateOp? || op.AccessOp? || op.StatOp? || op.UnlinkOp?) && op.file == f
  }

  lemma OutranksCut(recent: seq<UseRecord>, limits: Limits, x: BlockId, y: BlockId)
    requires Outranks(recent, x, y)
    ensures Outranks(Trimmed(recent, limits), x, y)
  {
    if |recent| > limits.maxCacheEntry {
      OutranksPrefix(recent, |recent| - Min(|recent|, limits.evictCount), x, y);
    }
  }

  /** A read that puts blocks first, and an eviction after it. */
  lemma RaisedThenCut(recent: seq<UseRecord>, recent': seq<UseRecord>, f: string, first: nat, end: nat, n: nat,
                      limits: Limits, x: BlockId, y: BlockId)
    requires ReadAndCut(recent, recent', f, first, end, n, limits) && !IsAmong(y, f, first, end)
    requires (n > 0 && IsAmong(x, f, first, end)) || Outranks(recent, x, y)
    ensures Outranks(recent', x, y)
  {
    var read :| ReadList(recent, read, f, first, end, n) && IsEvicted(read, recent', true, limits);
    if n > 0 {
      OutranksRead(recent, read, f, first, end, x, y);
    }
    OutranksCut(read, limits, x, y);
  }

  lemma NotRead(op: Op, n: nat, y: BlockId, blockSize: nat)
    requires blockSize > 0 && op.ReadOp? && n <= op.size && !AsksFor(op, y, blockSize)
    ensures !IsAmong(y, op.file, BlockNum(op.offset, blockSize), EndBlock(op.offset + n, blockSize))
  {
    EndBlockMonotone(op.offset + n, op.offset + op.size, blockSize);
  }

  /** A read puts what it reads ahead of what it does not ask for. */
  lemma ReadRaises(recent: seq<UseRecord>, recent': seq<UseRecord>, op: Op, answer: Answer, limits: Limits, x: BlockId,
                   y: BlockId, blockSize: nat)
    requires blockSize > 0 && op.ReadOp? && answer.ok && !AsksFor(op, y, blockSize)
    requires HasRead(op, answer, x, blockSize) || Outranks(recent, x, y)
    requires ReadOrdered(recent, recent', op.file, op.offset, op.size, true, |answer.bytes|, limits, blockSize)
    ensures Outranks(recent', x, y)
  {
    var n := |answer.bytes|;
    NotRead(op, n, y, blockSize);
    RaisedThenCut(recent, recent', op.file, BlockNum(op.offset, blockSize), EndBlock(op.offset + n, blockSize), n,
                  limits, x, y);
  }

  lemma FailedReadKeeps(recent: seq<UseRecord>, recent': seq<UseRecord>, f: string, first: nat, end: nat, x: BlockId,
                        y: BlockId)
    requires ReadFailed(recent, recent', f, first, end) && !IsAmong(y, f, first, end)
    requires Outranks(recent, x, y) && IsListed(recent, x)
    ensures Outranks(recent', x, y)
  {
    if Extended(recent, recent', f, first, end) {
      OutranksExtended(recent, recent', f, first, end, x, y);
    } else {
      var e: nat :| e <= end && ReadFirst(recent, recent', f, first, e);
      OutranksRead(recent, recent', f, first, e, x, y);
    }
  }

  lemma ReadKeeps(recent: seq<UseRecord>, recent': seq<UseRecord>, op: Op, answer: Answer, limits: Limits, x: BlockId,
                  y: BlockId, blockSize: nat)
    requires blockSize > 0 && op.ReadOp? && !AsksFor(op, y, blockSize) && Outranks(recent, x, y) && IsListed(recent, x)
    requires ReadOrdered(recent, recent', op.file, op.offset, op.size, answer.ok, |answer.bytes|, limits, blockSize)
    ensures Outranks(recent', x, y)
  {
    if answer.ok {
      ReadRaises(recent, recent', op, answer, limits, x, y, blockSize);
    } else {
      FailedReadKeeps(recent, recent', op.file, BlockNum(op.offset, blockSize),
                      EndBlock(op.offset + op.size, blockSize), x, y);
    }
  }

  lemma WriteKeeps(recent: seq<UseRecord>, recent': seq<UseRecord>, f: string, offset: nat, n: nat, ok: bool,
                   limits: Limits, x: BlockId, y: BlockId, blockSize: nat)
    requires blockSize > 0 && Outranks(recent, x, y) && IsListed(recent, x)
    requires WriteOrdered(recent, recent', f, offset, n, ok, limits, blockSize)
    ensures Outranks(recent', x, y)
  {
    var first, end := BlockNum(offset, blockSize), EndBlock(offset + n, blockSize);
    var written :| Extended(recent, written, f, first, end) && IsEvicted(written, recent', ok, limits);
    OutranksExtended(recent, written, f, first, end, x, y);
    OutranksCut(written, limits, x, y);
  }

  lemma DiscardKeeps(before: Snapshot, op: Op, answer: Answer, after: Snapshot, x: BlockId, y: BlockId, blockSize: nat)
    requires blockSize > 0 && Reorders(before, op, answer, after, blockSize) && !op.EvictOp? && Discards(op, op.file)
    requires Outranks(before.recent, x, y) && !Discards(op, x.file)
    ensures Outranks(after.recent, x, y)
  {
    FilterKeeps(before.recent, after.recent, op.file, x, y);
  }

  /** An operation that does not ask for `y`, nor discards blocks of the file of `x`, leaves `x` ahead of `y`. */
  lemma RankStep(before: Snapshot, op: Op, answer: Answer, after: Snapshot, x: BlockId, y: BlockId, blockSize: nat)
    requires blockSize > 0 && Reorders(before, op, answer, after, blockSize)
    requires Outranks(before.recent, x, y) && IsListed(before.recent, x)
    requires !AsksFor(op, y, blockSize) && !Discards(op, x.file)
    ensures Outranks(after.recent, x, y)
  {
    match op
    case ReadOp(_, _, _) =>
      ReadKeeps(before.recent, after.recent, op, answer, before.limits, x, y, blockSize);
    case WriteOp(f, offset, data) =>
      WriteKeeps(before.recent, after.recent, f, offset, |data|, answer.ok, before.limits, x, y, blockSize);
    case EvictOp(count) =>
      OutranksPrefix(before.recent, |before.recent| - Min(|before.recent|, count), x, y);
    case FlushOp(_) =>
    case CreateOp(_) =>
    case _ => DiscardKeeps(before, op, answer, after, x, y, blockSize);
  }

  lemma FilterKeeps(recent: seq<UseRecord>, recent': seq<UseRecord>, f: string, x: BlockId, y: BlockId)
    requires Filtered(recent, recent', f) && Outranks(recent, x, y) && x.file != f
    ensures Outranks(recent', x, y)
  {
    var blocks :| recent' == Without(recent, f, blocks);
    OutranksFiltered(recent, f, blocks, x, y);
  }

  lemma OrderAt(trace: seq<Snapshot>, ops: seq<Op>, answers: seq<Answer>, k: nat, blockSize: nat)
    requires blockSize > 0 && TraceOf(trace, ops, answers, blockSize) && k < |ops|
    ensures Reorders(trace[k], ops[k], answers[k], trace[k + 1], blockSize)
    ensures Lists(trace[k + 1].cached, trace[k + 1].recent)
  {
    assert StepAt(trace, ops, answers, k, blockSize);
  }

  /** In any run, a block that was read more recently outlives, and is listed ahead of, one not asked for since: if `x`
      was read by the `i`-th operation, and `y` neither by it nor since, then as long as `y` is cached so is `x`,
      unless its file was truncated, checked or unlinked. */
  lemma {:induction false} ReadMoreRecently(trace: seq<Snapshot>, ops: seq<Op>, answers: seq<Answer>, i: nat, n: nat,
                                            x: BlockId, y: BlockId, blockSize: nat)
    requires blockSize > 0 && TraceOf(trace, ops, answers, blockSize) && i < n <= |ops|
    requires HasRead(ops[i], answers[i], x, blockSize)
    requires forall k | i <= k < n :: !AsksFor(ops[k], y, blockSize)
    requires forall k | i < k < n :: !Discards(ops[k], x.file) && HasEntry(trace[k].cached, x.file, x.block)
    ensures Outranks(trace[n].recent, x, y)
    ensures x != y && HasEntry(trace[n].cached, y.file, y.block) ==> HasEntry(trace[n].cached, x.file, x.block)
    decreases n
  {
    var p := n - 1;
    OrderAt(trace, ops, answers, p, blockSize);
    if p == i {
      ReadRaises(trace[i].recent, trace[n].recent, ops[i], answers[i], trace[i].limits, x, y, blockSize);
    } else {
      ReadMoreRecently(trace, ops, answers, i, p, x, y, blockSize);
      OrderAt(trace, ops, answers, p - 1, blockSize);
      assert HasEntry(trace[p].cached, x.file, x.block) && x == BlockId(x.file, x.block);
      RankStep(trace[p], ops[p], answers[p], trace[n], x, y, blockSize);
    }
    OutranksCached(trace[n].cached, trace[n].recent, x, y);
  }

  lemma OutranksCached(cached: FileMap, recent: seq<UseRecord>, x: BlockId, y: BlockId)
    requires Lists(cached, recent) && Outranks(recent, x, y)
    ensures x != y && HasEntry(cached, y.file, y.block) ==> HasEntry(cached, x.file, x.block)
  {
    if x != y && HasEntry(cached, y.file, y.block) {
      var j :| 0 <= j < |recent| && Names(recent[j], y);
      OutranksMeans(recent, x, y, j);
      assert x == BlockId(x.file, x.block);
    }
  }

  /** The first `n` requests of a run all succeeded and spanned no more blocks than an eviction drops. */
  predicate SmallAndOk(ops: seq<Op>, answers: seq<Answer>, n: nat, blockSize: nat, evictCount: nat)
    requires blockSize > 0 && n <= |ops| && n <= |answers|
  {
    forall j | 0 <= j < n :: answers[j].ok && Span(ops[j], blockSize) <= evictCount
  }

  predicate AllSmall(ops: seq<Op>, blockSize: nat, evictCount: nat)
    requires blockSize > 0
  {
    forall op <- ops :: Span(op, blockSize) <= evictCount
  }

  /** The cache is within its capacity in every state up to the first request that failed or was too large. */
  ghost predicate WithinCapacity(trace: seq<Snapshot>, ops: seq<Op>, answers: seq<Answer>, blockSize: nat,
                                 maxCacheEntry: nat, evictCount: nat)
    requires blockSize > 0 && |trace| == |ops| + 1 && |answers| == |ops|
  {
    |trace[0].recent| <= maxCacheEntry ==>
      forall k | 0 <= k <= |ops| && SmallAndOk(ops, answers, k, blockSize, evictCount) ::
        |trace[k].recent| <= maxCacheEntry
  }

  lemma TraceSnoc(trace: seq<Snapshot>, ops: seq<Op>, answers: seq<Answer>, blockSize: nat, op: Op, answer: Answer,
                  after: Snapshot)
    requires TraceOf(trace, ops, answers, blockSize) && StepAmongOthers(trace[|ops|], op, answer, after, blockSize)
    requires Housekeeping(trace[|ops|], op, answer, after, blockSize)
    ensures TraceOf(trace + [after], ops + [op], answers + [answer], blockSize)
    ensures FaithfulUpTo(trace + [after], ops + [op], |ops| + 1, blockSize) <==>
            FaithfulUpTo(trace, ops, |ops|, blockSize) && Faithful(trace[|ops|], op, blockSize)
  {
    var trace', ops', answers' := trace + [after], ops + [op], answers + [answer];
    var n := |ops|;
    forall i: nat | i < |ops'| ensures StepAt(trace', ops', answers', i, blockSize) {
      assert i < n ==> StepAt(trace, ops, answers, i, blockSize);
    }
    assert FaithfulAt(trace', ops', n, blockSize) <==>
           SnapshotOk(trace[n], blockSize) && Faithful(trace[n], op, blockSize);
    forall j: nat | j < n ensures FaithfulAt(trace', ops', j, blockSize) <==> FaithfulAt(trace, ops, j, blockSize) {
    }
    if FaithfulUpTo(trace', ops', n + 1, blockSize) {
      forall j: nat | j < n ensures FaithfulAt(trace, ops, j, blockSize) {
        assert FaithfulAt(trace', ops', j, blockSize);
      }
    }
  }

  lemma CapacitySnoc(trace: seq<Snapshot>, ops: seq<Op>, answers: seq<Answer>, blockSize: nat, maxCacheEntry: nat,
                     evictCount: nat,
                     op: Op, answer: Answer, after: Snapshot)
    requires blockSize > 0 && |trace| == |ops| + 1 && |answers| == |ops|
    requires WithinCapacity(trace, ops, answers, blockSize, maxCacheEntry, evictCount)
    requires answer.ok && |trace[|ops|].recent| <= maxCacheEntry && Span(op, blockSize) <= evictCount ==>
               |after.recent| <= maxCacheEntry
    ensures WithinCapacity(trace + [after], ops + [op], answers + [answer], blockSize, maxCacheEntry, evictCount)
  {
    var trace', ops', answers' := trace + [after], ops + [op], answers + [answer];
    forall k |
      0 <= k <= |ops'| && |trace[0].recent| <= maxCacheEntry && SmallAndOk(ops', answers', k, blockSize, evictCount)
      ensures |trace'[k].recent| <= maxCacheEntry
    {
      var n := if k <= |ops| then k else |ops|;
      forall j | 0 <= j < n ensures answers[j].ok && Span(ops[j], blockSize) <= evictCount {
        assert answers'[j].ok && Span(ops'[j], blockSize) <= evictCount;
      }
      assert SmallAndOk(ops, answers, n, blockSize, evictCount);
      if k > |ops| {
        assert answers'[|ops|].ok && Span(ops'[|ops|], blockSize) <= evictCount;
      }
    }
  }

  /** The client has answered as a plain file system would, shows the same files, and, if its requests are
      small, is within its capacity. */
  ghost predicate OnTrack(fs: NetFS, views: map<string, seq<Byte>>, done: seq<Op>, answers: seq<Answer>, small: bool)
    reads fs, fs.cache, fs.cache.server
  {
    && fs.Valid() && fs.cache.Quiet() && (fs.cache.Views(), answers) == FlatRun(views, done)
    && (small ==> |fs.cache.recent| <= fs.maxCacheEntry)
  }

  /** The server knows the size of every file that has not grown since it was last flushed. */
  ghost predicate SizesOnTrack(fs: NetFS, views: map<string, seq<Byte>>, done: seq<Op>)
    reads fs, fs.cache, fs.cache.server
  {
    fs.Valid() && fs.cache.Sized() && fs.cache.Unstored() <= GrownBy(views, done)
  }

  /** One operation of a run. */
  method NextOp(fs: NetFS, op: Op, ghost answers: seq<Answer>, ghost views: map<string, seq<Byte>>, ghost done: seq<Op>,
                ghost small: bool)
    returns (answer: Answer)
    requires fs.Valid() && (small ==> Span(op, fs.cache.blockSize) <= fs.evictCount)
    modifies fs, fs.cache, fs.cache.server
    ensures fs.Valid() && StepAmongOthers(old(Now(fs)), op, answer, Now(fs), fs.cache.blockSize)
    ensures Housekeeping(old(Now(fs)), op, answer, Now(fs), fs.cache.blockSize)
    ensures answer.ok && old(fs.Fits(Span(op, fs.cache.blockSize))) ==> |fs.cache.recent| <= fs.maxCacheEntry
    ensures old(OnTrack(fs, views, done, answers, small) && Faithful(Now(fs), op, fs.cache.blockSize)) ==>
              OnTrack(fs, views, done + [op], answers + [answer], small)
    ensures old(OnTrack(fs, views, done, answers, small) && SizesOnTrack(fs, views, done)) &&
            Plain(FlatRun(views, done).0, GrownBy(views, done), op, fs.cache.blockSize) ==>
              old(Faithful(Now(fs), op, fs.cache.blockSize)) && SizesOnTrack(fs, views, done + [op])
  {
    ghost var plain := OnTrack(fs, views, done, answers, small) && SizesOnTrack(fs, views, done) &&
                       Plain(FlatRun(views, done).0, GrownBy(views, done), op, fs.cache.blockSize);
    if plain {
      PlainIsFaithful(fs, GrownBy(views, done), op);
    }
    FlatRunSnoc(views, done, op);
    assert (done + [op])[..|done + [op]| - 1] == done;
    answer := Perform(fs, op);
  }

  /** A run that began in `start` has come this far. */
  ghost predicate RunSoFar(fs: NetFS, start: Snapshot, quiet: bool, small: bool, views: map<string, seq<Byte>>,
                           done: seq<Op>, answers: seq<Answer>, trace: seq<Snapshot>)
    reads fs, fs.cache, fs.cache.server
  {
    && fs.Valid() && TraceOf(trace, done, answers, fs.cache.blockSize) && trace[0] == start && trace[|done|] == Now(fs)
    && WithinCapacity(trace, done, answers, fs.cache.blockSize, fs.maxCacheEntry, fs.evictCount)
    && (quiet && FaithfulUpTo(trace, done, |done|, fs.cache.blockSize) ==> OnTrack(fs, views, done, answers, small))
  }

  /** One operation more. */
  method Extend(fs: NetFS, op: Op, answers: seq<Answer>, ghost trace: seq<Snapshot>, ghost start: Snapshot,
                ghost quiet: bool,
                ghost small: bool, ghost views: map<string, seq<Byte>>, ghost done: seq<Op>)
    returns (answers': seq<Answer>, ghost trace': seq<Snapshot>)
    requires RunSoFar(fs, start, quiet, small, views, done, answers, trace)
    requires small ==> Span(op, fs.cache.blockSize) <= fs.evictCount
    modifies fs, fs.cache, fs.cache.server
    ensures RunSoFar(fs, start, quiet, small, views, done + [op], answers', trace')
    ensures quiet && FaithfulUpTo(trace, done, |done|, fs.cache.blockSize) && old(SizesOnTrack(fs, views, done)) &&
            Plain(FlatRun(views, done).0, GrownBy(views, done), op, fs.cache.blockSize) ==>
              FaithfulUpTo(trace', done + [op], |done| + 1, fs.cache.blockSize) && SizesOnTrack(fs, views, done + [op])
  {
    var answer := NextOp(fs, op, answers, views, done, small);
    TraceSnoc(trace, done, answers, fs.cache.blockSize, op, answer, Now(fs));
    CapacitySnoc(trace, done, answers, fs.cache.blockSize, fs.maxCacheEntry, fs.evictCount, op, answer, Now(fs));
    answers', trace' := answers + [answer], trace + [Now(fs)];
  }

  /** Any run of a client: the states it goes through, whatever other clients and a failing server do meanwhile; its
      capacity; and, if it is alone and nothing fails, that it is a plain file system. */
  method Run(fs: NetFS, ops: seq<Op>) returns (answers: seq<Answer>, ghost trace: seq<Snapshot>)
    requires fs.Valid()
    modifies fs, fs.cache, fs.cache.server
    ensures fs.Valid() && TraceOf(trace, ops, answers, fs.cache.blockSize)
    ensures trace[0] == old(Now(fs)) && trace[|ops|] == Now(fs)
    ensures WithinCapacity(trace, ops, answers, fs.cache.blockSize, fs.maxCacheEntry, fs.evictCount)
    ensures old(fs.cache.Quiet()) && FaithfulUpTo(trace, ops, |ops|, fs.cache.blockSize) ==>
              && fs.cache.Quiet() && (fs.cache.Views(), answers) == FlatRun(old(fs.cache.Views()), ops)
              && (|trace[0].recent| <= fs.maxCacheEntry && AllSmall(ops, fs.cache.blockSize, fs.evictCount) ==>
                    |trace[|ops|].recent| <= fs.maxCacheEntry)
    ensures old(fs.cache.Quiet() && fs.cache.Sized()) && old(fs.cache.Unstored()) == {} &&
            PlainRun(old(fs.cache.Views()), ops, fs.cache.blockSize) ==>
              FaithfulUpTo(trace, ops, |ops|, fs.cache.blockSize)
  {
    ghost var views, quiet := fs.cache.Views(), fs.cache.Quiet();
    ghost var sized := fs.cache.Sized() && fs.cache.Unstored() == {};
    ghost var plain := quiet && sized && PlainRun(views, ops, fs.cache.blockSize);
    ghost var small := |fs.cache.recent| <= fs.maxCacheEntry && AllSmall(ops, fs.cache.blockSize, fs.evictCount);
    ghost var done: seq<Op>, start := [], Now(fs);
    answers, trace := [], [start];
    var i := 0;
    while i < |ops|
      invariant 0 <= i <= |ops| && done == ops[..i]
      invariant RunSoFar(fs, start, quiet, small, views, done, answers, trace)
      invariant plain ==> FaithfulUpTo(trace, done, |done|, fs.cache.blockSize) && SizesOnTrack(fs, views, done)
    {
      assert plain ==> PlainAt(views, ops, i, fs.cache.blockSize);
      answers, trace := Extend(fs, ops[i], answers, trace, start, quiet, small, views, done);
      done := done + [ops[i]];
      assert done == ops[..i + 1];
      i := i + 1;
    }
    assert done == ops;
  }

  /** A client that starts with nothing cached, alone on a server that does not fail: its answers are those of a
      plain file system that starts with the server's files, whatever was cached, flushed or evicted meanwhile. */
  method SingleClient(files: Files, clock: nat, blockSize: nat, maxCacheEntry: nat, evictCount: nat,
                      flushInterval: nat, ops: seq<Op>)
    returns (answers: seq<Answer>, cachedBlocks: nat)
    requires blockSize > 0 && TimesPassed(files, clock)
    requires PlainRun(map f <- files :: files[f].content, ops, blockSize)
    ensures answers == FlatRun(map f <- files :: files[f].content, ops).1 && |answers| == |ops|
    ensures AllSmall(ops, blockSize, evictCount) ==> cachedBlocks <= maxCacheEntry
  {
    var server := new Server(true, true, files, clock);
    var fs := new NetFS(server, blockSize, maxCacheEntry, evictCount, flushInterval);
    assert fs.cache.Quiet() && fs.cache.Views() == map f <- files :: files[f].content;
    ghost var trace;
    answers, trace := Run(fs, ops);
    cachedBlocks := |fs.cache.recent|;
  }

  /** A client among others, from the start: every state of its run is trusted up to the first careless truncate. */
  method ClientAmongOthers(server: Server, blockSize: nat, maxCacheEntry: nat, evictCount: nat, flushInterval: nat,
                           ops: seq<Op>)
    returns (fs: NetFS, answers: seq<Answer>, ghost trace: seq<Snapshot>)
    requires blockSize > 0 && server.Valid()
    modifies server
    ensures fs.Valid() && fs.cache.server == server
    ensures TraceOf(trace, ops, answers, blockSize) && trace[0].cached == map[] && trace[|ops|] == Now(fs)
    ensures forall i | 0 <= i <= |ops| :: CarefulUpTo(trace, ops, i, blockSize) ==> TrustedAt(trace[i], blockSize)
    ensures WithinCapacity(trace, ops, answers, blockSize, maxCacheEntry, evictCount) && |trace[0].recent| == 0
    ensures trace[0].files == old(server.files) && trace[0].refusals == old(server.refusals)
    ensures server.alone && server.reliable &&
            PlainRun(map f <- old(server.files) :: old(server.files)[f].content, ops, blockSize) ==>
              answers == FlatRun(map f <- old(server.files) :: old(server.files)[f].content, ops).1
  {
    fs := new NetFS(server, blockSize, maxCacheEntry, evictCount, flushInterval);
    assert fs.cache.Views() == map f <- server.files :: server.files[f].content;
    answers, trace := Run(fs, ops);
    forall i | 0 <= i <= |ops| && CarefulUpTo(trace, ops, i, blockSize) ensures TrustedAt(trace[i], blockSize) {
      TrustAlong(trace, ops, answers, i, blockSize);
    }
  }

  /** The size a client is told need not be the one it sees: a write of four bytes to an empty file is cached,
      read back, and unknown to the server that answers the stat request. */
  method StatMissesCachedWrite() returns (told: nat, seen: nat)
    ensures told == 0 && seen == 4
  {
    var server := new Server(true, true, map["a" := ServerFile([], 0, 0)], 0);
    var fs := new NetFS(server, 4, 1, 1, 2);
    var err := fs.cache.Write("a", 0, [7, 7, 7, 7]);
    var buf := new Byte[4];
    err, seen := fs.cache.Read("a", 0, buf, 4);
    assert buf[..seen] == PRead(fs.cache.View("a"), 0, 4) && |fs.cache.View("a")| == 4;
    var attr;
    err, attr := fs.Stat("a");
    told := attr.size;
  }
}
