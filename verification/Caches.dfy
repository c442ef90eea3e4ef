/** The client's write-back block cache (client_src/cache.cpp). */
module Caches {
  import opened Ranges
  import opened FlatFile
  import opened CachedFile
  import opened Servers
  import opened Recency
  import opened Flushing
  import opened CacheSteps

  class Cache {
    const server: Server
    const blockSize: nat
    var fileMap: FileMap
    var recent: seq<UseRecord>
    var nextRecord: nat
    var lastReadHit: bool

    ghost predicate Valid()
      reads this, server
    {
      && blockSize > 0
      && server.Valid()
      && Linked(fileMap, recent, nextRecord)
      && FilesOk(fileMap, blockSize, server.clock)
    }

    ghost predicate Current(f: string)
      reads this, server
    {
      IsCurrent(fileMap, server.files, f)
    }

    ghost predicate Trusted()
      requires Valid()
      reads this, server
    {
      IsTrusted(fileMap, server.files, blockSize)
    }

    /** No other client acts, no request fails, and every cached file agrees with the server. */
    ghost predicate Quiet()
      requires Valid()
      reads this, server
    {
      server.alone && server.reliable && IsQuiet(fileMap, server.files, blockSize)
    }

    /** What a reader of the file sees. */
    ghost function View(f: string): seq<Byte>
      requires Valid() && f in server.files
      reads this, server
    {
      ViewOf(fileMap, server.files, blockSize, f)
    }

    /** Every file without a dirty byte has the size the server knows. */
    ghost predicate Sized()
      requires blockSize > 0
      reads this, server
    {
      IsSized(fileMap, server.files, blockSize)
    }

    /** The cached files whose size the server does not know. */
    ghost function Unstored(): set<string>
      reads this, server
    {
      UnknownSizes(fileMap, server.files)
    }

    /** What this client's step from an earlier state did to the files it has no reason to distrust. */
    ghost predicate Did(cached: FileMap, files: Files, f: string, e: Effect)
      requires Valid() && forall g <- cached :: EntriesOk(cached[g], blockSize)
      reads this, server
    {
      OwnStep(cached, files, fileMap, server.files, blockSize, f, e)
    }

    /** This client's step from an earlier state changed no view of a file it has no reason to distrust. */
    ghost predicate Kept(cached: FileMap, files: Files)
      requires Valid() && forall g <- cached :: EntriesOk(cached[g], blockSize)
      reads this, server
    {
      KeepsViews(cached, files, fileMap, server.files, blockSize)
    }

    /** What readers see of all files: the state of the plain file system the cache stands for. */
    ghost function Views(): map<string, seq<Byte>>
      requires Valid()
      reads this, server
    {
      ViewsOf(fileMap, server.files, blockSize)
    }

    constructor (blockSize: nat, server: Server)
      requires blockSize > 0 && server.Valid()
      ensures Valid() && this.blockSize == blockSize && this.server == server
      ensures fileMap == map[] && recent == []
    {
      this.blockSize, this.server := blockSize, server;
      fileMap, recent, nextRecord, lastReadHit := map[], [], 0, false;
    }

    method CacheFileAttr(f: string) returns (err: int)
      requires Valid()
      modifies this, server
      ensures server.Refused(err)
      ensures Valid() && old(server.clock) <= server.clock
      ensures Evolved(old(server.files), old(server.clock), server.files, {})
      ensures recent == old(recent) && nextRecord == old(nextRecord) && lastReadHit == old(lastReadHit)
      ensures server.log == old(server.log)
      ensures err != 0 ==> fileMap == old(fileMap) && f !in fileMap
      ensures f in old(fileMap) ==> err == 0 && fileMap == old(fileMap) && server.files == old(server.files)
      ensures err == 0 ==> AttrCached(old(fileMap), fileMap, server.files, f)
      ensures old(Trusted()) ==> Trusted()
      ensures server.alone ==> server.files == old(server.files)
      ensures server.alone && server.reliable && f in server.files ==> err == 0
      ensures server.alone && f !in old(fileMap) && f !in server.files ==> err != 0
    {
      if f in fileMap {
        return 0;
      }
      var attr;
      err, attr := server.ReadAttr(f);
      TrustedAfterOthers(fileMap, blockSize, old(server.files), old(server.clock), server.files);
      if err != 0 {
        return;
      }
      fileMap := fileMap[f := FileCache(false, attr, map[])];
      LinkedIfSameShape(old(fileMap), fileMap, recent, nextRecord);
      AttrCachedKeepsTrust(old(fileMap), fileMap, server.files, blockSize, f);
    }

    /** The same, and what it means for readers. */
    method LookUp(f: string) returns (err: int)
      requires Valid()
      modifies this, server
      ensures server.Refused(err)
      ensures Valid()
      ensures recent == old(recent) && lastReadHit == old(lastReadHit) && server.log == old(server.log)
      ensures if err == 0 then f in fileMap else fileMap == old(fileMap) && f !in fileMap
      ensures f in old(fileMap) ==> err == 0 && fileMap == old(fileMap) && server.files == old(server.files)
      ensures f !in old(fileMap) && f in fileMap ==> fileMap[f].entries == map[]
      ensures err == 0 ==> AttrCached(old(fileMap), fileMap, server.files, f)
      ensures old(Trusted()) ==> Trusted()
      ensures Did(old(fileMap), old(server.files), f, Keep)
      ensures old(fileMap).Keys <= fileMap.Keys && OwnSizes(old(fileMap), fileMap, f, Keep)
      ensures server.alone ==> server.files == old(server.files) && forall g <- server.files :: View(g) == old(View(g))
      ensures server.alone && old(f in fileMap ==> Current(f)) && f in fileMap ==> Current(f)
      ensures old(Quiet()) ==>
                && (err == 0 <==> f in server.files) && Quiet() && Views() == old(Views())
                && (old(Sized()) ==> Sized()) && Unstored() <= old(Unstored())
    {
      err := CacheFileAttr(f);
      OthersOwn(old(fileMap), old(server.files), old(server.clock), fileMap, server.files, blockSize, f);
      if err == 0 {
        AttrCachedKeepsTrust(old(fileMap), fileMap, server.files, blockSize, f);
        AttrCachedKeepsViews(old(fileMap), fileMap, server.files, blockSize, f);
      }
    }

    /** Creates an empty entry with its record at the tail of the list. */
    method AddEntry(f: string, block: nat)
      requires Valid() && f in fileMap && block !in fileMap[f].entries
      modifies this
      ensures Valid()
      ensures fileMap == PutEntry(old(fileMap), f, block, NewEntry(blockSize, old(nextRecord)))
      ensures recent == old(recent) + [UseRecord(old(nextRecord), f, block)]
      ensures nextRecord == old(nextRecord) + 1 && lastReadHit == old(lastReadHit)
    {
      var e := NewEntry(blockSize, nextRecord);
      LinkedAfterInsert(fileMap, recent, nextRecord, f, block, e);
      recent := recent + [UseRecord(nextRecord, f, block)];
      fileMap := PutEntry(fileMap, f, block, e);
      nextRecord := nextRecord + 1;
    }

    /** Replaces the contents of an entry that keeps its record. */
    method SetEntry(f: string, block: nat, e: CacheEntry)
      requires Valid() && HasEntry(fileMap, f, block)
      requires e.Ok(blockSize) && e.useRecord == fileMap[f].entries[block].useRecord
      modifies this
      ensures Valid()
      ensures fileMap == PutEntry(old(fileMap), f, block, e)
      ensures recent == old(recent) && nextRecord == old(nextRecord) && lastReadHit == old(lastReadHit)
    {
      fileMap := PutEntry(fileMap, f, block, e);
      LinkedIfSameShape(old(fileMap), fileMap, recent, nextRecord);
    }

    method WriteBlock(f: string, block: nat, offset: nat, data: seq<Byte>)
      requires Valid() && f in fileMap
      requires data != [] && offset + |data| <= blockSize
      modifies this
      ensures Valid()
      ensures fileMap == PutEntry(old(fileMap), f, block,
                                  WrittenEntry(old(fileMap)[f], blockSize, block, offset, data, old(nextRecord)))
      ensures recent == if HasEntry(old(fileMap), f, block) then old(recent)
                        else old(recent) + [UseRecord(old(nextRecord), f, block)]
      ensures lastReadHit == old(lastReadHit)
    {
      if block !in fileMap[f].entries {
        AddEntry(f, block);
      }
      var e := fileMap[f].entries[block];
      WrittenEntryOk(e, blockSize, offset, data);
      SetEntry(f, block, e.Write(offset, data));
      PutTwice(old(fileMap), f, block, NewEntry(blockSize, old(nextRecord)), e.Write(offset, data));
    }

    /** Writes through the cache, growing the file and dirtying the blocks it touches. */
    method Write(f: string, offset: nat, buf: seq<Byte>) returns (err: int)
      requires Valid()
      modifies this, server
      ensures server.Refused(err)
      ensures Valid()
      ensures old(Trusted()) ==> Trusted()
      ensures lastReadHit == old(lastReadHit) && server.log == old(server.log)
      ensures err != 0 ==> fileMap == old(fileMap) && recent == old(recent)
      ensures Extended(old(recent), recent, f, BlockNum(offset, blockSize), EndBlock(offset + |buf|, blockSize))
      ensures |recent| <= |old(recent)| + SpannedBlocks(offset, |buf|, blockSize)
      ensures server.alone ==> server.files == old(server.files)
      ensures old(Trusted()) ==> Did(old(fileMap), old(server.files), f, Overwriting(offset, buf))
      ensures old(fileMap).Keys <= fileMap.Keys && OwnSizes(old(fileMap), fileMap, f, Overwriting(offset, buf))
      ensures err == 0 ==> f in fileMap && StillDirty(old(fileMap), fileMap, blockSize, f, buf)
      ensures old(Quiet()) && f in server.files ==>
                && err == 0 && Quiet() && View(f) == Overwrite(old(View(f)), offset, buf)
                && (forall g <- server.files :: g != f ==> View(g) == old(View(g)))
                && (old(Sized()) && (buf != [] || offset <= |old(View(f))|) ==> Sized())
                && Unstored() <= old(Unstored()) + (if offset + |buf| > |old(View(f))| then {f} else {})
      ensures old(Quiet()) && f !in server.files ==> err != 0 && Quiet() && (old(Sized()) ==> Sized())
    {
      err := LookUp(f);
      if err != 0 {
        OwnUncached(old(fileMap), old(server.files), fileMap, server.files, blockSize, f, Overwriting(offset, buf));
        return;
      }
      ghost var cached := fileMap;
      WriteListed(f, offset, buf);
      OwnSizesCompose(old(fileMap), cached, fileMap, f, Keep, Overwriting(offset, buf));
      if old(Trusted()) {
        OwnComposes(old(fileMap), old(server.files), cached, server.files, fileMap, server.files, blockSize, f, Keep,
                    Overwriting(offset, buf));
      }
    }

    /** The part of Cache::write that follows the attribute lookup, and what it means for readers. */
    method WriteListed(f: string, offset: nat, buf: seq<Byte>)
      requires Valid() && f in fileMap
      modifies this
      ensures Valid() && lastReadHit == old(lastReadHit)
      ensures Extended(old(recent), recent, f, BlockNum(offset, blockSize), EndBlock(offset + |buf|, blockSize))
      ensures |recent| <= |old(recent)| + SpannedBlocks(offset, |buf|, blockSize)
      ensures fileMap.Keys == old(fileMap).Keys && OwnSizes(old(fileMap), fileMap, f, Overwriting(offset, buf))
      ensures StillDirty(old(fileMap), fileMap, blockSize, f, buf)
      ensures old(Trusted()) ==> Trusted()
      ensures Did(old(fileMap), server.files, f, Overwriting(offset, buf))
      ensures old(Quiet()) ==>
                && Quiet() && View(f) == Overwrite(old(View(f)), offset, buf)
                && (forall g <- server.files :: g != f ==> View(g) == old(View(g)))
                && (old(Sized()) && (buf != [] || offset <= |old(View(f))|) ==> Sized())
                && Unstored() <= old(Unstored()) + (if offset + |buf| > |old(View(f))| then {f} else {})
    {
      WriteCached(f, offset, buf);
      WroteFileViews(old(fileMap), fileMap, server.files, blockSize, f, offset, buf);
      WroteStillDirty(old(fileMap), fileMap, blockSize, f, offset, buf);
      WroteIsOwn(old(fileMap), fileMap, server.files, blockSize, f, offset, buf);
    }

    method WriteCached(f: string, offset: nat, buf: seq<Byte>)
      requires Valid() && f in fileMap
      modifies this
      ensures Valid()
      ensures WroteFile(old(fileMap), fileMap, blockSize, f, offset, buf)
      ensures lastReadHit == old(lastReadHit)
      ensures Extended(old(recent), recent, f, BlockNum(offset, blockSize), EndBlock(offset + |buf|, blockSize))
      ensures |recent| <= |old(recent)| + SpannedBlocks(offset, |buf|, blockSize)
    {
      ghost var fc := fileMap[f];
      if offset + |buf| > fileMap[f].attr.size {
        SetSize(f, offset + |buf|);
      }
      WriteChunks(f, offset, buf, fc);
    }

    method SetSize(f: string, size: nat)
      requires Valid() && f in fileMap
      modifies this
      ensures Valid()
      ensures fileMap == old(fileMap)[f := Grown(old(fileMap)[f], size)]
      ensures recent == old(recent) && nextRecord == old(nextRecord) && lastReadHit == old(lastReadHit)
    {
      fileMap := fileMap[f := Grown(fileMap[f], size)];
      LinkedIfSameShape(old(fileMap), fileMap, recent, nextRecord);
    }

    /** One round of the loop below: `done` is already written at `position`, `data` follows. */
    method WriteChunk(f: string, block: nat, offset: nat, data: seq<Byte>, ghost fc: FileCache, ghost position: nat,
                      ghost done: seq<Byte>, ghost start: seq<UseRecord>, ghost end: nat)
      requires Valid() && f in fileMap && EntriesOk(fc, blockSize)
      requires data != [] && offset + |data| <= blockSize
      requires position + |done| == BlockStart(block, blockSize) + offset
      requires Wrote(fc, fileMap[f], blockSize, position, done)
      requires BlockNum(position, blockSize) <= block < end
      requires Extended(start, recent, f, BlockNum(position, blockSize), end)
      modifies this
      ensures Valid() && f in fileMap
      ensures fileMap == old(fileMap)[f := fileMap[f]]
      ensures fileMap[f] == old(fileMap)[f].(entries := fileMap[f].entries)
      ensures Wrote(fc, fileMap[f], blockSize, position, done + data)
      ensures |recent| <= |old(recent)| + 1 && lastReadHit == old(lastReadHit)
      ensures Extended(start, recent, f, BlockNum(position, blockSize), end)
    {
      WriteBlockExtends(fc, fileMap[f], blockSize, block, offset, data, nextRecord, position, done);
      WriteBlock(f, block, offset, data);
      assert Extended(old(recent), recent, f, block, block + 1);
      ExtendedMore(start, old(recent), recent, f, BlockNum(position, blockSize), end, block, block + 1);
    }

    /** The block-by-block loop of Cache::write. */
    method WriteChunks(f: string, offset: nat, buf: seq<Byte>, ghost fc: FileCache)
      requires Valid() && f in fileMap
      requires fileMap[f] == Grown(fc, fileMap[f].attr.size)
      modifies this
      ensures Valid() && f in fileMap && EntriesOk(fc, blockSize)
      ensures fileMap == old(fileMap)[f := fileMap[f]]
      ensures fileMap[f] == old(fileMap)[f].(entries := fileMap[f].entries)
      ensures Wrote(fc, fileMap[f], blockSize, offset, buf)
      ensures lastReadHit == old(lastReadHit)
      ensures Extended(old(recent), recent, f, BlockNum(offset, blockSize), EndBlock(offset + |buf|, blockSize))
      ensures |recent| <= |old(recent)| + SpannedBlocks(offset, |buf|, blockSize)
    {
      var currBlock := BlockNum(offset, blockSize);
      var bstart: nat := BlockOffset(offset, blockSize);
      var bsize: nat := Min(blockSize - bstart, |buf|);
      ghost var end := EndBlock(offset + |buf|, blockSize);
      var written := 0;
      FirstChunk(offset, |buf|, blockSize);
      assert Wrote(fc, fileMap[f], blockSize, offset, buf[..0]) by {
        SameEntriesSameBytes(fc, fileMap[f], blockSize);
      }
      while written < |buf|
        invariant AtChunk(offset, |buf|, written, currBlock, bstart, bsize, blockSize)
        invariant Valid() && f in fileMap && EntriesOk(fc, blockSize)
        invariant fileMap == old(fileMap)[f := fileMap[f]]
        invariant fileMap[f] == old(fileMap)[f].(entries := fileMap[f].entries)
        invariant lastReadHit == old(lastReadHit)
        invariant Extended(old(recent), recent, f, BlockNum(offset, blockSize), end)
        invariant Wrote(fc, fileMap[f], blockSize, offset, buf[..written])
        invariant |recent| + BlockNum(offset, blockSize) <= |old(recent)| + currBlock
        decreases |buf| - written
      {
        NextChunk(offset, |buf|, written, currBlock, bstart, bsize, blockSize);
        var chunk := buf[written..written + bsize];
        assert buf[..written] + chunk == buf[..written + bsize];
        WriteChunk(f, currBlock, bstart, chunk, fc, offset, buf[..written], old(recent), end);
        currBlock := currBlock + 1;
        written := written + bsize;
        bstart := 0;
        bsize := Min(blockSize, |buf| - written);
      }
      assert buf[..written] == buf;
      LastChunk(offset, |buf|, currBlock, bstart, bsize, blockSize);
    }

    /** Fills one block with fetched bytes. */
    method FetchBlock(f: string, block: nat, data: seq<Byte>)
      requires Valid() && f in fileMap && |data| == blockSize
      modifies this
      ensures Valid()
      ensures fileMap == PutEntry(old(fileMap), f, block,
                                  FetchedEntry(old(fileMap)[f], blockSize, block, data, old(nextRecord)))
      ensures recent == if HasEntry(old(fileMap), f, block) then old(recent)
                        else old(recent) + [UseRecord(old(nextRecord), f, block)]
      ensures lastReadHit == old(lastReadHit)
    {
      if block !in fileMap[f].entries {
        AddEntry(f, block);
      }
      var e := fileMap[f].entries[block];
      FetchedEntryOk(e, blockSize, data);
      SetEntry(f, block, e.Fetch(data));
      PutTwice(old(fileMap), f, block, NewEntry(blockSize, old(nextRecord)), e.Fetch(data));
    }

    /** One round of the copying loop below. */
    method FetchOne(f: string, block: nat, data: seq<Byte>, ghost cached: FileMap)
      requires Valid() && f in fileMap && |data| == blockSize
      requires forall g <- cached :: EntriesOk(cached[g], blockSize)
      requires FetchedFile(cached, fileMap, server.files, blockSize, f)
      requires Current(f) ==> data == ServerBlock(server.files[f].content, blockSize, block)
      modifies this
      ensures Valid()
      ensures FetchedFile(cached, fileMap, server.files, blockSize, f)
      ensures IsFullBlock(fileMap[f], blockSize, block)
      ensures forall b :: IsFullBlock(old(fileMap)[f], blockSize, b) ==> IsFullBlock(fileMap[f], blockSize, b)
      ensures |recent| <= |old(recent)| + 1 && lastReadHit == old(lastReadHit)
      ensures Extended(old(recent), recent, f, block, block + 1)
    {
      ghost var e := if block in fileMap[f].entries then fileMap[f].entries[block] else NewEntry(blockSize, nextRecord);
      FetchedEntryOk(e, blockSize, data);
      if Current(f) {
        FetchBlockFetches(fileMap[f], server.files[f].content, blockSize, block, nextRecord);
      }
      FetchBlock(f, block, data);
      assert FetchedFile(old(fileMap), fileMap, server.files, blockSize, f);
      FetchedFileComposes(cached, old(fileMap), fileMap, server.files, blockSize, f);
    }

    /** Asks the server for a run of consecutive blocks and fills them. */
    method FetchRun(f: string, run: Range, ghost cached: FileMap) returns (err: int)
      requires Valid() && f in fileMap && run.start < run.end
      requires FilesOk(cached, blockSize, server.clock)
      requires FetchedFile(cached, fileMap, server.files, blockSize, f)
      modifies this, server
      ensures server.Refused(err)
      ensures Valid() && old(server.clock) <= server.clock && server.log == old(server.log)
      ensures Evolved(old(server.files), old(server.clock), server.files, {})
      ensures FetchedFile(cached, fileMap, server.files, blockSize, f)
      ensures err == 0 ==> forall b :: run.start <= b < run.end ==> IsFullBlock(fileMap[f], blockSize, b)
      ensures forall b :: IsFullBlock(old(fileMap)[f], blockSize, b) ==> IsFullBlock(fileMap[f], blockSize, b)
      ensures |recent| <= |old(recent)| + (run.end - run.start) && lastReadHit == old(lastReadHit)
      ensures Extended(old(recent), recent, f, run.start, run.end)
      ensures server.alone ==> server.files == old(server.files)
      ensures server.alone && server.reliable && f in server.files ==> err == 0
    {
      var blockCount := run.end - run.start;
      var data;
      err, data := server.ReadContent(f, BlockStart(run.start, blockSize), BlockStart(blockCount, blockSize));
      FetchedFileAfterOthers(cached, fileMap, old(server.files), old(server.clock), server.files, blockSize, f);
      if err != 0 {
        return;
      }
      var buf := Resize(data, BlockStart(blockCount, blockSize));
      var currBlock := run.start;
      ghost var files := server.files;
      while currBlock < run.end
        modifies this
        invariant run.start <= currBlock <= run.end
        invariant server.files == files && server.refusals == old(server.refusals)
        invariant Valid() && f in fileMap
        invariant FetchedFile(cached, fileMap, server.files, blockSize, f)
        invariant forall b :: run.start <= b < currBlock ==> IsFullBlock(fileMap[f], blockSize, b)
        invariant forall b :: IsFullBlock(old(fileMap)[f], blockSize, b) ==> IsFullBlock(fileMap[f], blockSize, b)
        invariant |recent| <= |old(recent)| + (currBlock - run.start) && lastReadHit == old(lastReadHit)
        invariant Extended(old(recent), recent, f, run.start, run.end)
      {
        AnswerHoldsBlock(server.files[f].content, blockSize, run.start, blockCount, currBlock);
        var copyStart := BlockStart(currBlock - run.start, blockSize);
        ghost var before := recent;
        FetchOne(f, currBlock, buf[copyStart..copyStart + blockSize], cached);
        ExtendedMore(old(recent), before, recent, f, run.start, run.end, currBlock, currBlock + 1);
        currBlock := currBlock + 1;
      }
    }

    /** The blocks of [first, end) that are not full, as a canonical list. */
    method MissingBlocks(f: string, first: nat, end: nat) returns (missing: seq<Range>)
      requires Valid() && f in fileMap && first <= end
      ensures Canonical(missing)
      ensures forall b :: Covers(missing, b) <==> first <= b < end && !IsFullBlock(fileMap[f], blockSize, b)
      ensures forall k :: 0 <= k < |missing| ==> first <= missing[k].start && missing[k].end <= end
    {
      var blockRange := new RangeList();
      var b := first;
      while b < end
        modifies blockRange
        invariant first <= b <= end && blockRange.Valid()
        invariant forall c :: Covers(blockRange.ranges, c) <==> first <= c < b && !IsFullBlock(fileMap[f], blockSize, c)
      {
        if !IsFullBlock(fileMap[f], blockSize, b) {
          blockRange.InsertRange(b, b + 1);
        }
        b := b + 1;
      }
      missing := blockRange.ranges;
      forall k | 0 <= k < |missing|
        ensures first <= missing[k].start && missing[k].end <= end
      {
        assert InRange(missing[k], missing[k].start) && InRange(missing[k], missing[k].end - 1);
        assert Covers(missing, missing[k].start) && Covers(missing, missing[k].end - 1);
      }
    }

    /** Makes all blocks of [first, end) full, fetching runs of missing ones. */
    method CacheBlocks(f: string, first: nat, end: nat) returns (err: int)
      requires Valid() && f in fileMap && first <= end
      modifies this, server
      ensures server.Refused(err)
      ensures Valid() && old(server.clock) <= server.clock && server.log == old(server.log)
      ensures Evolved(old(server.files), old(server.clock), server.files, {})
      ensures FetchedFile(old(fileMap), fileMap, server.files, blockSize, f)
      ensures err == 0 && fileMap[f].attr.size > 0 ==>
                forall b :: first <= b < end ==> IsFullBlock(fileMap[f], blockSize, b)
      ensures fileMap[f].attr.size > 0 ==>
                (lastReadHit <==> forall b :: first <= b < end ==> IsFullBlock(old(fileMap)[f], blockSize, b))
      ensures Extended(old(recent), recent, f, first, end)
      ensures |recent| <= |old(recent)| + (end - first)
      ensures server.alone ==> server.files == old(server.files)
      ensures server.alone && server.reliable && f in server.files ==> err == 0
      ensures old(fileMap)[f].attr.size == 0 ==>
                err == 0 && fileMap == old(fileMap) && recent == old(recent) && lastReadHit == old(lastReadHit)
    {
      if fileMap[f].attr.size == 0 {
        return 0;
      }
      var missing := MissingBlocks(f, first, end);
      lastReadHit := |missing| == 0;
      assert |missing| > 0 ==> InRange(missing[0], missing[0].start) && Covers(missing, missing[0].start);
      err := FetchRuns(f, missing, first, end);
    }

    /** Fetches the given runs of blocks, one after the other. */
    method FetchRuns(f: string, missing: seq<Range>, ghost first: nat, ghost end: nat) returns (err: int)
      requires Valid() && f in fileMap && Canonical(missing) && first <= end
      requires forall k :: 0 <= k < |missing| ==> first <= missing[k].start && missing[k].end <= end
      modifies this, server
      ensures server.Refused(err)
      ensures Valid() && old(server.clock) <= server.clock && server.log == old(server.log)
      ensures Evolved(old(server.files), old(server.clock), server.files, {})
      ensures FetchedFile(old(fileMap), fileMap, server.files, blockSize, f)
      ensures err == 0 ==> FullUpTo(fileMap[f], blockSize, missing, |missing|)
      ensures Extended(old(recent), recent, f, first, end)
      ensures |recent| <= |old(recent)| + (end - first) && lastReadHit == old(lastReadHit)
      ensures server.alone ==> server.files == old(server.files)
      ensures server.alone && server.reliable && f in server.files ==> err == 0
    {
      err := 0;
      var k := 0;
      while k < |missing|
        invariant 0 <= k <= |missing| && err == 0 && server.refusals == old(server.refusals)
        invariant Valid() && old(server.clock) <= server.clock && server.log == old(server.log)
        invariant Evolved(old(server.files), old(server.clock), server.files, {})
        invariant FetchedFile(old(fileMap), fileMap, server.files, blockSize, f)
        invariant FullUpTo(fileMap[f], blockSize, missing, k)
        invariant |recent| <= |old(recent)| + (if k == 0 then 0 else missing[k - 1].end - first)
        invariant (if k == 0 then 0 else missing[k - 1].end - first) <= end - first
        invariant lastReadHit == old(lastReadHit)
        invariant Extended(old(recent), recent, f, first, end)
        invariant server.alone ==> server.files == old(server.files)
      {
        RunEndsAdvance(missing, first, end, k);
        ghost var fc, before := fileMap[f], recent;
        err := FetchRun(f, missing[k], old(fileMap));
        ExtendedMore(old(recent), before, recent, f, first, end, missing[k].start, missing[k].end);
        if err != 0 {
          return;
        }
        FullUpToNext(fc, fileMap[f], blockSize, missing, k);
        k := k + 1;
      }
    }

    /** Moves the record a handle names to the head of the list. */
    method MoveToHead(handle: nat)
      requires Valid() && exists i :: 0 <= i < |recent| && recent[i].handle == handle
      modifies this
      ensures Valid() && recent == ToFront(old(recent), Position(old(recent), handle))
      ensures fileMap == old(fileMap) && nextRecord == old(nextRecord) && lastReadHit == old(lastReadHit)
    {
      var k := Position(recent, handle);
      LinkedAfterToFront(fileMap, recent, nextRecord, k);
      recent := ToFront(recent, k);
    }

    /** Makes the block's record the most recent one, after those of the blocks from `first` up to it. */
    method Touch(f: string, block: nat, ghost start: seq<UseRecord>, ghost first: nat)
      requires Valid() && HasEntry(fileMap, f, block) && first <= block
      requires OneRecordPerBlock(start) && ReadFirst(start, recent, f, first, block)
      modifies this
      ensures Valid() && fileMap == old(fileMap) && lastReadHit == old(lastReadHit)
      ensures |recent| == |old(recent)| && ReadFirst(start, recent, f, first, block + 1)
    {
      EntryHasRecord(fileMap, recent, nextRecord, f, block);
      LinkedMeansDistinct(fileMap, recent, nextRecord);
      ReadFirstNext(start, recent, Position(recent, fileMap[f].entries[block].useRecord), f, first, block);
      MoveToHead(fileMap[f].entries[block].useRecord);
    }

    /** Makes the records of the blocks [first, end) the most recent, the last block's first. */
    method TouchBlocks(f: string, first: nat, end: nat)
      requires Valid() && f in fileMap && first <= end
      requires forall b :: first <= b < end ==> b in fileMap[f].entries
      modifies this
      ensures Valid() && fileMap == old(fileMap) && |recent| == |old(recent)| && lastReadHit == old(lastReadHit)
      ensures ReadFirst(old(recent), recent, f, first, end)
    {
      var b := first;
      LinkedMeansDistinct(fileMap, recent, nextRecord);
      ReadFirstNone(recent, f, first);
      while b < end
        invariant first <= b <= end
        invariant Valid() && fileMap == old(fileMap) && |recent| == |old(recent)| && lastReadHit == old(lastReadHit)
        invariant ReadFirst(old(recent), recent, f, first, b)
      {
        assert b in old(fileMap)[f].entries;
        Touch(f, b, old(recent), first);
        b := b + 1;
      }
    }

    /** What a read does to the recency list that was `start`: the blocks read come first. A read of nothing leaves it,
        and one that fails has at most added records of blocks it has fetched. */
    ghost predicate ReadOrder(start: seq<UseRecord>, f: string, offset: nat, size: nat, err: int, readSize: nat)
      requires blockSize > 0
      reads this
    {
      if err == 0 && readSize > 0 then
        ReadFirst(start, recent, f, BlockNum(offset, blockSize), EndBlock(offset + readSize, blockSize))
      else Extended(start, recent, f, BlockNum(offset, blockSize), EndBlock(offset + size, blockSize))
           && (err == 0 ==> recent == start)
    }

    /** Copies out a range that lies in full blocks before end of file. */
    method ReadFull(f: string, offset: nat, buf: array<Byte>, size: nat, clipped: nat)
      requires Valid() && f in fileMap && size <= buf.Length && 0 < size && offset < fileMap[f].attr.size
      requires clipped == Min(size, fileMap[f].attr.size - offset)
      requires forall b ::
                 BlockNum(offset, blockSize) <= b < EndBlock(offset + clipped, blockSize) ==>
                   IsFullBlock(fileMap[f], blockSize, b)
      modifies this, buf
      ensures Valid() && fileMap == old(fileMap) && |recent| == |old(recent)| && lastReadHit == old(lastReadHit)
      ensures ReadFirst(old(recent), recent, f, BlockNum(offset, blockSize), EndBlock(offset + clipped, blockSize))
      ensures forall k :: clipped <= k < buf.Length ==> buf[k] == old(buf[k])
      ensures f in server.files ==>
                buf[..clipped] == PRead(Contents(fileMap[f], server.files[f].content, blockSize), offset, size)
    {
      ghost var content := if f in server.files then server.files[f].content else [];
      var data := GatherRead(fileMap[f], blockSize, offset, size, clipped, content);
      AllFullAreCached(fileMap[f], blockSize, BlockNum(offset, blockSize), EndBlock(offset + clipped, blockSize));
      TouchBlocks(f, BlockNum(offset, blockSize), EndBlock(offset + clipped, blockSize));
      CopyInto(data, buf);
    }

    /** The part of Cache::read that follows the attribute lookup. */
    method ReadCached(f: string, offset: nat, buf: array<Byte>, size: nat) returns (err: int, readSize: nat)
      requires Valid() && f in fileMap && size <= buf.Length
      modifies this, server, buf
      ensures server.Refused(err)
      ensures Valid() && old(server.clock) <= server.clock && server.log == old(server.log)
      ensures Evolved(old(server.files), old(server.clock), server.files, {})
      ensures FetchedFile(old(fileMap), fileMap, server.files, blockSize, f)
      ensures readSize <= size && forall k :: readSize <= k < buf.Length ==> buf[k] == old(buf[k])
      ensures err != 0 ==> readSize == 0
      ensures err == 0 && f in server.files ==>
                buf[..readSize] == PRead(Contents(fileMap[f], server.files[f].content, blockSize), offset, size)
      ensures ReadOrder(old(recent), f, offset, size, err, readSize)
      ensures |recent| <= |old(recent)| + SpannedBlocks(offset, size, blockSize)
      ensures server.alone ==> server.files == old(server.files)
      ensures server.alone && server.reliable && f in server.files ==> err == 0
    {
      err, readSize := 0, 0;
      if offset >= fileMap[f].attr.size || size == 0 {
        return;
      }
      var clipped := if offset + size > fileMap[f].attr.size then fileMap[f].attr.size - offset else size;
      BlockNumMonotone(offset, offset + clipped - 1, blockSize);
      BlockNumMonotone(offset + clipped - 1, offset + size - 1, blockSize);
      err := CacheBlocks(f, BlockNum(offset, blockSize), EndBlock(offset + clipped, blockSize));
      if err != 0 {
        return;
      }
      ghost var before := recent;
      ReadFull(f, offset, buf, size, clipped);
      readSize := clipped;
      ReadFirstAfterExtended(old(recent), before, recent, f, BlockNum(offset, blockSize),
                             EndBlock(offset + clipped, blockSize));
    }

    /** Reads through the cache up to end of file, fetching what is missing. */
    method Read(f: string, offset: nat, buf: array<Byte>, size: nat) returns (err: int, readSize: nat)
      requires Valid() && size <= buf.Length
      modifies this, server, buf
      ensures server.Refused(err)
      ensures Valid()
      ensures old(Trusted()) ==> Trusted()
      ensures readSize <= size && forall k :: readSize <= k < buf.Length ==> buf[k] == old(buf[k])
      ensures err == 0 && f in server.files ==> buf[..readSize] == PRead(View(f), offset, size)
      ensures ReadOrder(old(recent), f, offset, size, err, readSize)
      ensures |recent| <= |old(recent)| + SpannedBlocks(offset, size, blockSize)
      ensures server.log == old(server.log)
      ensures server.alone ==> server.files == old(server.files)
      ensures server.alone && old(f in server.files && (f in fileMap ==> Current(f))) ==> View(f) == old(View(f))
      ensures server.alone ==> forall g <- server.files :: g != f ==> View(g) == old(View(g))
      ensures err != 0 ==> readSize == 0
      ensures f !in fileMap ==> recent == old(recent)
      ensures old(Trusted()) ==> Did(old(fileMap), old(server.files), f, Keep)
      ensures old(fileMap).Keys <= fileMap.Keys && OwnSizes(old(fileMap), fileMap, f, Keep)
      ensures err == 0 ==> f in fileMap
      ensures old(Quiet()) ==>
                && (err == 0 <==> f in server.files) && Quiet() && Views() == old(Views())
                && (old(Sized()) ==> Sized()) && Unstored() <= old(Unstored())
    {
      readSize := 0;
      err := LookUp(f);
      if err != 0 {
        return;
      }
      ghost var cached, files := fileMap, server.files;
      err, readSize := ReadListed(f, offset, buf, size);
      OwnSizesCompose(old(fileMap), cached, fileMap, f, Keep, Keep);
      if old(Trusted()) {
        OwnComposes(old(fileMap), old(server.files), cached, files, fileMap, server.files, blockSize, f, Keep, Keep);
      }
    }

    /** The part of Cache::read that follows the attribute lookup, and what it means for readers. */
    method ReadListed(f: string, offset: nat, buf: array<Byte>, size: nat) returns (err: int, readSize: nat)
      requires Valid() && f in fileMap && size <= buf.Length
      modifies this, server, buf
      ensures server.Refused(err)
      ensures Valid() && server.log == old(server.log)
      ensures old(Trusted()) ==> Trusted() && Did(old(fileMap), old(server.files), f, Keep)
      ensures fileMap.Keys == old(fileMap).Keys && OwnSizes(old(fileMap), fileMap, f, Keep)
      ensures readSize <= size && forall k :: readSize <= k < buf.Length ==> buf[k] == old(buf[k])
      ensures err != 0 ==> readSize == 0
      ensures err == 0 && f in server.files ==> buf[..readSize] == PRead(View(f), offset, size)
      ensures ReadOrder(old(recent), f, offset, size, err, readSize)
      ensures |recent| <= |old(recent)| + SpannedBlocks(offset, size, blockSize)
      ensures server.alone ==>
                && server.files == old(server.files) && (old(Current(f)) ==> View(f) == old(View(f)))
                && forall g <- server.files :: g != f ==> View(g) == old(View(g))
      ensures old(Quiet()) ==>
                && (err == 0 <==> f in server.files) && Quiet() && Views() == old(Views())
                && (old(Sized()) ==> Sized()) && Unstored() <= old(Unstored())
    {
      err, readSize := ReadCached(f, offset, buf, size);
      FetchIsOwn(old(fileMap), old(server.files), old(server.clock), f);
    }

    /** Others' steps, then the fetches of a read. */
    lemma FetchIsOwn(cached: FileMap, files: Files, clock: nat, f: string)
      requires Valid() && BothOk(cached, fileMap, blockSize)
      requires FilesOk(cached, blockSize, clock) && Evolved(files, clock, server.files, {})
      requires FetchedFile(cached, fileMap, server.files, blockSize, f)
      ensures IsTrusted(cached, files, blockSize) ==>
                Trusted() && OwnStep(cached, files, fileMap, server.files, blockSize, f, Keep)
      ensures fileMap.Keys == cached.Keys && OwnSizes(cached, fileMap, f, Keep)
      ensures Unstored() == UnknownSizes(cached, server.files)
      ensures IsQuiet(cached, server.files, blockSize) ==>
                && IsQuiet(fileMap, server.files, blockSize)
                && Views() == ViewsOf(cached, server.files, blockSize)
                && (IsSized(cached, server.files, blockSize) ==> Sized())
      ensures IsCurrent(cached, server.files, f) ==> View(f) == ViewOf(cached, server.files, blockSize, f)
      ensures forall g <- server.files :: g != f ==> View(g) == ViewOf(cached, server.files, blockSize, g)
    {
      FetchedFileViews(cached, fileMap, server.files, blockSize, f);
      if IsQuiet(cached, server.files, blockSize) {
        FetchedFileQuietly(cached, fileMap, server.files, blockSize, f);
      }
      if IsTrusted(cached, files, blockSize) {
        OthersOwn(cached, files, clock, cached, server.files, blockSize, f);
        TrustedAfterOthers(cached, blockSize, files, clock, server.files);
        FetchedIsOwn(cached, fileMap, server.files, blockSize, f);
        OwnComposes(cached, files, cached, server.files, fileMap, server.files, blockSize, f, Keep, Keep);
      }
    }

    method SetTime(f: string, time: nat, stale: bool)
      requires f in fileMap && blockSize > 0 && server.Valid() && time <= server.clock
      requires Linked(fileMap, recent, nextRecord) && FilesOk(fileMap, blockSize, server.clock)
      modifies this
      ensures Valid()
      ensures var fc := old(fileMap)[f];
              fileMap == old(fileMap)[f := fc.(stale := stale, attr := fc.attr.(time := time))]
      ensures recent == old(recent) && nextRecord == old(nextRecord) && lastReadHit == old(lastReadHit)
    {
      fileMap := fileMap[f := fileMap[f].(stale := stale, attr := fileMap[f].attr.(time := time))];
      LinkedIfSameShape(old(fileMap), fileMap, recent, nextRecord);
    }

    /** Where a flush of `f` that began in `start` stands once it has sent the runs `sent`. */
    ghost predicate InFlush(start: FlushStart, f: string, sent: seq<Range>)
      reads this, server
    {
      && Valid() && start.clock <= server.clock
      && recent == start.recent && nextRecord == start.nextRecord && lastReadHit == start.lastReadHit
      && MidFlush(start.cached, start.files, fileMap, server.files, blockSize, f, sent)
      && Evolved(start.files, start.clock, server.files, {f})
      && server.log == start.log + WriteBacks(start.cached[f], blockSize, f, sent)
      && (server.alone ==> OthersKept(start.files, server.files, f))
      && (server.alone && server.reliable && IsCurrent(start.cached, start.files, f) ==> Current(f))
    }

    /** Writes one run of the file back. */
    method SendRun(f: string, run: Range, data: seq<Byte>, ghost start: FlushStart,
                   ghost sent: seq<Range>) returns (err: int)
      requires InFlush(start, f, sent) && run.start < run.end
      requires data == RunBytes(start.cached[f], blockSize, run)
      modifies this, server
      ensures server.Refused(err)
      ensures InFlush(start, f, sent + [run])
      ensures err != 0 ==> fileMap[f].stale
      ensures server.alone && server.reliable && IsCurrent(start.cached, start.files, f) ==> err == 0
    {
      var time, stale;
      err, time, stale := server.WriteContent(f, run.start, data, fileMap[f].attr.time, fileMap[f].stale);
      SetTime(f, time, stale);
      if Current(f) {
        SentSnoc(start.cached[f], blockSize, start.files[f].content, old(server.files)[f].content, sent, run);
      }
      WriteBacksSnoc(start.cached[f], blockSize, f, sent, run);
    }

    /** One range of one dirty block: it extends the pending run, or the pending run is
        sent and a new one begun. */
    method FlushRange(f: string, block: nat, rg: Range, pending: seq<Range>, data: seq<Byte>,
                      ghost start: FlushStart, ghost sent: seq<Range>)
      returns (err: int, pending': seq<Range>, data': seq<Byte>, ghost sent': seq<Range>)
      requires InFlush(start, f, sent) && block in fileMap[f].entries
      requires rg.start < rg.end <= blockSize
      requires PendingRun(start.cached[f], blockSize, pending, data) && (pending == [] ==> sent == [])
      modifies this, server
      ensures server.Refused(err)
      ensures InFlush(start, f, sent')
      ensures err != 0 ==> fileMap[f].stale
      ensures err == 0 ==>
                && pending' != [] && PendingRun(start.cached[f], blockSize, pending', data')
                && sent' + pending' == AddRun(sent + pending, Shifted(rg, BlockStart(block, blockSize)))
      ensures server.alone && server.reliable && IsCurrent(start.cached, start.files, f) ==> err == 0
    {
      var absStart, absEnd := rg.start + BlockStart(block, blockSize), rg.end + BlockStart(block, blockSize);
      var bytes := BlockBytes(f, block, rg, absStart, start.cached[f]);
      if |pending| == 1 && pending[0].end != absStart {
        sent' := sent + [pending[0]];
        RunBegins(sent, pending, absStart, absEnd);
        pending', data' := Insert([], absStart, absEnd), bytes;
        err := SendRun(f, pending[0], data, start, sent);
      } else {
        err := 0;
        pending', data', sent' := Insert(pending, absStart, absEnd), data + bytes, sent;
        RunGrows(start.cached[f], blockSize, sent, pending, data, absStart, absEnd);
      }
    }

    /** The bytes of a range of a block, as the range of file positions they stand for. */
    method BlockBytes(f: string, block: nat, rg: Range, absStart: nat, ghost fc: FileCache) returns (bytes: seq<Byte>)
      requires Valid() && HasEntry(fileMap, f, block) && rg.start < rg.end <= blockSize
      requires absStart == BlockStart(block, blockSize) + rg.start
      requires fc.entries == fileMap[f].entries
      ensures bytes == RunBytes(fc, blockSize, Range(absStart, absStart + (rg.end - rg.start)))
    {
      assert fileMap[f].entries[block].Ok(blockSize);
      bytes := fileMap[f].entries[block].data[rg.start..rg.end];
      ChunkIsStored(fc, blockSize, block, rg.start, rg.end - rg.start, absStart);
    }

    /** The pending run and the runs sent are, together, the runs of the bytes taken in so far. */
    ghost predicate FlushLoop(start: FlushStart, f: string, blocks: seq<nat>, k: nat, j: nat,
                              sent: seq<Range>, pending: seq<Range>, data: seq<Byte>)
      requires blockSize > 0 && f in start.cached && k <= |blocks|
      requires k < |blocks| ==> blocks[k] in start.cached[f].entries && j <= |start.cached[f].entries[blocks[k]].valid|
    {
      && PendingRun(start.cached[f], blockSize, pending, data)
      && (pending == [] ==> sent == [])
      && RunsSoFar(start.cached[f], blockSize, blocks, k, j, sent + pending)
    }

    /** The `j`-th range of the `k`-th dirty block. */
    method FlushNextRange(f: string, blocks: seq<nat>, k: nat, j: nat, pending: seq<Range>, data: seq<Byte>,
                          ghost start: FlushStart, ghost sent: seq<Range>)
      returns (err: int, pending': seq<Range>, data': seq<Byte>, ghost sent': seq<Range>)
      requires InFlush(start, f, sent) && k < |blocks| && blocks[k] in start.cached[f].entries
      requires j < |start.cached[f].entries[blocks[k]].valid|
      requires FlushLoop(start, f, blocks, k, j, sent, pending, data)
      modifies this, server
      ensures server.Refused(err)
      ensures InFlush(start, f, sent')
      ensures err != 0 ==> fileMap[f].stale
      ensures err == 0 ==> FlushLoop(start, f, blocks, k, j + 1, sent', pending', data')
      ensures server.alone && server.reliable && IsCurrent(start.cached, start.files, f) ==> err == 0
    {
      ghost var fc := start.cached[f];
      assert EntriesOk(fc, blockSize) && fc.entries[blocks[k]].Ok(blockSize);
      RunsNextRange(fc, blockSize, blocks, k, j, sent + pending);
      err, pending', data', sent' := FlushRange(f, blocks[k], fileMap[f].entries[blocks[k]].valid[j], pending, data,
                                                start, sent);
    }

    /** All ranges of one dirty block. */
    method FlushOneBlock(f: string, blocks: seq<nat>, k: nat, pending: seq<Range>, data: seq<Byte>,
                         ghost start: FlushStart, ghost sent: seq<Range>)
      returns (err: int, pending': seq<Range>, data': seq<Byte>, ghost sent': seq<Range>)
      requires InFlush(start, f, sent) && k < |blocks| && blocks[k] in start.cached[f].entries
      requires FlushLoop(start, f, blocks, k, 0, sent, pending, data)
      modifies this, server
      ensures server.Refused(err)
      ensures InFlush(start, f, sent')
      ensures err != 0 ==> fileMap[f].stale
      ensures err == 0 ==>
                FlushLoop(start, f, blocks, k, |start.cached[f].entries[blocks[k]].valid|, sent', pending', data')
      ensures server.alone && server.reliable && IsCurrent(start.cached, start.files, f) ==> err == 0
    {
      err, pending', data', sent' := 0, pending, data, sent;
      var count := |fileMap[f].entries[blocks[k]].valid|;
      var j := 0;
      while j < count
        invariant 0 <= j <= count && err == 0 && server.refusals == old(server.refusals)
        invariant InFlush(start, f, sent')
        invariant FlushLoop(start, f, blocks, k, j, sent', pending', data')
      {
        err, pending', data', sent' := FlushNextRange(f, blocks, k, j, pending', data', start, sent');
        if err != 0 {
          return;
        }
        j := j + 1;
      }
    }

    /** Sends the run that is still pending after the last block. */
    method SendLast(f: string, blocks: seq<nat>, pending: seq<Range>, data: seq<Byte>, ghost start: FlushStart,
                    ghost sent: seq<Range>)
      returns (err: int, ghost sent': seq<Range>)
      requires InFlush(start, f, sent) && DirtyBlocks(start.cached[f], blocks)
      requires FlushLoop(start, f, blocks, |blocks|, 0, sent, pending, data)
      modifies this, server
      ensures server.Refused(err)
      ensures InFlush(start, f, sent')
      ensures err != 0 ==> fileMap[f].stale
      ensures err == 0 ==> MaximalRuns(start.cached[f], blockSize, sent')
      ensures server.alone && server.reliable && IsCurrent(start.cached, start.files, f) ==> err == 0
    {
      RunsAtEnd(start.cached[f], blockSize, blocks, sent + pending);
      PendingJoins(sent, pending);
      if |pending| == 1 {
        sent' := sent + [pending[0]];
        err := SendRun(f, pending[0], data, start, sent);
      } else {
        err, sent' := 0, sent;
      }
    }

    /** The `k`-th dirty block. */
    method FlushNextBlock(f: string, blocks: seq<nat>, k: nat, pending: seq<Range>, data: seq<Byte>,
                          ghost start: FlushStart, ghost sent: seq<Range>)
      returns (err: int, pending': seq<Range>, data': seq<Byte>, ghost sent': seq<Range>)
      requires InFlush(start, f, sent) && k < |blocks| && DirtyBlocks(start.cached[f], blocks)
      requires blocks[k] in start.cached[f].entries
      requires FlushLoop(start, f, blocks, k, 0, sent, pending, data)
      modifies this, server
      ensures server.Refused(err)
      ensures InFlush(start, f, sent')
      ensures err != 0 ==> fileMap[f].stale
      ensures k + 1 < |blocks| ==> blocks[k + 1] in start.cached[f].entries
      ensures err == 0 ==> FlushLoop(start, f, blocks, k + 1, 0, sent', pending', data')
      ensures server.alone && server.reliable && IsCurrent(start.cached, start.files, f) ==> err == 0
    {
      assert k + 1 < |blocks| ==> blocks[k + 1] in blocks;
      err, pending', data', sent' := FlushOneBlock(f, blocks, k, pending, data, start, sent);
      if err == 0 {
        RunsNextBlock(start.cached[f], blockSize, blocks, k, sent' + pending');
      }
    }

    /** The loop over the dirty blocks; the last run is left pending. */
    method SendBlocks(f: string, blocks: seq<nat>, ghost start: FlushStart)
      returns (err: int, pending: seq<Range>, data: seq<Byte>, ghost sent: seq<Range>)
      requires InFlush(start, f, []) && DirtyBlocks(start.cached[f], blocks)
      modifies this, server
      ensures server.Refused(err)
      ensures InFlush(start, f, sent)
      ensures err != 0 ==> fileMap[f].stale
      ensures err == 0 ==> FlushLoop(start, f, blocks, |blocks|, 0, sent, pending, data)
      ensures server.alone && server.reliable && IsCurrent(start.cached, start.files, f) ==> err == 0
    {
      err, pending, data, sent := 0, [], [], [];
      RunsAtStart(start.cached[f], blockSize, blocks);
      PendingJoins([], []);
      var k := 0;
      while k < |blocks|
        invariant 0 <= k <= |blocks| && err == 0 && server.refusals == old(server.refusals)
        invariant k < |blocks| ==> blocks[k] in start.cached[f].entries
        invariant InFlush(start, f, sent)
        invariant FlushLoop(start, f, blocks, k, 0, sent, pending, data)
      {
        err, pending, data, sent := FlushNextBlock(f, blocks, k, pending, data, start, sent);
        if err != 0 {
          return;
        }
        k := k + 1;
      }
    }

    /** Writes back the dirty bytes of the file in maximal contiguous runs. */
    method SendRuns(f: string, blocks: seq<nat>, ghost start: FlushStart) returns (err: int, ghost sent: seq<Range>)
      requires InFlush(start, f, []) && DirtyBlocks(start.cached[f], blocks)
      modifies this, server
      ensures server.Refused(err)
      ensures InFlush(start, f, sent)
      ensures err != 0 ==> fileMap[f].stale
      ensures err == 0 ==> MaximalRuns(start.cached[f], blockSize, sent)
      ensures server.alone && server.reliable && IsCurrent(start.cached, start.files, f) ==> err == 0
    {
      var pending, data;
      err, pending, data, sent := SendBlocks(f, blocks, start);
      if err == 0 {
        err, sent := SendLast(f, blocks, pending, data, start, sent);
      }
    }

    /** Marks the listed blocks clean. */
    method CleanBlocks(f: string, blocks: seq<nat>)
      requires Valid() && f in fileMap && DirtyBlocks(fileMap[f], blocks)
      modifies this
      ensures Valid() && fileMap == old(fileMap)[f := Cleaned(old(fileMap)[f])]
      ensures recent == old(recent) && nextRecord == old(nextRecord) && lastReadHit == old(lastReadHit)
    {
      var fc := CleanEach(fileMap[f], blocks);
      fileMap := fileMap[f := fc];
      LinkedIfSameShape(old(fileMap), fileMap, recent, nextRecord);
    }

    /** Sends the file's size; a foreign change or a failure marks it stale. */
    method SendSize(f: string) returns (err: int)
      requires Valid() && f in fileMap
      modifies this, server
      ensures server.Refused(err)
      ensures Valid() && old(server.clock) <= server.clock && f in fileMap
      ensures recent == old(recent) && nextRecord == old(nextRecord) && lastReadHit == old(lastReadHit)
      ensures fileMap == old(fileMap)[f := fileMap[f]]
      ensures fileMap[f] == old(fileMap)[f].(stale := fileMap[f].stale,
                                             attr := old(fileMap)[f].attr.(time := fileMap[f].attr.time))
      ensures Evolved(old(server.files), old(server.clock), server.files, {f})
      ensures server.log == old(server.log) + [SizeWritten(f, fileMap[f].attr.size)]
      ensures err != 0 ==> fileMap[f].stale
      ensures Current(f) ==>
                && old(Current(f))
                && server.files[f].content == Resize(old(server.files)[f].content, fileMap[f].attr.size)
      ensures server.alone ==> OthersKept(old(server.files), server.files, f)
      ensures server.alone && server.reliable && old(Current(f)) ==> err == 0 && Current(f)
    {
      var attr, stale;
      err, attr, stale := server.WriteAttr(f, fileMap[f].attr, fileMap[f].stale);
      SetTime(f, attr.time, stale);
    }

    /** Writes the file's dirty blocks back, marks them clean, and sends the size. */
    method FlushBlocks(f: string, blocks: seq<nat>) returns (err: int, ghost runs: seq<Range>)
      requires Valid() && f in fileMap && DirtyBlocks(fileMap[f], blocks)
      modifies this, server
      ensures server.Refused(err)
      ensures Valid() && old(server.clock) <= server.clock
      ensures recent == old(recent) && nextRecord == old(nextRecord) && lastReadHit == old(lastReadHit)
      ensures Evolved(old(server.files), old(server.clock), server.files, {f})
      ensures FlushedFile(old(fileMap), old(server.files), fileMap, server.files, blockSize, f)
      ensures err == 0 ==>
                && fileMap[f].entries == Cleaned(old(fileMap)[f]).entries
                && MaximalRuns(old(fileMap)[f], blockSize, runs)
                && server.log == old(server.log) + WriteBacks(old(fileMap)[f], blockSize, f, runs)
                                 + [SizeWritten(f, fileMap[f].attr.size)]
      ensures err != 0 ==> fileMap[f].stale
      ensures server.alone ==> OthersKept(old(server.files), server.files, f)
      ensures server.alone && server.reliable && old(Current(f)) ==> err == 0 && Current(f)
    {
      ghost var start := FlushStart(fileMap, server.files, server.clock, server.log, recent, nextRecord, lastReadHit);
      assert InFlush(start, f, []);
      err, runs := SendRuns(f, blocks, start);
      if err != 0 {
        return;
      }
      ghost var files1 := server.files;
      CleanBlocks(f, blocks);
      err := SendSize(f);
      FlushEnds(start.cached, start.files, fileMap, files1, server.files, blockSize, f, runs);
    }

    /** Deletes a cached block together with its record, the `k`-th of the list. */
    method DeleteEntry(f: string, block: nat) returns (ghost k: nat)
      requires Valid() && HasEntry(fileMap, f, block)
      modifies this
      ensures Valid() && fileMap == DropEntry(old(fileMap), f, block)
      ensures k < |old(recent)| && old(recent)[k] == UseRecord(old(fileMap)[f].entries[block].useRecord, f, block)
      ensures recent == RemoveAt(old(recent), k)
      ensures nextRecord == old(nextRecord) && lastReadHit == old(lastReadHit)
    {
      EntryHasRecord(fileMap, recent, nextRecord, f, block);
      var position := Position(recent, fileMap[f].entries[block].useRecord);
      k := position;
      LinkedAfterDelete(fileMap, recent, nextRecord, f, block, position);
      recent := RemoveAt(recent, position);
      fileMap := DropEntry(fileMap, f, block);
    }

    /** Writes back one file's dirty blocks, as part of a larger flush that began in state (`cached`, `files`). */
    method FlushListed(f: string, unsorted: seq<nat>, ghost cached: FileMap, ghost files: Files,
                       ghost clock: nat) returns (err: int)
      requires Valid() && f in fileMap && Distinct(unsorted) && clock <= server.clock
      requires forall b :: b in unsorted <==> b in fileMap[f].entries && fileMap[f].entries[b].dirty
      requires BothOk(cached, fileMap, blockSize) && KeepsViews(cached, files, fileMap, server.files, blockSize)
      requires f in cached && fileMap[f] == cached[f]
      modifies this, server
      ensures server.Refused(err)
      ensures Valid() && clock <= server.clock
      ensures recent == old(recent) && nextRecord == old(nextRecord) && lastReadHit == old(lastReadHit)
      ensures f in fileMap && fileMap == old(fileMap)[f := fileMap[f]]
      ensures BothOk(cached, fileMap, blockSize) && KeepsViews(cached, files, fileMap, server.files, blockSize)
      ensures err == 0 ==> AllClean(fileMap[f]) && Stored(cached, files, fileMap, server.files, blockSize, f)
      ensures err != 0 ==> fileMap[f].stale
      ensures forall g <- fileMap :: g != f && Current(g) ==> old(Current(g)) && server.files[g] == old(server.files)[g]
      ensures server.alone ==> OthersKept(old(server.files), server.files, f)
      ensures server.alone && server.reliable && old(Current(f)) ==> err == 0 && Current(f)
    {
      var blocks := Sort(unsorted);
      assert KeepsView(cached, files, fileMap, server.files, blockSize, f);
      ghost var runs;
      err, runs := FlushBlocks(f, blocks);
      FlushKeepsViews(old(fileMap), old(server.files), old(server.clock), fileMap, server.files, blockSize, f);
      KeepsViewsComposes(cached, files, old(fileMap), old(server.files), fileMap, server.files, blockSize);
    }

    /** Progress of a flush of all files that began in state (`cached`, `files`): the files of `todo` are as they
        were, the others are clean, and those of `listed` are stored on the server. */
    ghost predicate Flushed(cached: FileMap, files: Files, listed: set<string>, todo: set<string>)
      reads this, server
    {
      && Valid() && BothOk(cached, fileMap, blockSize)
      && KeepsViews(cached, files, fileMap, server.files, blockSize)
      && listed <= cached.Keys && todo <= listed
      && (forall g <- todo :: fileMap[g] == cached[g])
      && (forall g <- fileMap :: g !in todo ==> AllClean(fileMap[g]))
      && (forall g <- listed :: g !in todo ==> Stored(cached, files, fileMap, server.files, blockSize, g))
      && (server.alone ==>
            server.files.Keys == files.Keys && forall g <- server.files :: g !in listed ==> server.files[g] == files[g])
      && (server.alone && server.reliable && AllCurrent(cached, files) ==> AllCurrent(fileMap, server.files))
    }

    /** One round of the loop below. */
    method FlushNext(f: string, unsorted: seq<nat>, ghost cached: FileMap, ghost files: Files,
                     ghost listed: set<string>, ghost todo: set<string>)
      returns (err: int)
      requires Flushed(cached, files, listed, todo) && f in todo && Distinct(unsorted)
      requires forall b :: b in unsorted <==> b in cached[f].entries && cached[f].entries[b].dirty
      modifies this, server
      ensures server.Refused(err)
      ensures Valid() && old(server.clock) <= server.clock
      ensures recent == old(recent) && nextRecord == old(nextRecord) && lastReadHit == old(lastReadHit)
      ensures BothOk(cached, fileMap, blockSize) && KeepsViews(cached, files, fileMap, server.files, blockSize)
      ensures err == 0 ==> Flushed(cached, files, listed, todo - {f})
      ensures err != 0 ==> f in fileMap && fileMap[f].stale
      ensures server.alone && server.reliable && AllCurrent(cached, files) ==> err == 0
    {
      err := FlushListed(f, unsorted, cached, files, server.clock);
      forall g | g in listed && g !in todo && err == 0
        ensures Stored(cached, files, fileMap, server.files, blockSize, g)
      {
        assert old(Stored(cached, files, fileMap, server.files, blockSize, g));
      }
    }

    /** Writes back the dirty blocks of every file. */
    method FlushDirtyBlocks() returns (err: int)
      requires Valid()
      modifies this, server
      ensures server.Refused(err)
      ensures Valid() && old(server.clock) <= server.clock
      ensures recent == old(recent) && nextRecord == old(nextRecord) && lastReadHit == old(lastReadHit)
      ensures BothOk(old(fileMap), fileMap, blockSize)
      ensures KeepsViews(old(fileMap), old(server.files), fileMap, server.files, blockSize)
      ensures old(Trusted()) ==> Trusted()
      ensures err == 0 ==>
                && (forall f <- fileMap :: AllClean(fileMap[f]))
                && (forall f <- fileMap :: !AllClean(old(fileMap)[f]) ==>
                      Stored(old(fileMap), old(server.files), fileMap, server.files, blockSize, f))
      ensures err == 0 ==> CleanedAreStored(old(fileMap), old(server.files), fileMap, server.files, blockSize)
      ensures err != 0 ==> exists f <- fileMap :: fileMap[f].stale
      ensures old(Quiet()) ==>
                && err == 0 && Quiet() && server.files.Keys == old(server.files).Keys
                && (forall f <- server.files :: View(f) == old(View(f)))
                && (forall f <- fileMap :: !AllClean(old(fileMap)[f]) ==> server.files[f].content == View(f))
                && Unstored() <= old(Unstored())
                && (old(Sized()) ==>
                      Sized() && Unstored() == {} && forall f <- server.files :: server.files[f].content == View(f))
      ensures server.alone && err == 0 ==> UncachedKept(old(fileMap), old(server.files), server.files)
    {
      var fblocks := CollectDirty(fileMap, recent, nextRecord);
      var todo := fblocks.Keys;
      err := 0;
      assert Flushed(fileMap, server.files, fblocks.Keys, todo);
      while todo != {}
        invariant err == 0 && old(server.clock) <= server.clock && server.refusals == old(server.refusals)
        invariant recent == old(recent) && nextRecord == old(nextRecord) && lastReadHit == old(lastReadHit)
        invariant Flushed(old(fileMap), old(server.files), fblocks.Keys, todo)
      {
        var f :| f in todo;
        err := FlushNext(f, fblocks[f], old(fileMap), old(server.files), fblocks.Keys, todo);
        if err != 0 {
          KeepsViewsKeepsTrust(old(fileMap), old(server.files), fileMap, server.files, blockSize);
          return;
        }
        todo := todo - {f};
      }
      KeepsViewsKeepsTrust(old(fileMap), old(server.files), fileMap, server.files, blockSize);
      if old(Quiet()) {
        KeepsViewsQuietly(old(fileMap), old(server.files), fileMap, server.files, blockSize);
        if old(Sized()) {
          CleanIsStored(fileMap, server.files, blockSize);
        }
      }
    }

    /** The dirty blocks of one file, in ascending order. */
    method DirtyBlocksOf(f: string) returns (blocks: seq<nat>)
      requires Valid() && f in fileMap
      ensures DirtyBlocks(fileMap[f], blocks)
    {
      var rest := fileMap[f].entries.Keys;
      var dblocks := [];
      while rest != {}
        invariant rest <= fileMap[f].entries.Keys && Distinct(dblocks)
        invariant forall b :: b in dblocks <==> b in fileMap[f].entries && b !in rest && fileMap[f].entries[b].dirty
      {
        var b :| b in rest;
        if fileMap[f].entries[b].dirty {
          dblocks := dblocks + [b];
        }
        rest := rest - {b};
      }
      blocks := Sort(dblocks);
    }

    /** Writes one file's dirty blocks back; the outcome of the write-back is dropped. */
    method Flush(f: string) returns (err: int)
      requires Valid()
      modifies this, server
      ensures Valid() && err == 0
      ensures server.Refused(0) || (server.Refused(EIO) && f in fileMap && fileMap[f].stale)
      ensures recent == old(recent) && lastReadHit == old(lastReadHit)
      ensures BothOk(old(fileMap), fileMap, blockSize)
      ensures f !in old(fileMap) || AllClean(old(fileMap)[f]) ==>
                fileMap == old(fileMap) && server.files == old(server.files) && server.log == old(server.log)
      ensures f in old(fileMap) ==> KeepsViews(old(fileMap), old(server.files), fileMap, server.files, blockSize)
      ensures old(Trusted()) ==> Trusted()
      ensures f in old(fileMap) && !AllClean(old(fileMap)[f]) ==>
                Stored(old(fileMap), old(server.files), fileMap, server.files, blockSize, f)
      ensures Current(f) ==> AllClean(fileMap[f])
      ensures old(Quiet()) ==>
                && Quiet() && server.files.Keys == old(server.files).Keys
                && (forall g <- server.files :: View(g) == old(View(g)))
                && (f in fileMap ==> AllClean(fileMap[f]))
                && (f in fileMap && !AllClean(old(fileMap)[f]) ==> server.files[f].content == View(f))
                && (old(Sized()) ==> Sized() && f !in Unstored() && (f in server.files ==>
                      server.files[f].content == View(f)))
                && Unstored() <= old(Unstored())
    {
      err := 0;
      if f !in fileMap {
        return;
      }
      var dblocks := DirtyBlocksOf(f);
      if |dblocks| > 0 {
        assert dblocks[0] in dblocks;
        FlushFile(f, dblocks);
        KeepsViewsKeepsTrust(old(fileMap), old(server.files), fileMap, server.files, blockSize);
        if old(Quiet()) {
          KeepsViewsQuietly(old(fileMap), old(server.files), fileMap, server.files, blockSize);
        }
      } else {
        NoDirtyBlocks(fileMap[f]);
        NothingKeepsViews(fileMap, server.files, blockSize);
      }
      if old(Quiet() && Sized()) {
        CleanFileIsStored(fileMap, server.files, blockSize, f);
      }
    }

    method FlushFile(f: string, dblocks: seq<nat>)
      requires Valid() && f in fileMap && DirtyBlocks(fileMap[f], dblocks)
      modifies this, server
      ensures Valid() && recent == old(recent) && lastReadHit == old(lastReadHit)
      ensures f in fileMap && BothOk(old(fileMap), fileMap, blockSize)
      ensures server.Refused(0) || (server.Refused(EIO) && fileMap[f].stale)
      ensures KeepsViews(old(fileMap), old(server.files), fileMap, server.files, blockSize)
      ensures Stored(old(fileMap), old(server.files), fileMap, server.files, blockSize, f)
      ensures Current(f) ==> AllClean(fileMap[f])
      ensures server.alone && server.reliable && AllCurrent(old(fileMap), old(server.files)) ==>
                AllCurrent(fileMap, server.files) && UncachedKept(old(fileMap), old(server.files), server.files)
    {
      var _, _ := FlushBlocks(f, dblocks);
      FlushKeepsViews(old(fileMap), old(server.files), old(server.clock), fileMap, server.files, blockSize, f);
    }

    /** Deletes the cached block of the last record of the list. */
    method DeleteLast(ghost cached: FileMap, ghost files: Files)
      requires Valid() && |recent| > 0 && BothOk(cached, fileMap, blockSize)
      requires KeepsViews(cached, files, fileMap, server.files, blockSize)
      requires forall f <- fileMap :: AllClean(fileMap[f])
      modifies this
      ensures Valid() && recent == old(recent)[..|old(recent)| - 1] && lastReadHit == old(lastReadHit)
      ensures BothOk(cached, fileMap, blockSize) && KeepsViews(cached, files, fileMap, server.files, blockSize)
      ensures forall f <- fileMap :: AllClean(fileMap[f])
      ensures AllCurrent(old(fileMap), server.files) ==> AllCurrent(fileMap, server.files)
    {
      var rec := recent[|recent| - 1];
      assert PointsBack(fileMap, recent[|recent| - 1]);
      DropKeepsViews(fileMap, server.files, blockSize, rec.filename, rec.block);
      ghost var k := DeleteEntry(rec.filename, rec.block);
      RecordIsUnique(old(fileMap), old(recent), nextRecord, k, |old(recent)| - 1);
      KeepsViewsComposes(cached, files, old(fileMap), server.files, fileMap, server.files, blockSize);
    }

    /** Flushes everything, then drops `count` blocks from the tail of the list. */
    method EvictBlocks(count: nat) returns (err: int)
      requires Valid()
      modifies this, server
      ensures server.Refused(err)
      ensures Valid() && lastReadHit == old(lastReadHit)
      ensures err != 0 ==> recent == old(recent)
      ensures err == 0 ==> forall f <- fileMap :: AllClean(fileMap[f])
      ensures err == 0 ==> recent == old(recent)[..|old(recent)| - Min(|old(recent)|, count)]
      ensures BothOk(old(fileMap), fileMap, blockSize)
      ensures KeepsViews(old(fileMap), old(server.files), fileMap, server.files, blockSize)
      ensures err == 0 ==> CleanedAreStored(old(fileMap), old(server.files), fileMap, server.files, blockSize)
      ensures old(Trusted()) ==> Trusted()
      ensures old(Quiet()) ==>
                && err == 0 && Quiet() && server.files.Keys == old(server.files).Keys
                && (forall g <- server.files :: View(g) == old(View(g)))
                && Unstored() <= old(Unstored())
                && (old(Sized()) ==> Sized() && Unstored() == {})
    {
      var n := Min(|recent|, count);
      err := FlushDirtyBlocks();
      if err != 0 {
        return;
      }
      DropClean(n, old(fileMap), old(server.files));
      KeepsViewsKeepsTrust(old(fileMap), old(server.files), fileMap, server.files, blockSize);
      if old(Quiet()) {
        KeepsViewsQuietly(old(fileMap), old(server.files), fileMap, server.files, blockSize);
        if old(Sized()) {
          CleanIsStored(fileMap, server.files, blockSize);
        }
      }
    }

    /** Drops `n` blocks after a flush of everything that began in state (`cached`, `files`). */
    method DropClean(n: nat, ghost cached: FileMap, ghost files: Files)
      requires Valid() && n <= |recent| && BothOk(cached, fileMap, blockSize)
      requires KeepsViews(cached, files, fileMap, server.files, blockSize)
      requires CleanedAreStored(cached, files, fileMap, server.files, blockSize)
      requires forall f <- fileMap :: AllClean(fileMap[f])
      modifies this
      ensures Valid() && recent == old(recent)[..|old(recent)| - n] && lastReadHit == old(lastReadHit)
      ensures BothOk(cached, fileMap, blockSize) && KeepsViews(cached, files, fileMap, server.files, blockSize)
      ensures CleanedAreStored(cached, files, fileMap, server.files, blockSize)
      ensures forall f <- fileMap :: AllClean(fileMap[f])
      ensures AllCurrent(old(fileMap), server.files) ==> AllCurrent(fileMap, server.files)
    {
      NothingKeepsViews(fileMap, server.files, blockSize);
      DropTail(n, fileMap, server.files);
      KeepsViewsComposes(cached, files, old(fileMap), server.files, fileMap, server.files, blockSize);
      CleanedComposes(cached, files, old(fileMap), server.files, fileMap, server.files, blockSize);
    }

    /** Drops `n` blocks from the tail of the list, as part of a step that began in state (`cached`, `files`). */
    method DropTail(n: nat, ghost cached: FileMap, ghost files: Files)
      requires Valid() && n <= |recent| && BothOk(cached, fileMap, blockSize)
      requires KeepsViews(cached, files, fileMap, server.files, blockSize)
      requires forall f <- fileMap :: AllClean(fileMap[f])
      modifies this
      ensures Valid() && recent == old(recent)[..|old(recent)| - n] && lastReadHit == old(lastReadHit)
      ensures BothOk(cached, fileMap, blockSize) && KeepsViews(cached, files, fileMap, server.files, blockSize)
      ensures forall f <- fileMap :: AllClean(fileMap[f])
      ensures AllCurrent(old(fileMap), server.files) ==> AllCurrent(fileMap, server.files)
    {
      var i := 0;
      while i < n
        invariant 0 <= i <= n
        invariant Valid() && recent == old(recent)[..|old(recent)| - i] && lastReadHit == old(lastReadHit)
        invariant BothOk(cached, fileMap, blockSize) && KeepsViews(cached, files, fileMap, server.files, blockSize)
        invariant forall f <- fileMap :: AllClean(fileMap[f])
        invariant AllCurrent(old(fileMap), server.files) ==> AllCurrent(fileMap, server.files)
      {
        DeleteLast(cached, files);
        i := i + 1;
      }
    }

    /** One round of the loop below: `b` is deleted if it is at or past `bound`. */
    method DeleteIfBeyond(f: string, b: nat, bound: nat, ghost cached: FileMap, ghost records: seq<UseRecord>,
                          ghost rest: set<nat>, ghost deleted: set<nat>)
      returns (ghost deleted': set<nat>)
      requires Swept(cached, records, f, bound, rest, deleted) && b in rest
      modifies this
      ensures Swept(cached, records, f, bound, rest - {b}, deleted') && lastReadHit == old(lastReadHit)
    {
      SweepNext(cached[f], bound, rest, deleted, b);
      deleted' := deleted;
      if b >= bound {
        DropOneMore(cached, f, deleted, b);
        ghost var k := DeleteEntry(f, b);
        WithoutOneMore(records, f, deleted, b, k);
        deleted' := deleted + {b};
      }
    }

    /** Of the blocks of `f` already visited, those from `bound` on are gone, with their records. */
    ghost predicate Swept(cached: FileMap, records: seq<UseRecord>, f: string, bound: nat, rest: set<nat>,
                          deleted: set<nat>)
      reads this, server
    {
      && Valid() && f in cached && OneRecordPerBlock(records)
      && Sweep(cached[f], bound, rest, deleted)
      && fileMap == DropBlocks(cached, f, deleted) && recent == Without(records, f, deleted)
    }

    /** Deletes the blocks of a file from `bound` on, with their records; the order of the
        other records is kept. */
    method DeleteEntryBeyond(f: string, bound: nat)
      requires Valid() && f in fileMap
      modifies this
      ensures Valid() && lastReadHit == old(lastReadHit)
      ensures fileMap == DropBlocks(old(fileMap), f, BlocksFrom(old(fileMap)[f], bound))
      ensures recent == Without(old(recent), f, BlocksFrom(old(fileMap)[f], bound))
    {
      WithoutNone(recent, f);
      LinkedMeansDistinct(fileMap, recent, nextRecord);
      DropNone(fileMap, f);
      ghost var deleted: set<nat> := {};
      var rest := fileMap[f].entries.Keys;
      while rest != {}
        invariant Swept(old(fileMap), old(recent), f, bound, rest, deleted) && lastReadHit == old(lastReadHit)
      {
        var b :| b in rest;
        deleted := DeleteIfBeyond(f, b, bound, old(fileMap), old(recent), rest, deleted);
        rest := rest - {b};
      }
      SweepEnds(old(fileMap)[f], bound, deleted);
    }

    /** Forgets everything about a file, written back or not. */
    method Invalidate(f: string)
      requires Valid()
      modifies this
      ensures Valid() && fileMap == old(fileMap) - {f} && lastReadHit == old(lastReadHit)
      ensures f in old(fileMap) ==> recent == Without(old(recent), f, BlocksFrom(old(fileMap)[f], 0))
      ensures f !in old(fileMap) ==> recent == old(recent)
      ensures old(Trusted()) ==> Trusted()
      ensures |recent| <= |old(recent)| && Filtered(old(recent), recent, f)
    {
      FilteredNone(recent, f);
      if f !in fileMap {
        return;
      }
      WithoutIsShorter(recent, f, BlocksFrom(fileMap[f], 0));
      DeleteEntryBeyond(f, 0);
      ForgetFile(old(fileMap), recent, nextRecord, f);
      fileMap := fileMap - {f};
    }

    /** The change of size itself. */
    method TruncateCached(f: string, size: nat) returns (err: int)
      requires Valid() && f in fileMap && size != fileMap[f].attr.size
      modifies this, server
      ensures Filtered(old(recent), recent, f)
      ensures server.Refused(err)
      ensures Valid() && old(server.clock) <= server.clock && lastReadHit == old(lastReadHit)
      ensures f in fileMap && fileMap == old(fileMap)[f := fileMap[f]]
      ensures fileMap[f].entries == Truncated(old(fileMap)[f], blockSize, size).entries && fileMap[f].attr.size == size
      ensures Evolved(old(server.files), old(server.clock), server.files, {f})
      ensures server.log == old(server.log) + [SizeWritten(f, size)]
      ensures err != 0 ==> fileMap[f].stale
      ensures Current(f) ==> old(Current(f)) && server.files[f].content == Resize(old(server.files)[f].content, size)
      ensures |recent| <= |old(recent)|
      ensures server.alone ==> OthersKept(old(server.files), server.files, f)
      ensures server.alone && server.reliable && old(Current(f)) ==> err == 0 && Current(f)
    {
      FilteredNone(recent, f);
      if size < fileMap[f].attr.size {
        CutIsShrunk(fileMap, f, blockSize, size);
        WithoutIsShorter(recent, f, BlocksFrom(fileMap[f], EndBlock(size, blockSize)));
        DeleteEntryBeyond(f, EndBlock(size, blockSize));
      }
      SetSize(f, size);
      err := SendSize(f);
    }

    /** Changes the file's size. What is visible is right at once; it stays right whatever
        follows exactly when the truncate is safe. */
    method Truncate(f: string, size: nat) returns (err: int)
      requires Valid()
      modifies this, server
      ensures Filtered(old(recent), recent, f)
      ensures server.Refused(err)
      ensures Valid() && lastReadHit == old(lastReadHit) && |recent| <= |old(recent)|
      ensures old(Trusted()) && (f in old(fileMap) ==> SafeTruncate(old(fileMap)[f], blockSize, size)) ==> Trusted()
      ensures old(Trusted()) ==> Did(old(fileMap), old(server.files), f, Resizing(size))
      ensures old(fileMap).Keys <= fileMap.Keys && OwnSizes(old(fileMap), fileMap, f, Resizing(size))
      ensures err == 0 ==> f in fileMap
      ensures old(Quiet()) && f in old(server.files) ==>
                && err == 0 && server.files.Keys == old(server.files).Keys
                && (Quiet() <==> (f in old(fileMap) ==> SafeTruncate(old(fileMap)[f], blockSize, size)))
                && View(f) == Resize(old(View(f)), size)
                && (forall g <- server.files :: g != f ==> View(g) == old(View(g)))
                && Unstored() <= old(Unstored()) && (old(Sized()) ==> Sized())
      ensures old(Quiet()) && f !in old(server.files) ==>
                err != 0 && fileMap == old(fileMap) && server.files == old(server.files)
    {
      FilteredNone(recent, f);
      err := LookUp(f);
      if err != 0 {
        OwnUncached(old(fileMap), old(server.files), fileMap, server.files, blockSize, f, Resizing(size));
        return;
      }
      ghost var cached, files := fileMap, server.files;
      err := TruncateListed(f, size);
      if old(Trusted()) {
        OwnComposes(old(fileMap), old(server.files), cached, files, fileMap, server.files, blockSize, f, Keep,
                    Resizing(size));
      }
    }

    /** The part of Cache::truncate that follows the attribute lookup. */
    method TruncateListed(f: string, size: nat) returns (err: int)
      requires Valid() && f in fileMap
      modifies this, server
      ensures Filtered(old(recent), recent, f)
      ensures server.Refused(err)
      ensures Valid() && lastReadHit == old(lastReadHit) && |recent| <= |old(recent)|
      ensures fileMap.Keys == old(fileMap).Keys && OwnSizes(old(fileMap), fileMap, f, Resizing(size))
      ensures old(Trusted()) && SafeTruncate(old(fileMap)[f], blockSize, size) ==> Trusted()
      ensures Did(old(fileMap), old(server.files), f, Resizing(size))
      ensures old(Quiet()) ==>
                && err == 0 && server.files.Keys == old(server.files).Keys
                && (Quiet() <==> SafeTruncate(old(fileMap)[f], blockSize, size))
                && View(f) == Resize(old(View(f)), size)
                && (forall g <- server.files :: g != f ==> View(g) == old(View(g)))
                && Unstored() <= old(Unstored()) && (old(Sized()) ==> Sized())
    {
      FilteredNone(recent, f);
      if size == fileMap[f].attr.size {
        SameSizeIsOwn(fileMap, server.files, blockSize, f);
        err := 0;
      } else {
        err := ResizeListed(f, size);
      }
    }

    method ResizeListed(f: string, size: nat) returns (err: int)
      requires Valid() && f in fileMap && size != fileMap[f].attr.size
      modifies this, server
      ensures Filtered(old(recent), recent, f)
      ensures server.Refused(err)
      ensures Valid() && lastReadHit == old(lastReadHit) && |recent| <= |old(recent)|
      ensures fileMap.Keys == old(fileMap).Keys && OwnSizes(old(fileMap), fileMap, f, Resizing(size))
      ensures old(Trusted()) && SafeTruncate(old(fileMap)[f], blockSize, size) ==> Trusted()
      ensures Did(old(fileMap), old(server.files), f, Resizing(size))
      ensures old(Quiet()) ==>
                && err == 0 && server.files.Keys == old(server.files).Keys
                && (Quiet() <==> SafeTruncate(old(fileMap)[f], blockSize, size))
                && View(f) == Resize(old(View(f)), size)
                && (forall g <- server.files :: g != f ==> View(g) == old(View(g)))
                && Unstored() <= old(Unstored()) && (old(Sized()) ==> Sized())
    {
      err := TruncateCached(f, size);
      TruncatedIsOwn(old(fileMap), old(server.files), old(server.clock), fileMap, server.files, blockSize, f, size);
      TruncatedViews(old(fileMap), old(server.files), old(server.clock), fileMap, server.files, blockSize, f, size);
      if old(Quiet()) {
        TruncatedQuietly(old(fileMap), old(server.files), fileMap, server.files, blockSize, f, size);
      }
    }
  }
}
