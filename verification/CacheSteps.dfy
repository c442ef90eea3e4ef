/** What one step of the cache does to its file map: the relations the methods of Cache are
    specified by, and what each of them means for a reader. */
module CacheSteps {
  import opened Ranges
  import opened FlatFile
  import opened CachedFile
  import opened Servers
  import opened Recency
  import opened Flushing

  ghost predicate FilesOk(cached: FileMap, blockSize: nat, clock: nat) {
    forall f <- cached :: EntriesOk(cached[f], blockSize) && cached[f].attr.time <= clock
  }

  /** The client has no reason to distrust this file: it is not marked stale and its
      time is the server's. */
  ghost predicate IsCurrent(cached: FileMap, files: Files, f: string) {
    f in cached && !cached[f].stale && f in files && files[f].time == cached[f].attr.time
  }

  /** Every file the client has no reason to distrust agrees with the server. */
  ghost predicate IsTrusted(cached: FileMap, files: Files, blockSize: nat)
    requires blockSize > 0 && forall f <- cached :: EntriesOk(cached[f], blockSize)
  {
    forall f <- cached :: IsCurrent(cached, files, f) ==> InSync(cached[f], files[f].content, blockSize)
  }

  ghost predicate AllCurrent(cached: FileMap, files: Files) {
    forall f <- cached :: IsCurrent(cached, files, f)
  }

  /** Every file without a dirty byte has the size the server knows. */
  ghost predicate IsSized(cached: FileMap, files: Files, blockSize: nat)
    requires blockSize > 0
  {
    forall f {:trigger SizedAt(cached, files, blockSize, f)} :: f in cached ==> SizedAt(cached, files, blockSize, f)
  }

  ghost predicate SizedAt(cached: FileMap, files: Files, blockSize: nat, f: string)
    requires blockSize > 0
  {
    f in cached && f in files ==> SizeSettled(cached[f], files[f].content, blockSize)
  }

  /** One file changes in a way that settles or keeps its size. */
  lemma OneSizeChanged(cached: FileMap, files: Files, cached': FileMap, files': Files, blockSize: nat, f: string)
    requires blockSize > 0 && IsSized(cached, files, blockSize)
    requires f in cached' && cached' == cached[f := cached'[f]] && SizedAt(cached', files', blockSize, f)
    requires forall g <- files' :: g != f ==> g in files && files'[g] == files[g]
    ensures IsSized(cached', files', blockSize)
  {
    forall g | g in cached' && g != f ensures SizedAt(cached', files', blockSize, g) {
      assert SizedAt(cached, files, blockSize, g);
    }
  }

  /** Every cached file is current and agrees with the server. */
  ghost predicate IsQuiet(cached: FileMap, files: Files, blockSize: nat)
    requires blockSize > 0 && forall f <- cached :: EntriesOk(cached[f], blockSize)
  {
    IsTrusted(cached, files, blockSize) && AllCurrent(cached, files)
  }

  /** Does the server know the file's size? */
  ghost predicate SizeStored(cached: FileMap, files: Files, f: string) {
    f in cached && f in files ==> |files[f].content| == cached[f].attr.size
  }

  /** The cached files whose size the server does not know. */
  ghost function UnknownSizes(cached: FileMap, files: Files): set<string> {
    set f | f in cached && !SizeStored(cached, files, f)
  }

  /** What a reader of the file sees. */
  ghost function ViewOf(cached: FileMap, files: Files, blockSize: nat, f: string): seq<Byte>
    requires blockSize > 0 && f in files && forall f <- cached :: EntriesOk(cached[f], blockSize)
  {
    if f in cached then Contents(cached[f], files[f].content, blockSize) else files[f].content
  }

  /** What readers see of all files. */
  ghost function ViewsOf(cached: FileMap, files: Files, blockSize: nat): map<string, seq<Byte>>
    requires blockSize > 0 && forall f <- cached :: EntriesOk(cached[f], blockSize)
  {
    map f | f in files :: ViewOf(cached, files, blockSize, f)
  }

  lemma SameViews(cached: FileMap, files: Files, cached': FileMap, files': Files, blockSize: nat)
    requires blockSize > 0 && (forall g <- cached :: EntriesOk(cached[g], blockSize))
    requires (forall g <- cached' :: EntriesOk(cached'[g], blockSize))
    requires files'.Keys == files.Keys
    requires forall g <- files' :: ViewOf(cached', files', blockSize, g) == ViewOf(cached, files, blockSize, g)
    ensures ViewsOf(cached', files', blockSize) == ViewsOf(cached, files, blockSize)
  {
  }

  lemma OneViewChanged(cached: FileMap, files: Files, cached': FileMap, files': Files, blockSize: nat, f: string)
    requires blockSize > 0 && (forall g <- cached :: EntriesOk(cached[g], blockSize))
    requires (forall g <- cached' :: EntriesOk(cached'[g], blockSize))
    requires f in files && files'.Keys == files.Keys
    requires forall g <- files' ::
               g != f ==> ViewOf(cached', files', blockSize, g) == ViewOf(cached, files, blockSize, g)
    ensures ViewsOf(cached', files', blockSize) == ViewsOf(cached, files,
                                                           blockSize)[f := ViewOf(cached', files', blockSize, f)]
  {
  }

  lemma TrustedAfterOthers(cached: FileMap, blockSize: nat, files: Files, clock: nat, files': Files)
    requires blockSize > 0 && FilesOk(cached, blockSize, clock)
    requires Evolved(files, clock, files', {})
    ensures forall f <- cached :: IsCurrent(cached, files', f) ==> IsCurrent(cached, files, f) && files'[f] == files[f]
    ensures IsTrusted(cached, files, blockSize) ==> IsTrusted(cached, files', blockSize)
  {
  }

  function PutEntry(cached: FileMap, f: string, block: nat, e: CacheEntry): FileMap
    requires f in cached
  {
    cached[f := cached[f].(entries := cached[f].entries[block := e])]
  }

  lemma PutTwice(cached: FileMap, f: string, block: nat, e: CacheEntry, e': CacheEntry)
    requires f in cached
    ensures PutEntry(PutEntry(cached, f, block, e), f, block, e') == PutEntry(cached, f, block, e')
  {
    assert cached[f].entries[block := e][block := e'] == cached[f].entries[block := e'];
  }

  /** Changing one file, but neither its time nor its mark, leaves the others' standing alone. */
  lemma OneFileChanged(cached: FileMap, cached': FileMap, files: Files, blockSize: nat, f: string)
    requires blockSize > 0 && f in cached && f in cached' && cached' == cached[f := cached'[f]]
    requires cached'[f].stale == cached[f].stale && cached'[f].attr.time == cached[f].attr.time
    requires forall g <- cached :: EntriesOk(cached[g], blockSize)
    requires EntriesOk(cached'[f], blockSize)
    ensures forall g <- cached' :: IsCurrent(cached', files, g) <==> IsCurrent(cached, files, g)
    ensures (IsCurrent(cached, files, f) ==> InSync(cached'[f], files[f].content, blockSize)) ==>
              (IsTrusted(cached, files, blockSize) ==> IsTrusted(cached', files, blockSize))
  {
  }

  function AttrOf(file: ServerFile): FileAttr {
    FileAttr(|file.content|, file.mode, file.time)
  }

  /** The file map after Cache::cacheFileAttr: the same, or with one more file that has no blocks. */
  ghost predicate AttrCached(cached: FileMap, cached': FileMap, files: Files, f: string) {
    && f in cached'
    && if f in cached then cached' == cached
       else f in files && cached' == cached[f := FileCache(false, AttrOf(files[f]), map[])]
  }

  lemma AttrCachedKeepsTrust(cached: FileMap, cached': FileMap, files: Files, blockSize: nat, f: string)
    requires blockSize > 0 && (forall g <- cached :: EntriesOk(cached[g], blockSize))
    requires AttrCached(cached, cached', files, f)
    ensures forall g <- cached' :: EntriesOk(cached'[g], blockSize)
    ensures IsTrusted(cached, files, blockSize) ==> IsTrusted(cached', files, blockSize)
    ensures IsQuiet(cached, files, blockSize) ==> IsQuiet(cached', files, blockSize)
    ensures IsSized(cached, files, blockSize) ==> IsSized(cached', files, blockSize)
  {
    if f !in cached {
      NothingValid(cached'[f], blockSize);
      if IsSized(cached, files, blockSize) {
        OneSizeChanged(cached, files, cached', files, blockSize, f);
      }
    }
  }

  /** Caching a file's attributes does not change what a reader sees. */
  lemma AttrCachedKeepsViews(cached: FileMap, cached': FileMap, files: Files, blockSize: nat, f: string)
    requires blockSize > 0 && (forall g <- cached :: EntriesOk(cached[g], blockSize))
    requires AttrCached(cached, cached', files, f)
    ensures forall g <- cached' :: EntriesOk(cached'[g], blockSize)
    ensures forall g <- files :: ViewOf(cached', files, blockSize, g) == ViewOf(cached, files, blockSize, g)
    ensures ViewsOf(cached', files, blockSize) == ViewsOf(cached, files, blockSize)
  {
    if f !in cached {
      NothingValid(cached'[f], blockSize);
      assert Contents(cached'[f], files[f].content, blockSize) == files[f].content;
    }
  }

  /** The file map after a write to one cached file. */
  ghost predicate WroteFile(cached: FileMap, cached': FileMap, blockSize: nat, f: string, offset: nat, buf: seq<Byte>)
    requires blockSize > 0 && forall g <- cached :: EntriesOk(cached[g], blockSize)
  {
    && f in cached && f in cached' && cached' == cached[f := cached'[f]]
    && EntriesOk(cached'[f], blockSize)
    && cached'[f].stale == cached[f].stale
    && cached'[f].attr == cached[f].attr.(size := Max(cached[f].attr.size, offset + |buf|))
    && Wrote(cached[f], cached'[f], blockSize, offset, buf)
  }

  lemma WroteFileViews(cached: FileMap, cached': FileMap, files: Files, blockSize: nat, f: string, offset: nat,
                       buf: seq<Byte>)
    requires blockSize > 0 && forall g <- cached :: EntriesOk(cached[g], blockSize)
    requires WroteFile(cached, cached', blockSize, f, offset, buf)
    ensures forall g <- cached' :: EntriesOk(cached'[g], blockSize)
    ensures IsTrusted(cached, files, blockSize) ==> IsTrusted(cached', files, blockSize)
    ensures IsQuiet(cached, files, blockSize) ==>
              && IsQuiet(cached', files, blockSize)
              && ViewOf(cached', files, blockSize, f) == Overwrite(ViewOf(cached, files, blockSize, f), offset, buf)
    ensures IsSized(cached, files, blockSize) && (buf != [] || offset <= cached[f].attr.size) ==>
              IsSized(cached', files, blockSize)
    ensures forall g <- files :: g != f ==> ViewOf(cached', files, blockSize, g) == ViewOf(cached, files, blockSize, g)
  {
    if IsCurrent(cached, files, f) && InSync(cached[f], files[f].content, blockSize) {
      WriteRefinesOverwrite(cached[f], cached'[f], files[f].content, blockSize, offset, buf);
    }
    if IsSized(cached, files, blockSize) && (buf != [] || offset <= cached[f].attr.size) {
      assert SizedAt(cached, files, blockSize, f);
      if f in files {
        WriteSettles(cached[f], cached'[f], files[f].content, blockSize, offset, buf);
      }
      OneSizeChanged(cached, files, cached', files, blockSize, f);
    }
    OneFileChanged(cached, cached', files, blockSize, f);
  }

  /** The file map after some blocks of one file have been filled from the server. */
  ghost predicate FetchedFile(cached: FileMap, cached': FileMap, files: Files, blockSize: nat, f: string)
    requires blockSize > 0 && forall g <- cached :: EntriesOk(cached[g], blockSize)
  {
    && f in cached && f in cached' && cached' == cached[f := cached'[f]]
    && EntriesOk(cached'[f], blockSize)
    && cached'[f].stale == cached[f].stale && cached'[f].attr == cached[f].attr
    && (forall b :: IsFullBlock(cached[f], blockSize, b) ==> IsFullBlock(cached'[f], blockSize, b))
    && (IsCurrent(cached, files, f) ==> Fetched(cached[f], cached'[f], files[f].content, blockSize))
  }

  lemma FetchedFileViews(cached: FileMap, cached': FileMap, files: Files, blockSize: nat, f: string)
    requires blockSize > 0 && forall g <- cached :: EntriesOk(cached[g], blockSize)
    requires FetchedFile(cached, cached', files, blockSize, f)
    ensures forall g <- cached' :: EntriesOk(cached'[g], blockSize)
    ensures IsTrusted(cached, files, blockSize) ==> IsTrusted(cached', files, blockSize)
    ensures IsQuiet(cached, files, blockSize) ==> IsQuiet(cached', files, blockSize)
    ensures IsQuiet(cached, files, blockSize) && IsSized(cached, files, blockSize) ==>
              IsSized(cached', files, blockSize)
    ensures forall g <- cached' :: IsCurrent(cached', files, g) <==> IsCurrent(cached, files, g)
    ensures IsCurrent(cached, files, f) ==> ViewOf(cached', files, blockSize, f) == ViewOf(cached, files, blockSize, f)
    ensures forall g <- files :: g != f ==> ViewOf(cached', files, blockSize, g) == ViewOf(cached, files, blockSize, g)
  {
    if IsCurrent(cached, files, f) {
      FetchKeepsContents(cached[f], cached'[f], files[f].content, blockSize);
      if IsSized(cached, files, blockSize) {
        assert SizedAt(cached, files, blockSize, f);
        OneSizeChanged(cached, files, cached', files, blockSize, f);
      }
    }
    OneFileChanged(cached, cached', files, blockSize, f);
  }

  lemma FetchedFileQuietly(cached: FileMap, cached': FileMap, files: Files, blockSize: nat, f: string)
    requires blockSize > 0 && forall g <- cached :: EntriesOk(cached[g], blockSize)
    requires FetchedFile(cached, cached', files, blockSize, f) && IsCurrent(cached, files, f)
    ensures forall g <- cached' :: EntriesOk(cached'[g], blockSize)
    ensures ViewsOf(cached', files, blockSize) == ViewsOf(cached, files, blockSize)
  {
    FetchedFileViews(cached, cached', files, blockSize, f);
    SameViews(cached, files, cached', files, blockSize);
  }

  lemma FetchedFileComposes(cached: FileMap, cached1: FileMap, cached2: FileMap, files: Files, blockSize: nat,
                            f: string)
    requires blockSize > 0 && (forall g <- cached :: EntriesOk(cached[g], blockSize))
    requires (forall g <- cached1 :: EntriesOk(cached1[g], blockSize))
    requires FetchedFile(cached, cached1, files, blockSize, f) && FetchedFile(cached1, cached2, files, blockSize, f)
    ensures FetchedFile(cached, cached2, files, blockSize, f)
  {
    if IsCurrent(cached, files, f) {
      FetchedComposes(cached[f], cached1[f], cached2[f], files[f].content, blockSize);
    }
  }

  lemma FetchedFileAfterOthers(cached: FileMap, cached': FileMap, files: Files, clock: nat, files': Files,
                               blockSize: nat, f: string)
    requires blockSize > 0 && FilesOk(cached, blockSize, clock)
    requires FetchedFile(cached, cached', files, blockSize, f) && Evolved(files, clock, files', {})
    ensures FetchedFile(cached, cached', files', blockSize, f)
  {
    TrustedAfterOthers(cached, blockSize, files, clock, files');
  }

  /** The piece of a padded answer that cacheBlocks copies out for one block is that block of the server's file. */
  lemma AnswerHoldsBlock(content: seq<Byte>, blockSize: nat, first: nat, count: nat, block: nat)
    requires blockSize > 0 && first <= block < first + count
    ensures BlockStart(block - first, blockSize) + blockSize <= BlockStart(count, blockSize)
    ensures Resize(PRead(content, BlockStart(first, blockSize), BlockStart(count, blockSize)),
                   BlockStart(count, blockSize))
              [BlockStart(block - first, blockSize)..BlockStart(block - first, blockSize) + blockSize] ==
            ServerBlock(content, blockSize, block)
  {
    BlockStartSuccessor(block - first, blockSize);
    BlockStartMonotone(block - first + 1, count, blockSize);
    BlockStartSum(first, block - first, blockSize);
    var count', at := BlockStart(count, blockSize), BlockStart(block - first, blockSize);
    var answer := Resize(PRead(content, BlockStart(first, blockSize), count'), count');
    forall o | 0 <= o < blockSize
      ensures answer[at..at + blockSize][o] == ServerBlock(content, blockSize, block)[o]
    {
      assert answer[at..at + blockSize][o] == answer[at + o];
      PReadAt(content, BlockStart(first, blockSize), count', at + o);
    }
  }

  lemma BlockStartSum(a: nat, b: nat, blockSize: nat)
    ensures BlockStart(a + b, blockSize) == BlockStart(a, blockSize) + BlockStart(b, blockSize)
  {
    BlockStartIsProduct(a + b, blockSize);
    BlockStartIsProduct(a, blockSize);
    BlockStartIsProduct(b, blockSize);
  }

  /** In the middle of a flush of `f` that began in state (`cached`, `files`): only the file's time
      and mark have moved, and if the client still has no reason to distrust it, the
      server holds what it held plus the runs sent so far. */
  ghost predicate MidFlush(cached: FileMap, files: Files, cached': FileMap, files': Files, blockSize: nat, f: string,
                           sent: seq<Range>)
    requires blockSize > 0
  {
    && f in cached && f in cached' && cached' == cached[f := cached'[f]]
    && cached'[f] == cached[f].(stale := cached'[f].stale, attr := cached[f].attr.(time := cached'[f].attr.time))
    && (IsCurrent(cached', files', f) ==>
          IsCurrent(cached, files, f) && Sent(cached[f], blockSize, files[f].content, files'[f].content, sent))
  }

  /** The outcome of a flush of `f`: if the client has no reason to distrust the file, it was trusted
      before, no block of it is dirty, and the server holds exactly the contents it had. */
  ghost predicate FlushedFile(cached: FileMap, files: Files, cached': FileMap, files': Files, blockSize: nat, f: string)
    requires blockSize > 0 && (forall g <- cached :: EntriesOk(cached[g], blockSize))
    requires (forall g <- cached' :: EntriesOk(cached'[g], blockSize))
  {
    && f in cached && f in cached' && cached' == cached[f := cached'[f]]
    && cached'[f].attr.size == cached[f].attr.size
    && (IsCurrent(cached', files', f) ==>
          && IsCurrent(cached, files, f)
          && (forall b <- cached'[f].entries :: !cached'[f].entries[b].dirty)
          && (InSync(cached[f], files[f].content, blockSize) ==>
                && InSync(cached'[f], files'[f].content, blockSize)
                && files'[f].content == Contents(cached[f], files[f].content, blockSize)
                && Contents(cached'[f], files'[f].content, blockSize) == files'[f].content))
  }

  /** Cleaning the blocks and sending the size ends a flush. */
  lemma FlushEnds(cached: FileMap, files: Files, cached': FileMap, files1: Files, files': Files, blockSize: nat,
                  f: string, runs: seq<Range>)
    requires blockSize > 0 && (forall g <- cached :: EntriesOk(cached[g], blockSize))
    requires (forall g <- cached' :: EntriesOk(cached'[g], blockSize))
    requires f in cached && f in cached' && cached' == cached[f := cached'[f]]
    requires cached'[f] == Cleaned(cached[f]).(stale := cached'[f].stale,
                                               attr := cached[f].attr.(time := cached'[f].attr.time))
    requires MaximalRuns(cached[f], blockSize, runs)
    requires IsCurrent(cached', files', f) ==>
               && IsCurrent(cached, files, f) && f in files1
               && Sent(cached[f], blockSize, files[f].content, files1[f].content, runs)
               && files'[f].content == Resize(files1[f].content, cached[f].attr.size)
    ensures FlushedFile(cached, files, cached', files', blockSize, f)
  {
    if IsCurrent(cached', files', f) && InSync(cached[f], files[f].content, blockSize) {
      FlushSettles(cached[f], blockSize, files[f].content, files1[f].content, runs);
      SameBlocksSameContents(Cleaned(cached[f]), cached'[f], files'[f].content, blockSize);
    }
  }

  lemma SameBlocksSameContents(fc: FileCache, fc': FileCache, server: seq<Byte>, blockSize: nat)
    requires blockSize > 0 && EntriesOk(fc, blockSize) && fc'.entries == fc.entries && fc'.attr.size == fc.attr.size
    ensures EntriesOk(fc', blockSize)
    ensures InSync(fc, server, blockSize) <==> InSync(fc', server, blockSize)
    ensures Contents(fc, server, blockSize) == Contents(fc', server, blockSize)
  {
    assert forall i: nat :: ValidAt(fc, blockSize, i) <==> ValidAt(fc', blockSize, i);
    assert forall i: nat :: DirtyAt(fc, blockSize, i) <==> DirtyAt(fc', blockSize, i);
    assert forall i: nat :: ValidAt(fc, blockSize, i) ==> CachedAt(fc, blockSize, i) == CachedAt(fc', blockSize, i);
    assert forall i: nat :: ByteAt(fc, server, blockSize, i) == ByteAt(fc', server, blockSize, i);
  }

  /** The state in which a flush begins. */
  datatype FlushStart = FlushStart(
    cached: FileMap, files: Files, clock: nat, log: seq<Request>,
    recent: seq<UseRecord>, nextRecord: nat, lastReadHit: bool)


  lemma PendingJoins(sent: seq<Range>, pending: seq<Range>)
    ensures |pending| == 1 ==> sent + pending == sent + [pending[0]]
    ensures pending == [] ==> sent + pending == sent
  {
  }

  function CleanedOnly(fc: FileCache, blocks: seq<nat>): FileCache {
    fc.(entries := map b | b in fc.entries :: if b in blocks then fc.entries[b].Clean() else fc.entries[b])
  }

  lemma CleanedNone(fc: FileCache, blocks: seq<nat>)
    ensures fc == CleanedOnly(fc, blocks[..0])
  {
    assert fc.entries == CleanedOnly(fc, blocks[..0]).entries;
  }

  lemma CleanedNext(fc: FileCache, blocks: seq<nat>, k: nat)
    requires DirtyBlocks(fc, blocks) && k < |blocks|
    ensures blocks[k] in fc.entries
    ensures var fc' := CleanedOnly(fc, blocks[..k]);
            fc'.(entries := fc'.entries[blocks[k] := fc'.entries[blocks[k]].Clean()]) ==
            CleanedOnly(fc, blocks[..k + 1])
  {
    assert blocks[k] in blocks;
    assert blocks[..k + 1] == blocks[..k] + [blocks[k]];
    var fc' := CleanedOnly(fc, blocks[..k]);
    assert fc'.entries[blocks[k] := fc'.entries[blocks[k]].Clean()] == CleanedOnly(fc, blocks[..k + 1]).entries;
  }

  lemma CleanedAll(fc: FileCache, blocks: seq<nat>)
    requires DirtyBlocks(fc, blocks)
    ensures CleanedOnly(fc, blocks[..|blocks|]) == Cleaned(fc)
  {
    assert blocks[..|blocks|] == blocks;
    assert CleanedOnly(fc, blocks).entries == Cleaned(fc).entries;
  }

  /** The loop over the flushed blocks that marks each clean. */
  method CleanEach(file: FileCache, blocks: seq<nat>) returns (fc: FileCache)
    requires DirtyBlocks(file, blocks)
    ensures fc == Cleaned(file)
  {
    fc := file;
    CleanedNone(file, blocks);
    var k := 0;
    while k < |blocks|
      invariant 0 <= k <= |blocks|
      invariant fc == CleanedOnly(file, blocks[..k])
    {
      CleanedNext(file, blocks, k);
      fc := fc.(entries := fc.entries[blocks[k] := fc.entries[blocks[k]].Clean()]);
      k := k + 1;
    }
    CleanedAll(file, blocks);
  }

  /** At most one run is pending, and `data` is its bytes. */
  ghost predicate PendingRun(fc: FileCache, blockSize: nat, pending: seq<Range>, data: seq<Byte>)
    requires blockSize > 0
  {
    && |pending| <= 1
    && (pending == [] ==> data == [])
    && (pending != [] ==> pending[0].start < pending[0].end && data == RunBytes(fc, blockSize, pending[0]))
  }

  /** A range is added to a pending run it continues, or becomes the pending run if there is none. */
  lemma RunGrows(fc: FileCache, blockSize: nat, sent: seq<Range>, pending: seq<Range>, data: seq<Byte>, absStart: nat,
                 absEnd: nat)
    requires blockSize > 0 && absStart < absEnd
    requires PendingRun(fc, blockSize, pending, data) && (pending == [] ==> sent == [])
    requires pending != [] ==> pending[0].end == absStart
    ensures var pending' := Insert(pending, absStart, absEnd);
            && pending' != []
            && PendingRun(fc, blockSize, pending', data + RunBytes(fc, blockSize, Range(absStart, absEnd)))
            && sent + pending' == AddRun(sent + pending, Range(absStart, absEnd))
  {
    if pending != [] {
      assert pending == [pending[0]];
      assert Insert(pending, absStart, absEnd) == [Range(pending[0].start, absEnd)];
      RunBytesConcat(fc, blockSize, pending[0].start, absStart, absEnd);
      LastRunExtended(sent, pending[0], Range(absStart, absEnd));
    } else {
      assert [] + RunBytes(fc, blockSize, Range(absStart, absEnd)) == RunBytes(fc, blockSize, Range(absStart, absEnd));
    }
  }

  lemma RunBegins(sent: seq<Range>, pending: seq<Range>, absStart: nat, absEnd: nat)
    requires |pending| == 1 && pending[0].end != absStart
    ensures Insert([], absStart, absEnd) == [Range(absStart, absEnd)]
    ensures sent + [pending[0]] + [Range(absStart, absEnd)] == AddRun(sent + pending, Range(absStart, absEnd))
  {
    assert pending == [pending[0]];
  }

  lemma LastRunExtended(sent: seq<Range>, pending: Range, r: Range)
    requires pending.end == r.start
    ensures AddRun(sent + [pending], r) == sent + [Range(pending.start, r.end)]
  {
    assert (sent + [pending])[..|sent|] == sent;
  }

  /** Bytes stored in full blocks are the bytes a flat read returns. */
  lemma StoredIsRead(fc: FileCache, server: seq<Byte>, blockSize: nat, offset: nat, size: nat, bytes: seq<Byte>)
    requires blockSize > 0 && EntriesOk(fc, blockSize) && offset < fc.attr.size && 0 < size
    requires |bytes| == Min(size, fc.attr.size - offset)
    requires forall k :: 0 <= k < |bytes| ==> bytes[k] == StoredAt(fc, blockSize, offset + k)
    requires forall b ::
               BlockNum(offset, blockSize) <= b < EndBlock(offset + |bytes|, blockSize) ==>
                 IsFullBlock(fc, blockSize, b)
    ensures bytes == PRead(Contents(fc, server, blockSize), offset, size)
  {
    forall k | 0 <= k < |bytes|
      ensures bytes[k] == Contents(fc, server, blockSize)[offset + k]
    {
      var i := offset + k;
      BlockNumMonotone(offset, i, blockSize);
      EndBlockBounds(i, offset + |bytes|, blockSize);
      FullBlockIffAllValid(fc, blockSize, BlockNum(i, blockSize));
      assert ValidAt(fc, blockSize, i);
    }
  }

  method CopyInto(data: seq<Byte>, buf: array<Byte>)
    requires |data| <= buf.Length
    modifies buf
    ensures buf[..|data|] == data
    ensures forall k :: |data| <= k < buf.Length ==> buf[k] == old(buf[k])
  {
    forall k | 0 <= k < |data| {
      buf[k] := data[k];
    }
  }

  lemma ChunkIsStored(fc: FileCache, blockSize: nat, block: nat, bstart: nat, size: nat, position: nat)
    requires blockSize > 0 && EntriesOk(fc, blockSize) && block in fc.entries && bstart + size <= blockSize
    requires BlockStart(block, blockSize) + bstart == position
    ensures fc.entries[block].data[bstart..bstart + size] == RunBytes(fc, blockSize, Range(position, position + size))
  {
    var chunk := fc.entries[block].data[bstart..bstart + size];
    var run := RunBytes(fc, blockSize, Range(position, position + size));
    forall k | 0 <= k < size ensures chunk[k] == run[k] {
      BlockDecomposition(position + k, block, blockSize);
    }
  }

  /** The number of blocks a request for `size` bytes at `offset` reaches into. */
  function SpannedBlocks(offset: nat, size: nat, blockSize: nat): nat
    requires blockSize > 0
  {
    if size == 0 then 0
    else
      BlockNumMonotone(offset, offset + size - 1, blockSize);
      EndBlock(offset + size, blockSize) - BlockNum(offset, blockSize)
  }

  lemma BlockNumMonotone(i: nat, j: nat, blockSize: nat)
    requires blockSize > 0 && i <= j
    ensures BlockNum(i, blockSize) <= BlockNum(j, blockSize)
  {
    var a, b := BlockNum(i, blockSize), BlockNum(j, blockSize);
    BlockDecomposition(i, a, blockSize);
    BlockDecomposition(j, b, blockSize);
    if b < a {
      BlockStartMonotone(b + 1, a, blockSize);
      BlockStartSuccessor(b, blockSize);
    }
  }

  lemma EndBlockMonotone(i: nat, j: nat, blockSize: nat)
    requires blockSize > 0 && i <= j
    ensures EndBlock(i, blockSize) <= EndBlock(j, blockSize)
  {
    if i > 0 {
      BlockNumMonotone(i - 1, j - 1, blockSize);
    }
  }

  lemma SameEntriesSameBytes(fc: FileCache, fc': FileCache, blockSize: nat)
    requires blockSize > 0 && EntriesOk(fc, blockSize) && fc'.entries == fc.entries
    ensures EntriesOk(fc', blockSize) && Wrote(fc, fc', blockSize, 0, [])
    ensures forall offset: nat :: Wrote(fc, fc', blockSize, offset, [])
  {
  }

  lemma NothingValid(fc: FileCache, blockSize: nat)
    requires blockSize > 0 && fc.entries == map[]
    ensures EntriesOk(fc, blockSize) && forall i: nat :: !ValidAt(fc, blockSize, i)
  {
  }

  ghost predicate BothOk(cached: FileMap, cached': FileMap, blockSize: nat) {
    && blockSize > 0
    && (forall g <- cached :: EntriesOk(cached[g], blockSize))
    && (forall g <- cached' :: EntriesOk(cached'[g], blockSize))
  }

  /** Every file the client has no reason to distrust was trusted before, is still in sync if
      it was, and shows the same contents. */
  ghost predicate KeepsView(cached: FileMap, files: Files, cached': FileMap, files': Files, blockSize: nat, g: string)
    requires BothOk(cached, cached', blockSize)
  {
    IsCurrent(cached', files', g) ==>
      && IsCurrent(cached, files, g)
      && (InSync(cached[g], files[g].content, blockSize) ==>
            && InSync(cached'[g], files'[g].content, blockSize)
            && Contents(cached'[g], files'[g].content, blockSize) == Contents(cached[g], files[g].content, blockSize)
            && HoldsEither(files'[g].content, files[g].content, Contents(cached[g], files[g].content, blockSize), Keep)
            && (SizeSettled(cached[g], files[g].content, blockSize) ==>
                  SizeSettled(cached'[g], files'[g].content, blockSize))
            && (SizeStored(cached, files, g) ==> SizeStored(cached', files', g)))
  }

  ghost predicate KeepsViews(cached: FileMap, files: Files, cached': FileMap, files': Files, blockSize: nat)
    requires BothOk(cached, cached', blockSize)
  {
    && cached'.Keys == cached.Keys
    && (forall g <- cached' :: cached'[g].attr.size == cached[g].attr.size)
    && forall g <- cached' :: KeepsView(cached, files, cached', files', blockSize, g)
  }

  lemma KeepsViewsKeepsTrust(cached: FileMap, files: Files, cached': FileMap, files': Files, blockSize: nat)
    requires BothOk(cached, cached', blockSize) && KeepsViews(cached, files, cached', files', blockSize)
    ensures IsTrusted(cached, files, blockSize) ==> IsTrusted(cached', files', blockSize)
  {
    forall g | g in cached' && IsCurrent(cached', files', g) && IsTrusted(cached, files, blockSize)
      ensures InSync(cached'[g], files'[g].content, blockSize)
    {
      assert KeepsView(cached, files, cached', files', blockSize, g);
    }
  }

  lemma KeepsViewComposes(cached: FileMap, files: Files, cached1: FileMap, files1: Files, cached2: FileMap,
                          files2: Files, blockSize: nat, g: string)
    requires BothOk(cached, cached1, blockSize) && BothOk(cached1, cached2, blockSize)
    requires KeepsView(cached, files, cached1, files1, blockSize, g)
    requires KeepsView(cached1, files1, cached2, files2, blockSize, g)
    ensures KeepsView(cached, files, cached2, files2, blockSize, g)
  {
  }

  lemma KeepsViewsComposes(cached: FileMap, files: Files, cached1: FileMap, files1: Files, cached2: FileMap,
                           files2: Files, blockSize: nat)
    requires BothOk(cached, cached1, blockSize) && BothOk(cached1, cached2, blockSize)
    requires KeepsViews(cached, files, cached1, files1, blockSize)
    requires KeepsViews(cached1, files1, cached2, files2, blockSize)
    ensures KeepsViews(cached, files, cached2, files2, blockSize)
  {
    forall g | g in cached2 ensures KeepsView(cached, files, cached2, files2, blockSize, g) {
      KeepsViewComposes(cached, files, cached1, files1, cached2, files2, blockSize, g);
    }
  }

  lemma FlushKeepsViews(cached: FileMap, files: Files, clock: nat, cached': FileMap, files': Files, blockSize: nat,
                        f: string)
    requires BothOk(cached, cached', blockSize) && FilesOk(cached, blockSize, clock)
    requires FlushedFile(cached, files, cached', files', blockSize, f) && Evolved(files, clock, files', {f})
    ensures KeepsViews(cached, files, cached', files', blockSize)
    ensures Stored(cached, files, cached', files', blockSize, f)
    ensures forall g <- cached' :: g != f && IsCurrent(cached', files', g) ==> files'[g] == files[g]
  {
    forall g | g in cached' ensures KeepsView(cached, files, cached', files', blockSize, g) {
    }
  }

  lemma DropKeepsViews(cached: FileMap, files: Files, blockSize: nat, f: string, block: nat)
    requires blockSize > 0 && forall g <- cached :: EntriesOk(cached[g], blockSize)
    requires HasEntry(cached, f, block) && !cached[f].entries[block].dirty
    ensures BothOk(cached, DropEntry(cached, f, block), blockSize)
    ensures KeepsViews(cached, files, DropEntry(cached, f, block), files, blockSize)
  {
    var cached' := DropEntry(cached, f, block);
    assert BothOk(cached, cached', blockSize);
    forall g | g in cached' ensures KeepsView(cached, files, cached', files, blockSize, g) {
      if g == f && IsCurrent(cached', files, f) && InSync(cached[f], files[f].content, blockSize) {
        DropCleanBlock(cached[f], files[f].content, blockSize, block);
      }
    }
  }

  function DropEntry(cached: FileMap, f: string, block: nat): FileMap
    requires f in cached
  {
    cached[f := cached[f].(entries := cached[f].entries - {block})]
  }

  predicate AllClean(fc: FileCache) {
    forall b <- fc.entries :: !fc.entries[b].dirty
  }

  /** The server holds exactly what the file's reader saw in state (`cached`, `files`), unless
      the client has reason to distrust the file. */
  ghost predicate Stored(cached: FileMap, files: Files, cached': FileMap, files': Files, blockSize: nat, g: string)
    requires BothOk(cached, cached', blockSize)
  {
    g in cached && IsCurrent(cached', files', g) ==>
      && IsCurrent(cached, files, g)
      && (InSync(cached[g], files[g].content, blockSize) ==>
            files'[g].content == Contents(cached[g], files[g].content, blockSize))
  }

  /** A file that had dirty blocks has none only because it was stored. */
  ghost predicate CleanedAreStored(cached: FileMap, files: Files, cached': FileMap, files': Files, blockSize: nat)
    requires BothOk(cached, cached', blockSize)
  {
    forall g <- cached' :: g in cached && !AllClean(cached[g]) && AllClean(cached'[g]) ==>
      Stored(cached, files, cached', files', blockSize, g)
  }

  lemma StoredThenKept(cached: FileMap, files: Files, cached1: FileMap, files1: Files, cached2: FileMap, files2: Files,
                       blockSize: nat, g: string)
    requires BothOk(cached, cached1, blockSize) && BothOk(cached1, cached2, blockSize) && g in cached && g in cached1
    requires KeepsView(cached, files, cached1, files1, blockSize, g)
    requires KeepsView(cached1, files1, cached2, files2, blockSize, g)
    requires Stored(cached, files, cached1, files1, blockSize, g) ||
             Stored(cached1, files1, cached2, files2, blockSize, g)
    ensures Stored(cached, files, cached2, files2, blockSize, g)
  {
  }

  lemma CleanedComposes(cached: FileMap, files: Files, cached1: FileMap, files1: Files, cached2: FileMap, files2: Files,
                        blockSize: nat)
    requires BothOk(cached, cached1, blockSize) && BothOk(cached1, cached2, blockSize)
    requires KeepsViews(cached, files, cached1, files1, blockSize)
    requires KeepsViews(cached1, files1, cached2, files2, blockSize)
    requires CleanedAreStored(cached, files, cached1, files1, blockSize)
    requires CleanedAreStored(cached1, files1, cached2, files2, blockSize)
    ensures CleanedAreStored(cached, files, cached2, files2, blockSize)
  {
    forall g | g in cached2 && !AllClean(cached[g]) && AllClean(cached2[g])
      ensures Stored(cached, files, cached2, files2, blockSize, g)
    {
      assert KeepsView(cached, files, cached1, files1, blockSize, g);
      assert KeepsView(cached1, files1, cached2, files2, blockSize, g);
      StoredThenKept(cached, files, cached1, files1, cached2, files2, blockSize, g);
    }
  }

  /** In a trusted state, a file that was cleaned and is current is on the server as readers see it. */
  lemma CleanedShows(cached: FileMap, files: Files, cached': FileMap, files': Files, blockSize: nat, g: string)
    requires BothOk(cached, cached', blockSize) && IsTrusted(cached, files, blockSize)
    requires KeepsViews(cached, files, cached', files', blockSize)
    requires CleanedAreStored(cached, files, cached', files', blockSize)
    requires g in cached && !NoDirtyByte(cached[g], blockSize) && AllClean(cached'[g]) && IsCurrent(cached', files', g)
    ensures files'[g].content == Contents(cached'[g], files'[g].content, blockSize)
  {
    DirtyByteDirtyBlock(cached[g], blockSize);
    assert KeepsView(cached, files, cached', files', blockSize, g);
    assert Stored(cached, files, cached', files', blockSize, g);
  }

  lemma DirtyByteDirtyBlock(fc: FileCache, blockSize: nat)
    requires blockSize > 0 && !NoDirtyByte(fc, blockSize)
    ensures !AllClean(fc)
  {
    var i: nat :| DirtyAt(fc, blockSize, i);
    assert fc.entries[BlockNum(i, blockSize)].dirty;
  }

  /** What had a dirty byte still has, and what a write of `buf` to `f` has dirtied has, too. */
  ghost predicate StillDirty(cached: FileMap, cached': FileMap, blockSize: nat, f: string, buf: seq<Byte>)
    requires blockSize > 0
  {
    forall g <- cached' ::
      (g == f && buf != []) || (g in cached && !NoDirtyByte(cached[g], blockSize)) ==>
        !NoDirtyByte(cached'[g], blockSize)
  }

  lemma WroteStillDirty(cached: FileMap, cached': FileMap, blockSize: nat, f: string, offset: nat, buf: seq<Byte>)
    requires blockSize > 0 && forall g <- cached :: EntriesOk(cached[g], blockSize)
    requires WroteFile(cached, cached', blockSize, f, offset, buf)
    ensures StillDirty(cached, cached', blockSize, f, buf)
  {
    if buf != [] {
      assert DirtyAt(cached'[f], blockSize, offset);
    }
    if !NoDirtyByte(cached[f], blockSize) {
      var i: nat :| DirtyAt(cached[f], blockSize, i);
      assert DirtyAt(cached'[f], blockSize, i);
    }
  }

  /** No file appeared or went, and those the cache does not hold are untouched. */
  ghost predicate UncachedKept(cached: FileMap, files: Files, files': Files) {
    files'.Keys == files.Keys && forall g <- files' :: g !in cached ==> files'[g] == files[g]
  }

  /** In a quiet run, keeping views means every reader sees the same as before. */
  lemma KeepsViewsQuietly(cached: FileMap, files: Files, cached': FileMap, files': Files, blockSize: nat)
    requires BothOk(cached, cached', blockSize) && KeepsViews(cached, files, cached', files', blockSize)
    requires IsQuiet(cached, files, blockSize) && AllCurrent(cached', files')
    requires UncachedKept(cached, files, files')
    ensures IsQuiet(cached', files', blockSize)
    ensures IsSized(cached, files, blockSize) ==> IsSized(cached', files', blockSize)
    ensures forall g <- files' :: ViewOf(cached', files', blockSize, g) == ViewOf(cached, files, blockSize, g)
    ensures UnknownSizes(cached', files') <= UnknownSizes(cached, files)
  {
    KeepsViewsKeepsTrust(cached, files, cached', files', blockSize);
    forall g | g in UnknownSizes(cached', files') ensures g in UnknownSizes(cached, files) {
      assert KeepsView(cached, files, cached', files', blockSize, g);
    }
    forall g | g in cached' && IsSized(cached, files, blockSize) ensures SizedAt(cached', files', blockSize, g) {
      assert KeepsView(cached, files, cached', files', blockSize, g) && SizedAt(cached, files, blockSize, g);
    }
    forall g | g in files' ensures ViewOf(cached', files', blockSize, g) == ViewOf(cached, files, blockSize, g) {
      if g in cached {
        assert KeepsView(cached, files, cached', files', blockSize, g);
      }
    }
  }

  /** In a quiet run a file without a dirty block is on the server as readers see it. */
  lemma CleanFileIsStored(cached: FileMap, files: Files, blockSize: nat, f: string)
    requires blockSize > 0 && (forall g <- cached :: EntriesOk(cached[g], blockSize))
    requires IsQuiet(cached, files, blockSize) && IsSized(cached, files, blockSize)
    requires f in files && (f in cached ==> AllClean(cached[f]))
    ensures files[f].content == ViewOf(cached, files, blockSize, f) && f !in UnknownSizes(cached, files)
  {
    if f in cached {
      assert SizedAt(cached, files, blockSize, f) && IsCurrent(cached, files, f);
      CleanShowsServer(cached[f], files[f].content, blockSize);
    }
  }

  lemma CleanIsStored(cached: FileMap, files: Files, blockSize: nat)
    requires blockSize > 0 && (forall g <- cached :: EntriesOk(cached[g], blockSize))
    requires IsQuiet(cached, files, blockSize) && IsSized(cached, files, blockSize)
    requires forall g <- cached :: AllClean(cached[g])
    ensures forall f <- files :: files[f].content == ViewOf(cached, files, blockSize, f)
    ensures UnknownSizes(cached, files) == {}
  {
    forall f | f in files
      ensures files[f].content == ViewOf(cached, files, blockSize, f) && f !in UnknownSizes(cached, files)
    {
      CleanFileIsStored(cached, files, blockSize, f);
    }
  }

  lemma NoDirtyBlocks(fc: FileCache)
    ensures DirtyBlocks(fc, []) ==> AllClean(fc)
  {
    if DirtyBlocks(fc, []) {
      forall b | b in fc.entries ensures !fc.entries[b].dirty {
        var none: seq<nat> := [];
        assert b !in none;
      }
    }
  }

  lemma NothingKeepsViews(cached: FileMap, files: Files, blockSize: nat)
    requires blockSize > 0 && forall g <- cached :: EntriesOk(cached[g], blockSize)
    ensures BothOk(cached, cached, blockSize) && KeepsViews(cached, files, cached, files, blockSize)
  {
  }

  /** The blocks of a file from `bound` on. */
  function BlocksFrom(fc: FileCache, bound: nat): set<nat> {
    set b | b in fc.entries && b >= bound
  }

  function DropBlocks(cached: FileMap, f: string, blocks: set<nat>): FileMap
    requires f in cached
  {
    cached[f := cached[f].(entries := cached[f].entries - blocks)]
  }

  lemma DropNone(cached: FileMap, f: string)
    requires f in cached
    ensures DropBlocks(cached, f, {}) == cached
  {
    assert cached[f].entries - {} == cached[f].entries;
  }

  lemma DropOneMore(cached: FileMap, f: string, blocks: set<nat>, b: nat)
    requires f in cached
    ensures DropEntry(DropBlocks(cached, f, blocks), f, b) == DropBlocks(cached, f, blocks + {b})
  {
    assert cached[f].entries - blocks - {b} == cached[f].entries - (blocks + {b});
  }

  /** Of the blocks already visited, those from `bound` on are deleted. */
  ghost predicate Sweep(fc: FileCache, bound: nat, rest: set<nat>, deleted: set<nat>) {
    && rest <= fc.entries.Keys
    && forall b :: b in deleted <==> b in fc.entries && b >= bound && b !in rest
  }

  lemma SweepNext(fc: FileCache, bound: nat, rest: set<nat>, deleted: set<nat>, b: nat)
    requires Sweep(fc, bound, rest, deleted) && b in rest
    ensures b in fc.entries && b !in deleted
    ensures Sweep(fc, bound, rest - {b}, if b >= bound then deleted + {b} else deleted)
  {
  }

  lemma SweepEnds(fc: FileCache, bound: nat, deleted: set<nat>)
    requires Sweep(fc, bound, {}, deleted)
    ensures deleted == BlocksFrom(fc, bound)
  {
    var none: set<nat> := {};
    assert forall b :: b !in none;
  }

  /** A file without blocks can be dropped from the map. */
  lemma ForgetFile(cached: FileMap, recent: seq<UseRecord>, next: nat, f: string)
    requires f in cached && Linked(DropBlocks(cached, f, BlocksFrom(cached[f], 0)), recent, next)
    ensures Linked(cached - {f}, recent, next)
    ensures DropBlocks(cached, f, BlocksFrom(cached[f], 0)) - {f} == cached - {f}
  {
    var emptied := DropBlocks(cached, f, BlocksFrom(cached[f], 0));
    assert forall b :: b !in emptied[f].entries;
    LinkedIfSameShape(emptied, cached - {f}, recent, next);
  }

  /** Cutting the blocks past the new end is what Shrunk describes. */
  lemma CutIsShrunk(cached: FileMap, f: string, blockSize: nat, size: nat)
    requires blockSize > 0 && f in cached
    ensures Grown(cached[f].(entries := cached[f].entries - BlocksFrom(cached[f], EndBlock(size, blockSize))), size) ==
            Shrunk(cached[f], blockSize, size)
  {
    var cut := BlocksFrom(cached[f], EndBlock(size, blockSize));
    assert cached[f].entries - cut == Shrunk(cached[f], blockSize, size).entries;
  }

  /** Will every later read of the file be right after Cache::truncate to this size? */
  predicate SafeTruncate(fc: FileCache, blockSize: nat, size: nat)
    requires blockSize > 0
  {
    size >= fc.attr.size || SafeShrink(fc, blockSize, size)
  }

  /** The file Cache::truncate leaves, apart from the time and mark the server's answer brings. */
  function Truncated(fc: FileCache, blockSize: nat, size: nat): FileCache
    requires blockSize > 0
  {
    if size < fc.attr.size then Shrunk(fc, blockSize, size) else Grown(fc, size)
  }

  lemma TruncatedFile(fc: FileCache, fc': FileCache, server: seq<Byte>, blockSize: nat, size: nat)
    requires blockSize > 0 && EntriesOk(fc, blockSize) && InSync(fc, server, blockSize)
    requires fc'.entries == Truncated(fc, blockSize, size).entries && fc'.attr.size == size
    ensures EntriesOk(fc', blockSize)
    ensures Contents(fc', Resize(server, size), blockSize) == Resize(Contents(fc, server, blockSize), size)
    ensures InSync(fc', Resize(server, size), blockSize) <==> SafeTruncate(fc, blockSize, size)
  {
    if size < fc.attr.size {
      ShrinkShowsPrefix(fc, server, blockSize, size);
      ShrinkInSyncIffSafe(fc, server, blockSize, size);
    } else {
      GrowExtends(fc, server, blockSize, size);
    }
    SameBlocksSameContents(Truncated(fc, blockSize, size), fc', Resize(server, size), blockSize);
  }

  /** The state after a truncate of a cached file whose size did change. */
  lemma TruncatedViews(cached: FileMap, files: Files, clock: nat, cached': FileMap, files': Files, blockSize: nat,
                       f: string, size: nat)
    requires BothOk(cached, cached', blockSize) && FilesOk(cached, blockSize, clock)
    requires f in cached && f in cached' && cached' == cached[f := cached'[f]]
    requires cached'[f].entries == Truncated(cached[f], blockSize, size).entries && cached'[f].attr.size == size
    requires IsCurrent(cached', files', f) ==>
               IsCurrent(cached, files, f) && files'[f].content == Resize(files[f].content, size)
    requires Evolved(files, clock, files', {f})
    ensures IsTrusted(cached, files, blockSize) && SafeTruncate(cached[f], blockSize, size) ==>
              IsTrusted(cached', files', blockSize)
  {
    if IsTrusted(cached, files, blockSize) && IsCurrent(cached', files', f) {
      TruncatedFile(cached[f], cached'[f], files[f].content, blockSize, size);
    }
  }

  ghost predicate OthersKept(files: Files, files': Files, f: string) {
    files'.Keys == files.Keys && forall g <- files' :: g != f ==> files'[g] == files[g]
  }

  lemma TruncatedQuietly(cached: FileMap, files: Files, cached': FileMap, files': Files, blockSize: nat, f: string,
                         size: nat)
    requires BothOk(cached, cached', blockSize) && IsQuiet(cached, files, blockSize)
    requires f in cached && f in cached' && cached' == cached[f := cached'[f]]
    requires cached'[f].entries == Truncated(cached[f], blockSize, size).entries && cached'[f].attr.size == size
    requires IsCurrent(cached', files', f) && files'[f].content == Resize(files[f].content, size)
    requires OthersKept(files, files', f)
    ensures IsQuiet(cached', files', blockSize) <==> SafeTruncate(cached[f], blockSize, size)
    ensures IsSized(cached, files, blockSize) ==> IsSized(cached', files', blockSize)
    ensures ViewOf(cached', files', blockSize, f) == Resize(ViewOf(cached, files, blockSize, f), size)
    ensures forall g <- files' ::
              g != f ==> ViewOf(cached', files', blockSize, g) == ViewOf(cached, files, blockSize, g)
    ensures UnknownSizes(cached', files') <= UnknownSizes(cached, files)
  {
    TruncatedFile(cached[f], cached'[f], files[f].content, blockSize, size);
    OthersStayQuiet(cached, files, cached', files', blockSize, f);
  }

  /** In a quiet run a change of one file that stays current leaves only that file to ask about. */
  lemma OthersStayQuiet(cached: FileMap, files: Files, cached': FileMap, files': Files, blockSize: nat, f: string)
    requires BothOk(cached, cached', blockSize) && IsQuiet(cached, files, blockSize)
    requires f in cached && f in cached' && cached' == cached[f := cached'[f]] && OthersKept(files, files', f)
    requires IsCurrent(cached', files', f) && |files'[f].content| == cached'[f].attr.size
    ensures IsQuiet(cached', files', blockSize) <==> InSync(cached'[f], files'[f].content, blockSize)
    ensures IsSized(cached, files, blockSize) ==> IsSized(cached', files', blockSize)
    ensures forall g <- files' ::
              g != f ==> ViewOf(cached', files', blockSize, g) == ViewOf(cached, files, blockSize, g)
  {
    assert forall g <- cached' :: g != f ==> IsCurrent(cached, files, g) && IsCurrent(cached', files', g);
    if IsSized(cached, files, blockSize) {
      OneSizeChanged(cached, files, cached', files', blockSize, f);
    }
  }

  /** In a quiet run a file is created, or emptied, on the server: the run stays quiet exactly when no copy of the
      file is cached. */
  lemma CreatedQuietlyIff(cached: FileMap, files: Files, clock: nat, files': Files, blockSize: nat, f: string)
    requires blockSize > 0 && FilesOk(cached, blockSize, clock) && IsQuiet(cached, files, blockSize)
    requires f in files' && files' == files[f := files'[f]] && clock < files'[f].time
    ensures IsQuiet(cached, files', blockSize) <==> f !in cached
    ensures IsSized(cached, files, blockSize) && f !in cached ==> IsSized(cached, files', blockSize)
  {
    assert f in cached ==> !IsCurrent(cached, files', f);
    forall g | g in cached && g != f && IsSized(cached, files, blockSize)
      ensures SizedAt(cached, files', blockSize, g)
    {
      assert SizedAt(cached, files, blockSize, g);
    }
  }

  /** And it shows up empty exactly when no copy of it with a size is cached. */
  lemma CreatedViewsIff(cached: FileMap, files: Files, files': Files, blockSize: nat, f: string)
    requires blockSize > 0 && forall g <- cached :: EntriesOk(cached[g], blockSize)
    requires f in files' && files' == files[f := files'[f]] && files'[f].content == []
    ensures ViewsOf(cached, files', blockSize) == ViewsOf(cached, files, blockSize)[f := []] <==>
            (f in cached ==> cached[f].attr.size == 0)
  {
    var views, views' := ViewsOf(cached, files, blockSize)[f := []], ViewsOf(cached, files', blockSize);
    assert views'.Keys == views.Keys;
    assert forall g <- views :: g != f ==> views'[g] == views[g];
    assert |views'[f]| == if f in cached then cached[f].attr.size else 0;
    assert views'[f] == [] ==> views' == views;
  }

  /** It happens: a file of four cached bytes is emptied by a create, and a reader still sees the four bytes. */
  lemma CreateShowsOldBytes()
    ensures var cached, files := map["a" := SmallFile()], map["a" := ServerFile([7, 7, 7, 7], 0, 0)];
            var files' := files["a" := ServerFile([], 0, 1)];
            && EntriesOk(SmallFile(), 4) && IsQuiet(cached, files, 4)
            && ViewOf(cached, files', 4, "a") == [7, 7, 7, 7]
  {
    SmallFileInSync();
    var cached, files' := map["a" := SmallFile()], map["a" := ServerFile([], 0, 1)];
    var view := ViewOf(cached, files', 4, "a");
    forall i: nat | i < 4 ensures view[i] == 7 {
      assert ValidAt(SmallFile(), 4, i);
      BlockDecomposition(i, 0, 4);
    }
  }

  lemma UnlinkedQuietly(cached: FileMap, files: Files, blockSize: nat, f: string)
    requires blockSize > 0 && (forall g <- cached :: EntriesOk(cached[g], blockSize))
    requires IsQuiet(cached, files, blockSize)
    ensures forall g <- cached - {f} :: EntriesOk((cached - {f})[g], blockSize)
    ensures IsQuiet(cached - {f}, files - {f}, blockSize)
    ensures IsSized(cached, files, blockSize) ==> IsSized(cached - {f}, files - {f}, blockSize)
    ensures ViewsOf(cached - {f}, files - {f}, blockSize) == ViewsOf(cached, files, blockSize) - {f}
  {
    forall g | g in cached - {f} && IsSized(cached, files, blockSize)
      ensures SizedAt(cached - {f}, files - {f}, blockSize, g)
    {
      assert SizedAt(cached, files, blockSize, g);
    }
  }

  // --------------------------------------------- one client among others

  /** What an operation of the client itself does to one file. */
  datatype Effect = Keep | Overwriting(offset: nat, data: seq<Byte>) | Resizing(size: nat)

  function Applied(e: Effect, v: seq<Byte>): seq<Byte> {
    match e
    case Keep => v
    case Overwriting(offset, data) => Overwrite(v, offset, data)
    case Resizing(size) => Resize(v, size)
  }

  function AppliedSize(e: Effect, n: nat): nat {
    match e
    case Keep => n
    case Overwriting(offset, data) => Max(n, offset + |data|)
    case Resizing(size) => size
  }

  lemma AppliedTwice(e: Effect, v: seq<Byte>)
    ensures Applied(e, Applied(e, v)) == Applied(e, v)
  {
    match e
    case Keep =>
    case Overwriting(offset, data) =>
      assert Overwrite(Overwrite(v, offset, data), offset, data) == Overwrite(v, offset, data);
    case Resizing(size) =>
      assert Resize(Resize(v, size), size) == Resize(v, size);
  }

  /** The server now holds what it held, or what the reader saw, with or without the effect. */
  predicate HoldsEither(server': seq<Byte>, server: seq<Byte>, view: seq<Byte>, e: Effect) {
    server' == server || server' == view || server' == Applied(e, server) || server' == Applied(e, view)
  }

  /** If the client has no reason to distrust its copy of `g`, it had none before, and the copy shows what it did,
      with the effect `e` applied if it is `f`. A copy that is new shows the server's file with the effect applied. */
  ghost predicate OwnView(cached: FileMap, files: Files, cached': FileMap, files': Files, blockSize: nat, f: string,
                          e: Effect, g: string)
    requires BothOk(cached, cached', blockSize)
  {
    IsCurrent(cached', files', g) ==>
      var e', view' := if g == f then e else Keep, Contents(cached'[g], files'[g].content, blockSize);
      if g in cached then
        && IsCurrent(cached, files, g)
        && (InSync(cached[g], files[g].content, blockSize) ==>
              && view' == Applied(e', Contents(cached[g], files[g].content, blockSize))
              && HoldsEither(files'[g].content, files[g].content, Contents(cached[g], files[g].content, blockSize), e'))
      else view' == Applied(e', files'[g].content)
  }

  /** The sizes the client has in its cache are moved by its own operations alone. At most `f` is new. */
  predicate OwnSizes(cached: FileMap, cached': FileMap, f: string, e: Effect) {
    forall g <- cached' ::
      var size' := cached'[g].attr.size;
      if g in cached then size' == AppliedSize(if g == f then e else Keep, cached[g].attr.size)
      else g == f && size' == AppliedSize(e, size')
  }

  /** Whatever other clients did meanwhile, this client's step had the effect `e` on `f` and none on other files. */
  ghost predicate OwnStep(cached: FileMap, files: Files, cached': FileMap, files': Files, blockSize: nat, f: string,
                          e: Effect)
    requires BothOk(cached, cached', blockSize)
  {
    forall g {:trigger OwnView(cached, files, cached', files', blockSize, f, e, g)} ::
      g in cached' ==> OwnView(cached, files, cached', files', blockSize, f, e, g)
  }

  lemma KeepsViewsIsOwn(cached: FileMap, files: Files, cached': FileMap, files': Files, blockSize: nat, f: string)
    requires BothOk(cached, cached', blockSize) && KeepsViews(cached, files, cached', files', blockSize)
    ensures OwnStep(cached, files, cached', files', blockSize, f, Keep)
  {
    forall g | g in cached' ensures OwnView(cached, files, cached', files', blockSize, f, Keep, g) {
      assert KeepsView(cached, files, cached', files', blockSize, g);
    }
  }

  /** Steps of other clients alone, with perhaps some files dropped from the cache, or added to it. */
  lemma OthersOwn(cached: FileMap, files: Files, clock: nat, cached': FileMap, files': Files, blockSize: nat, f: string)
    requires BothOk(cached, cached', blockSize) && FilesOk(cached, blockSize, clock)
    requires Evolved(files, clock, files', {})
    requires forall g <- cached' ::
               if g in cached then cached'[g] == cached[g]
               else g in files' && cached'[g] == FileCache(false, AttrOf(files'[g]), map[])
    ensures OwnStep(cached, files, cached', files', blockSize, f, Keep)
  {
    TrustedAfterOthers(cached, blockSize, files, clock, files');
    forall g | g in cached' ensures OwnView(cached, files, cached', files', blockSize, f, Keep, g) {
      assert g in cached && IsCurrent(cached', files', g) ==> IsCurrent(cached, files', g);
      if g !in cached {
        NothingValid(cached'[g], blockSize);
        assert Contents(cached'[g], files'[g].content, blockSize) == files'[g].content;
      }
    }
  }

  lemma WroteIsOwn(cached: FileMap, cached': FileMap, files: Files, blockSize: nat, f: string, offset: nat,
                   buf: seq<Byte>)
    requires BothOk(cached, cached', blockSize) && WroteFile(cached, cached', blockSize, f, offset, buf)
    ensures OwnStep(cached, files, cached', files, blockSize, f, Overwriting(offset, buf))
  {
    forall g | g in cached' ensures OwnView(cached, files, cached', files, blockSize, f, Overwriting(offset, buf), g) {
      if g == f && IsCurrent(cached', files, f) && InSync(cached[f], files[f].content, blockSize) {
        WriteRefinesOverwrite(cached[f], cached'[f], files[f].content, blockSize, offset, buf);
      }
    }
  }

  lemma FetchedIsOwn(cached: FileMap, cached': FileMap, files: Files, blockSize: nat, f: string)
    requires BothOk(cached, cached', blockSize) && FetchedFile(cached, cached', files, blockSize, f)
    ensures OwnStep(cached, files, cached', files, blockSize, f, Keep)
  {
    forall g | g in cached' ensures OwnView(cached, files, cached', files, blockSize, f, Keep, g) {
      if g == f && IsCurrent(cached', files, f) {
        FetchKeepsContents(cached[f], cached'[f], files[f].content, blockSize);
      }
    }
  }

  lemma TruncatedIsOwn(cached: FileMap, files: Files, clock: nat, cached': FileMap, files': Files, blockSize: nat,
                       f: string, size: nat)
    requires BothOk(cached, cached', blockSize) && FilesOk(cached, blockSize, clock)
    requires f in cached && f in cached' && cached' == cached[f := cached'[f]]
    requires cached'[f].entries == Truncated(cached[f], blockSize, size).entries && cached'[f].attr.size == size
    requires IsCurrent(cached', files', f) ==>
               IsCurrent(cached, files, f) && files'[f].content == Resize(files[f].content, size)
    requires Evolved(files, clock, files', {f})
    ensures OwnStep(cached, files, cached', files', blockSize, f, Resizing(size))
  {
    forall g | g in cached' ensures OwnView(cached, files, cached', files', blockSize, f, Resizing(size), g) {
      if g == f && IsCurrent(cached', files', f) && InSync(cached[f], files[f].content, blockSize) {
        TruncatedFile(cached[f], cached'[f], files[f].content, blockSize, size);
      }
    }
  }

  /** A truncate to the size the file already has is skipped; nothing would change. */
  lemma SameSizeIsOwn(cached: FileMap, files: Files, blockSize: nat, f: string)
    requires blockSize > 0 && (forall g <- cached :: EntriesOk(cached[g], blockSize)) && f in cached
    ensures f in files ==>
              Resize(ViewOf(cached, files, blockSize, f), cached[f].attr.size) == ViewOf(cached, files, blockSize, f)
    ensures OwnStep(cached, files, cached, files, blockSize, f, Resizing(cached[f].attr.size))
  {
  }

  /** No effect shows on a file that is not cached. */
  lemma OwnUncached(cached: FileMap, files: Files, cached': FileMap, files': Files, blockSize: nat, f: string,
                    e: Effect)
    requires BothOk(cached, cached', blockSize) && OwnStep(cached, files, cached', files', blockSize, f, Keep)
    requires f !in cached'
    ensures OwnStep(cached, files, cached', files', blockSize, f, e)
  {
    forall g | g in cached' ensures OwnView(cached, files, cached', files', blockSize, f, e, g) {
      assert OwnView(cached, files, cached', files', blockSize, f, Keep, g);
    }
  }

  lemma OwnViewComposes(cached: FileMap, files: Files, cached1: FileMap, files1: Files, cached2: FileMap,
                        files2: Files, blockSize: nat, f: string, e1: Effect, e2: Effect, g: string)
    requires BothOk(cached, cached1, blockSize) && BothOk(cached1, cached2, blockSize) && g in cached1 && g in cached2
    requires OwnView(cached, files, cached1, files1, blockSize, f, e1, g)
    requires OwnView(cached1, files1, cached2, files2, blockSize, f, e2, g)
    requires IsTrusted(cached1, files1, blockSize) && (e1.Keep? || e2.Keep?)
    ensures OwnView(cached, files, cached2, files2, blockSize, f, if e1.Keep? then e2 else e1, g)
  {
    if IsCurrent(cached2, files2, g) && g !in cached {
      AppliedTwice(if g != f then Keep else if e1.Keep? then e2 else e1, files1[g].content);
    }
  }

  /** Two steps, one of which has no effect of its own. */
  lemma OwnComposes(cached: FileMap, files: Files, cached1: FileMap, files1: Files, cached2: FileMap, files2: Files,
                    blockSize: nat, f: string, e1: Effect, e2: Effect)
    requires BothOk(cached, cached1, blockSize) && BothOk(cached1, cached2, blockSize) && cached2.Keys <= cached1.Keys
    requires OwnStep(cached, files, cached1, files1, blockSize, f, e1)
    requires OwnStep(cached1, files1, cached2, files2, blockSize, f, e2)
    requires IsTrusted(cached1, files1, blockSize) && (e1.Keep? || e2.Keep?)
    ensures OwnStep(cached, files, cached2, files2, blockSize, f, if e1.Keep? then e2 else e1)
  {
    var e := if e1.Keep? then e2 else e1;
    forall g | g in cached2 ensures OwnView(cached, files, cached2, files2, blockSize, f, e, g) {
      OwnViewComposes(cached, files, cached1, files1, cached2, files2, blockSize, f, e1, e2, g);
    }
  }

  lemma OwnSizesCompose(cached: FileMap, cached1: FileMap, cached2: FileMap, f: string, e1: Effect, e2: Effect)
    requires OwnSizes(cached, cached1, f, e1) && OwnSizes(cached1, cached2, f, e2) && (e1.Keep? || e2.Keep?)
    requires cached2.Keys == cached1.Keys
    ensures OwnSizes(cached, cached2, f, if e1.Keep? then e2 else e1)
  {
  }

  /** A step with an effect, then one that changes no view. */
  lemma OwnThenKept(cached: FileMap, files: Files, cached1: FileMap, files1: Files, cached2: FileMap, files2: Files,
                    blockSize: nat, f: string, e: Effect)
    requires BothOk(cached, cached1, blockSize) && BothOk(cached1, cached2, blockSize)
    requires IsTrusted(cached1, files1, blockSize)
    requires OwnStep(cached, files, cached1, files1, blockSize, f, e)
    requires KeepsViews(cached1, files1, cached2, files2, blockSize)
    ensures OwnStep(cached, files, cached2, files2, blockSize, f, e)
    ensures IsCurrent(cached2, files2, f) ==>
              && IsCurrent(cached1, files1, f)
              && ViewOf(cached2, files2, blockSize, f) == ViewOf(cached1, files1, blockSize, f)
  {
    KeepsViewsIsOwn(cached1, files1, cached2, files2, blockSize, f);
    OwnComposes(cached, files, cached1, files1, cached2, files2, blockSize, f, e, Keep);
    if IsCurrent(cached2, files2, f) {
      assert KeepsView(cached1, files1, cached2, files2, blockSize, f);
    }
  }

  // ------------------------------------------- the block-by-block loops

  /** Where the loops of Cache::write and Cache::read stand after `done` of `total` bytes at `offset`. */
  ghost predicate AtChunk(offset: nat, total: nat, done: nat, block: nat, bstart: nat, bsize: nat, blockSize: nat)
    requires blockSize > 0
  {
    && done <= total
    && (done < total ==>
          && BlockStart(block, blockSize) + bstart == offset + done
          && bstart < blockSize && bsize == Min(blockSize - bstart, total - done))
    && block == (if done == 0 then BlockNum(offset, blockSize) else BlockNum(offset + done - 1, blockSize) + 1)
  }

  lemma FirstChunk(offset: nat, total: nat, blockSize: nat)
    requires blockSize > 0
    ensures var bstart := BlockOffset(offset, blockSize);
            AtChunk(offset, total, 0, BlockNum(offset, blockSize), bstart, Min(blockSize - bstart, total), blockSize)
  {
    BlockDecomposition(offset, BlockNum(offset, blockSize), blockSize);
  }

  lemma NextChunk(offset: nat, total: nat, done: nat, block: nat, bstart: nat, bsize: nat, blockSize: nat)
    requires blockSize > 0 && AtChunk(offset, total, done, block, bstart, bsize, blockSize) && done < total
    ensures bsize > 0 && bstart + bsize <= blockSize && done + bsize <= total
    ensures BlockNum(offset, blockSize) <= block < EndBlock(offset + total, blockSize)
    ensures AtChunk(offset, total, done + bsize, block + 1, 0, Min(blockSize, total - (done + bsize)), blockSize)
  {
    BlockDecomposition(offset + done, block, blockSize);
    BlockNumMonotone(offset, offset + done, blockSize);
    EndBlockBounds(offset + done, offset + total, blockSize);
    BlockDecomposition(offset + done + bsize - 1, block, blockSize);
    BlockStartSuccessor(block, blockSize);
  }

  lemma LastChunk(offset: nat, total: nat, block: nat, bstart: nat, bsize: nat, blockSize: nat)
    requires blockSize > 0 && AtChunk(offset, total, total, block, bstart, bsize, blockSize)
    ensures block == BlockNum(offset, blockSize) + SpannedBlocks(offset, total, blockSize)
  {
  }

  lemma AllFullAreCached(fc: FileCache, blockSize: nat, first: nat, end: nat)
    requires forall b :: first <= b < end ==> IsFullBlock(fc, blockSize, b)
    ensures forall b :: first <= b < end ==> b in fc.entries
  {
    forall b | first <= b < end ensures b in fc.entries {
      assert IsFullBlock(fc, blockSize, b);
    }
  }

  /** The block-by-block loop of Cache::read, copying out of full blocks. */
  method GatherBytes(fc: FileCache, blockSize: nat, offset: nat, size: nat) returns (data: seq<Byte>)
    requires blockSize > 0 && EntriesOk(fc, blockSize)
    requires forall b ::
               BlockNum(offset, blockSize) <= b < EndBlock(offset + size, blockSize) ==> IsFullBlock(fc, blockSize, b)
    ensures data == RunBytes(fc, blockSize, Range(offset, offset + size))
  {
    var currBlock := BlockNum(offset, blockSize);
    var bstart: nat := BlockOffset(offset, blockSize);
    var bsize: nat := Min(blockSize - bstart, size);
    var readSize := 0;
    data := [];
    FirstChunk(offset, size, blockSize);
    while readSize < size
      invariant AtChunk(offset, size, readSize, currBlock, bstart, bsize, blockSize)
      invariant data == RunBytes(fc, blockSize, Range(offset, offset + readSize))
      decreases size - readSize
    {
      NextChunk(offset, size, readSize, currBlock, bstart, bsize, blockSize);
      assert IsFullBlock(fc, blockSize, currBlock);
      ChunkIsStored(fc, blockSize, currBlock, bstart, bsize, offset + readSize);
      var chunk := fc.entries[currBlock].data[bstart..bstart + bsize];
      RunBytesJoin(fc, blockSize, offset, offset + readSize, offset + readSize + bsize, data, chunk);
      data := data + chunk;
      currBlock := currBlock + 1;
      readSize := readSize + bsize;
      bstart := 0;
      bsize := Min(blockSize, size - readSize);
    }
  }

  /** What is copied out of full blocks is what a flat read returns. */
  method GatherRead(fc: FileCache, blockSize: nat, offset: nat, size: nat, clipped: nat,
                    ghost server: seq<Byte>) returns (data: seq<Byte>)
    requires blockSize > 0 && EntriesOk(fc, blockSize) && offset < fc.attr.size && 0 < size
    requires clipped == Min(size, fc.attr.size - offset)
    requires forall b ::
               BlockNum(offset, blockSize) <= b < EndBlock(offset + clipped, blockSize) ==>
                 IsFullBlock(fc, blockSize, b)
    ensures |data| == clipped && data == PRead(Contents(fc, server, blockSize), offset, size)
    ensures BlockNum(offset, blockSize) <= EndBlock(offset + clipped, blockSize)
  {
    data := GatherBytes(fc, blockSize, offset, clipped);
    StoredIsRead(fc, server, blockSize, offset, size, data);
    BlockNumMonotone(offset, offset + clipped - 1, blockSize);
  }

  /** The blocks of the first `k` runs are full. */
  ghost predicate FullUpTo(fc: FileCache, blockSize: nat, runs: seq<Range>, k: nat)
    requires k <= |runs|
  {
    forall b :: Covers(runs[..k], b) ==> b >= 0 && IsFullBlock(fc, blockSize, b)
  }

  lemma FullUpToNext(fc: FileCache, fc': FileCache, blockSize: nat, runs: seq<Range>, k: nat)
    requires k < |runs| && FullUpTo(fc, blockSize, runs, k)
    requires forall b :: IsFullBlock(fc, blockSize, b) ==> IsFullBlock(fc', blockSize, b)
    requires forall b :: runs[k].start <= b < runs[k].end ==> IsFullBlock(fc', blockSize, b)
    ensures FullUpTo(fc', blockSize, runs, k + 1)
  {
    forall b | Covers(runs[..k + 1], b) ensures b >= 0 && IsFullBlock(fc', blockSize, b) {
      assert runs[..k + 1] == runs[..k] + [runs[k]];
      CoversConcat(runs[..k], [runs[k]], b);
      SingletonCovers(runs[k].start, runs[k].end, b);
    }
  }

  /** The blocks a list of runs in [first, end) holds, counted up to the `k`-th run. */
  lemma RunEndsAdvance(runs: seq<Range>, first: nat, end: nat, k: nat)
    requires Canonical(runs) && k < |runs| && forall i :: 0 <= i < |runs| ==>
               first <= runs[i].start && runs[i].end <= end
    ensures (if k == 0 then 0 else runs[k - 1].end - first) + (runs[k].end - runs[k].start) <= runs[k].end - first
    ensures runs[k].end - first <= end - first
  {
    assert k > 0 ==> runs[k - 1].end < runs[k].start;
  }

  // ------------------------------------------------- collecting dirty blocks

  ghost predicate ListedDirty(cached: FileMap, records: seq<UseRecord>, f: string, b: nat) {
    HasEntry(cached, f, b) && cached[f].entries[b].dirty && UseRecord(cached[f].entries[b].useRecord, f, b) in records
  }

  /** `fblocks` lists, without repetition, the dirty blocks that `records` names. */
  ghost predicate Collected(cached: FileMap, records: seq<UseRecord>, fblocks: map<string, seq<nat>>) {
    && (forall f <- fblocks :: f in cached && Distinct(fblocks[f]))
    && (forall f, b :: f in fblocks ==> (b in fblocks[f] <==> ListedDirty(cached, records, f, b)))
    && (forall f, b :: ListedDirty(cached, records, f, b) ==> f in fblocks)
  }

  function AddBlock(fblocks: map<string, seq<nat>>, f: string, b: nat): map<string, seq<nat>> {
    fblocks[f := (if f in fblocks then fblocks[f] else []) + [b]]
  }

  lemma CollectedNext(cached: FileMap, r: UseRecord, records: seq<UseRecord>, fblocks: map<string, seq<nat>>)
    requires Collected(cached, records, fblocks) && PointsBack(cached, r) && r !in records
    ensures var dirty := cached[r.filename].entries[r.block].dirty;
            Collected(cached, [r] + records, if dirty then AddBlock(fblocks, r.filename, r.block) else fblocks)
  {
    forall f, b
      ensures ListedDirty(cached, [r] + records, f, b) <==>
              ListedDirty(cached, records, f, b) || (f == r.filename && b == r.block && cached[f].entries[b].dirty)
    {
    }
    assert !ListedDirty(cached, records, r.filename, r.block);
  }

  /** The dirty blocks of every file, found through the recency list from its tail. */
  method CollectDirty(cached: FileMap, recent: seq<UseRecord>, ghost next: nat) returns (fblocks: map<string, seq<nat>>)
    requires Linked(cached, recent, next)
    ensures forall f <- fblocks :: f in cached && Distinct(fblocks[f])
    ensures forall f, b :: f in fblocks ==> (b in fblocks[f] <==> b in cached[f].entries && cached[f].entries[b].dirty)
    ensures forall f <- cached :: f !in fblocks ==> AllClean(cached[f])
  {
    fblocks := map[];
    var i := |recent|;
    while i > 0
      invariant 0 <= i <= |recent|
      invariant Collected(cached, recent[i..], fblocks)
    {
      i := i - 1;
      var r := recent[i];
      assert PointsBack(cached, recent[i]);
      assert r !in recent[i + 1..] by {
        forall j | i < j < |recent| ensures recent[j] != r {
          assert HandleAt(recent, i) != HandleAt(recent, j);
        }
      }
      CollectedNext(cached, r, recent[i + 1..], fblocks);
      assert recent[i..] == [r] + recent[i + 1..];
      if cached[r.filename].entries[r.block].dirty {
        fblocks := AddBlock(fblocks, r.filename, r.block);
      }
    }
    assert recent[0..] == recent;
    forall f, b | HasEntry(cached, f, b) && cached[f].entries[b].dirty ensures ListedDirty(cached, recent, f, b) {
      assert RecordOf(cached, f, b) in recent;
    }
  }
}
