/** One file of the cache: a size and a map of partly valid, possibly dirty
    blocks (client_src/cache.hpp), read as an overlay on the server's bytes. */
module CachedFile {
  import opened Ranges
  import opened FlatFile

  datatype CacheEntry = CacheEntry(dirty: bool, data: seq<Byte>, valid: seq<Range>, useRecord: nat) {

    ghost predicate Ok(blockSize: nat) {
      |data| == blockSize && Canonical(valid) && Within(valid, blockSize)
    }

    /** Takes fetched bytes for the whole block; bytes already valid win. */
    function Fetch(fetched: seq<Byte>): CacheEntry
      requires |fetched| == |data|
    {
      this.(data := Overlay(data, valid, fetched), valid := Insert(valid, 0, |data|))
    }

    /** Overwrites part of the block and marks the block dirty. */
    function Write(offset: nat, buf: seq<Byte>): CacheEntry
      requires offset + |buf| <= |data|
    {
      this.(data := data[..offset] + buf + data[offset + |buf|..],
            valid := Insert(valid, offset, offset + |buf|),
            dirty := true)
    }

    function Clean(): CacheEntry {
      this.(dirty := false)
    }
  }

  function NewEntry(blockSize: nat, useRecord: nat): CacheEntry {
    CacheEntry(false, seq(blockSize, _ => 0), [], useRecord)
  }

  datatype FileAttr = FileAttr(size: nat, mode: nat, time: nat)

  datatype FileCache = FileCache(stale: bool, attr: FileAttr, entries: map<nat, CacheEntry>)

  function BlockNum(offset: nat, blockSize: nat): nat
    requires blockSize > 0
  {
    offset / blockSize
  }

  function BlockOffset(offset: nat, blockSize: nat): (r: nat)
    requires blockSize > 0
    ensures r < blockSize
  {
    offset % blockSize
  }

  /** One past the last block a file of this size reaches. */
  function EndBlock(size: nat, blockSize: nat): nat
    requires blockSize > 0
  {
    if size == 0 then 0 else BlockNum(size - 1, blockSize) + 1
  }

  /** First byte of a block: `block * blockSize`, as BlockStartIsProduct shows. */
  function BlockStart(block: nat, blockSize: nat): nat {
    if block == 0 then 0 else BlockStart(block - 1, blockSize) + blockSize
  }

  lemma {:induction false} BlockStartIsProduct(block: nat, blockSize: nat)
    ensures BlockStart(block, blockSize) == block * blockSize
  {
    if block > 0 {
      BlockStartIsProduct(block - 1, blockSize);
    }
  }

  /** A file position lies in the block its quotient names, at the offset its remainder names. */
  lemma BlockDecomposition(i: nat, block: nat, blockSize: nat)
    requires blockSize > 0
    ensures BlockNum(i, blockSize) == block <==>
            BlockStart(block, blockSize) <= i < BlockStart(block, blockSize) + blockSize
    ensures BlockNum(i, blockSize) == block ==> BlockOffset(i, blockSize) == i - BlockStart(block, blockSize)
  {
    BlockStartIsProduct(block, blockSize);
    QuotientBounds(i, block, blockSize);
  }

  lemma QuotientBounds(i: nat, q: nat, d: nat)
    requires d > 0
    ensures i / d == q <==> q * d <= i < q * d + d
    ensures i / d == q ==> i % d == i - q * d
  {
    var q', r := i / d, i % d;
    assert i == q' * d + r;
    if q' < q {
      assert (q' + 1) * d <= q * d;
    } else if q' > q {
      assert (q + 1) * d <= q' * d;
    }
  }

  lemma {:induction false} BlockStartSuccessor(block: nat, blockSize: nat)
    ensures BlockStart(block + 1, blockSize) == BlockStart(block, blockSize) + blockSize
  {
  }

  lemma {:induction false} BlockStartMonotone(a: nat, b: nat, blockSize: nat)
    requires a <= b
    ensures BlockStart(a, blockSize) <= BlockStart(b, blockSize)
    decreases b
  {
    if a < b {
      BlockStartMonotone(a, b - 1, blockSize);
    }
  }

  ghost predicate EntriesOk(fc: FileCache, blockSize: nat) {
    forall b <- fc.entries :: fc.entries[b].Ok(blockSize)
  }

  /** Is byte `i` of the file valid in the cache? */
  ghost predicate ValidAt(fc: FileCache, blockSize: nat, i: nat)
    requires blockSize > 0
  {
    var b := BlockNum(i, blockSize);
    b in fc.entries && Covers(fc.entries[b].valid, BlockOffset(i, blockSize))
  }

  ghost predicate DirtyAt(fc: FileCache, blockSize: nat, i: nat)
    requires blockSize > 0
  {
    var b := BlockNum(i, blockSize);
    ValidAt(fc, blockSize, i) && fc.entries[b].dirty
  }

  ghost function CachedAt(fc: FileCache, blockSize: nat, i: nat): Byte
    requires blockSize > 0 && EntriesOk(fc, blockSize)
    requires ValidAt(fc, blockSize, i)
  {
    fc.entries[BlockNum(i, blockSize)].data[BlockOffset(i, blockSize)]
  }

  /** The byte a read has to return: the cached one where valid, the server's elsewhere. */
  ghost function ByteAt(fc: FileCache, server: seq<Byte>, blockSize: nat, i: nat): Byte
    requires blockSize > 0 && EntriesOk(fc, blockSize)
  {
    if ValidAt(fc, blockSize, i) then CachedAt(fc, blockSize, i) else At(server, i)
  }

  /** The logical contents of a cached file. */
  ghost function Contents(fc: FileCache, server: seq<Byte>, blockSize: nat): (r: seq<Byte>)
    requires blockSize > 0 && EntriesOk(fc, blockSize)
    ensures |r| == fc.attr.size
    ensures forall i: nat :: i < |r| ==> r[i] == ByteAt(fc, server, blockSize, i)
  {
    seq(fc.attr.size, i requires 0 <= i < fc.attr.size => ByteAt(fc, server, blockSize, i))
  }

  /** What ties a cached file to the server's bytes: clean valid bytes are the
      server's, and nothing but zeros is kept past end of file. */
  ghost predicate InSync(fc: FileCache, server: seq<Byte>, blockSize: nat)
    requires blockSize > 0 && EntriesOk(fc, blockSize)
  {
    && |server| <= fc.attr.size
    && CleanAgrees(fc, server, blockSize)
    && PaddingIsZero(fc, blockSize)
  }

  ghost predicate CleanAgrees(fc: FileCache, server: seq<Byte>, blockSize: nat)
    requires blockSize > 0 && EntriesOk(fc, blockSize)
  {
    forall i: nat :: ValidAt(fc, blockSize, i) && !DirtyAt(fc, blockSize, i) ==>
                       CachedAt(fc, blockSize, i) == At(server, i)
  }

  ghost predicate PaddingIsZero(fc: FileCache, blockSize: nat)
    requires blockSize > 0 && EntriesOk(fc, blockSize)
  {
    forall i: nat :: fc.attr.size <= i && ValidAt(fc, blockSize, i) ==> CachedAt(fc, blockSize, i) == 0
  }

  /** A file without a dirty byte has the size the server knows. */
  ghost predicate SizeSettled(fc: FileCache, server: seq<Byte>, blockSize: nat)
    requires blockSize > 0
  {
    NoDirtyByte(fc, blockSize) ==> |server| == fc.attr.size
  }

  ghost predicate NoDirtyByte(fc: FileCache, blockSize: nat)
    requires blockSize > 0
  {
    forall i: nat :: !DirtyAt(fc, blockSize, i)
  }

  /** A settled file without a dirty byte shows exactly what the server holds. */
  lemma CleanShowsServer(fc: FileCache, server: seq<Byte>, blockSize: nat)
    requires blockSize > 0 && EntriesOk(fc, blockSize) && InSync(fc, server, blockSize)
    requires SizeSettled(fc, server, blockSize) && NoDirtyByte(fc, blockSize)
    ensures Contents(fc, server, blockSize) == server
  {
    var shown := Contents(fc, server, blockSize);
    forall i: nat | i < |shown| ensures shown[i] == server[i] {
      assert !DirtyAt(fc, blockSize, i);
    }
  }

  // ---------------------------------------------------------------- writing

  /** `fc'` is `fc` with `data` written at `offset`, byte for byte. */
  ghost predicate Wrote(fc: FileCache, fc': FileCache, blockSize: nat, offset: nat, data: seq<Byte>)
    requires blockSize > 0 && EntriesOk(fc, blockSize) && EntriesOk(fc', blockSize)
  {
    forall i: nat ::
      var inside := offset <= i < offset + |data|;
      && (ValidAt(fc', blockSize, i) <==> ValidAt(fc, blockSize, i) || inside)
      && (ValidAt(fc', blockSize, i) ==>
            CachedAt(fc', blockSize, i) == if inside then data[i - offset] else CachedAt(fc, blockSize, i))
      && (ValidAt(fc', blockSize, i) ==>
            (DirtyAt(fc', blockSize, i) || (!inside && !DirtyAt(fc, blockSize, i))))
  }

  /** The entry Cache::writeBlock leaves for `block`. */
  function WrittenEntry(fc: FileCache, blockSize: nat, block: nat, offset: nat, data: seq<Byte>,
                        useRecord: nat): CacheEntry
    requires offset + |data| <= blockSize
    requires block in fc.entries ==> |fc.entries[block].data| == blockSize
  {
    (if block in fc.entries then fc.entries[block] else NewEntry(blockSize, useRecord)).Write(offset, data)
  }

  lemma WrittenEntryOk(e: CacheEntry, blockSize: nat, offset: nat, data: seq<Byte>)
    requires e.Ok(blockSize) && data != [] && offset + |data| <= blockSize
    ensures e.Write(offset, data).Ok(blockSize)
    ensures forall o :: Covers(e.Write(offset, data).valid, o) <==> Covers(e.valid, o) || offset <= o < offset + |data|
    ensures forall o :: 0 <= o < blockSize ==>
              e.Write(offset, data).data[o] == if offset <= o < offset + |data| then data[o - offset] else e.data[o]
  {
    InsertDenotesUnion(e.valid, offset, offset + |data|);
    InsertIsCanonical(e.valid, offset, offset + |data|, blockSize);
  }

  /** What one position of the file shows after `data` has been written into a block. */
  lemma WriteBlockAt(fc: FileCache, fc': FileCache, e: CacheEntry, blockSize: nat, block: nat, offset: nat,
                     data: seq<Byte>, i: nat)
    requires blockSize > 0 && EntriesOk(fc, blockSize) && EntriesOk(fc', blockSize)
    requires data != [] && offset + |data| <= blockSize && e.Ok(blockSize)
    requires if block in fc.entries then e == fc.entries[block] else e.valid == []
    requires fc' == fc.(entries := fc.entries[block := e.Write(offset, data)])
    ensures var start := BlockStart(block, blockSize) + offset;
            var inside := start <= i < start + |data|;
            && (ValidAt(fc', blockSize, i) <==> ValidAt(fc, blockSize, i) || inside)
            && (ValidAt(fc', blockSize, i) ==>
                  CachedAt(fc', blockSize, i) == if inside then data[i - start] else CachedAt(fc, blockSize, i))
            && (ValidAt(fc', blockSize, i) ==>
                  (DirtyAt(fc', blockSize, i) || (!inside && !DirtyAt(fc, blockSize, i))))
  {
    BlockDecomposition(i, block, blockSize);
    WrittenEntryOk(e, blockSize, offset, data);
  }

  lemma WriteBlockWrites(fc: FileCache, blockSize: nat, block: nat, offset: nat, data: seq<Byte>, useRecord: nat)
    requires blockSize > 0 && EntriesOk(fc, blockSize)
    requires data != [] && offset + |data| <= blockSize
    ensures var fc' := fc.(entries := fc.entries[block := WrittenEntry(fc, blockSize, block, offset, data, useRecord)]);
            EntriesOk(fc', blockSize) && Wrote(fc, fc', blockSize, BlockStart(block, blockSize) + offset, data)
  {
    var e := if block in fc.entries then fc.entries[block] else NewEntry(blockSize, useRecord);
    WrittenEntryOk(e, blockSize, offset, data);
    var fc' := fc.(entries := fc.entries[block := e.Write(offset, data)]);
    forall i: nat
      ensures var start := BlockStart(block, blockSize) + offset;
              var inside := start <= i < start + |data|;
              && (ValidAt(fc', blockSize, i) <==> ValidAt(fc, blockSize, i) || inside)
              && (ValidAt(fc', blockSize, i) ==>
                    CachedAt(fc', blockSize, i) == if inside then data[i - start] else CachedAt(fc, blockSize, i))
              && (ValidAt(fc', blockSize, i) ==>
                    (DirtyAt(fc', blockSize, i) || (!inside && !DirtyAt(fc, blockSize, i))))
    {
      WriteBlockAt(fc, fc', e, blockSize, block, offset, data, i);
    }
  }

  lemma WroteComposes(fc0: FileCache, fc1: FileCache, fc2: FileCache, blockSize: nat, offset: nat, a: seq<Byte>,
                      b: seq<Byte>)
    requires blockSize > 0 && EntriesOk(fc0, blockSize) && EntriesOk(fc1, blockSize) && EntriesOk(fc2, blockSize)
    requires Wrote(fc0, fc1, blockSize, offset, a)
    requires Wrote(fc1, fc2, blockSize, offset + |a|, b)
    ensures Wrote(fc0, fc2, blockSize, offset, a + b)
  {
  }

  /** Writing the next chunk into its block extends what has been written so far. */
  lemma WriteBlockExtends(fc0: FileCache, fc: FileCache, blockSize: nat, block: nat, offset: nat, data: seq<Byte>,
                          useRecord: nat,
                          position: nat, done: seq<Byte>)
    requires blockSize > 0 && EntriesOk(fc0, blockSize) && EntriesOk(fc, blockSize)
    requires data != [] && offset + |data| <= blockSize
    requires position + |done| == BlockStart(block, blockSize) + offset
    requires Wrote(fc0, fc, blockSize, position, done)
    ensures var fc' := fc.(entries := fc.entries[block := WrittenEntry(fc, blockSize, block, offset, data, useRecord)]);
            EntriesOk(fc', blockSize) && Wrote(fc0, fc', blockSize, position, done + data)
  {
    WriteBlockWrites(fc, blockSize, block, offset, data, useRecord);
    var fc' := fc.(entries := fc.entries[block := WrittenEntry(fc, blockSize, block, offset, data, useRecord)]);
    var start := position + |done|;
    assert Wrote(fc, fc', blockSize, start, data);
    WroteComposes(fc0, fc, fc', blockSize, position, done, data);
  }

  /** A write keeps the cached file in sync and changes its contents as Overwrite says. */
  lemma WriteRefinesOverwrite(fc: FileCache, fc': FileCache, server: seq<Byte>, blockSize: nat, offset: nat,
                              data: seq<Byte>)
    requires blockSize > 0 && EntriesOk(fc, blockSize) && EntriesOk(fc', blockSize)
    requires InSync(fc, server, blockSize)
    requires Wrote(fc, fc', blockSize, offset, data)
    requires fc'.attr.size == Max(fc.attr.size, offset + |data|)
    ensures InSync(fc', server, blockSize)
    ensures Contents(fc', server, blockSize) == Overwrite(Contents(fc, server, blockSize), offset, data)
  {
    var before, after := Contents(fc, server, blockSize), Contents(fc', server, blockSize);
    forall i: nat | i < |after|
      ensures after[i] == Overwrite(before, offset, data)[i]
    {
      assert ValidAt(fc', blockSize, i) <==> ValidAt(fc, blockSize, i) || offset <= i < offset + |data|;
    }
  }

  /** A write leaves a dirty byte behind, unless it is empty. */
  lemma WriteSettles(fc: FileCache, fc': FileCache, server: seq<Byte>, blockSize: nat, offset: nat, data: seq<Byte>)
    requires blockSize > 0 && EntriesOk(fc, blockSize) && EntriesOk(fc', blockSize)
    requires Wrote(fc, fc', blockSize, offset, data) && SizeSettled(fc, server, blockSize)
    requires fc'.attr.size == Max(fc.attr.size, offset + |data|) && (data != [] || offset <= fc.attr.size)
    ensures SizeSettled(fc', server, blockSize)
  {
    if data != [] {
      assert DirtyAt(fc', blockSize, offset);
    } else {
      assert forall i: nat :: DirtyAt(fc, blockSize, i) ==> DirtyAt(fc', blockSize, i);
    }
  }

  // --------------------------------------------------------------- fetching

  /** The bytes of one block of the server's file, zero past its end. */
  function ServerBlock(server: seq<Byte>, blockSize: nat, block: nat): (r: seq<Byte>)
    ensures |r| == blockSize
  {
    seq<Byte>(blockSize, o requires 0 <= o < blockSize => At(server, BlockStart(block, blockSize) + o))
  }

  /** The entry Cache::cacheBlocks leaves for `block` after fetching `fetched`. */
  function FetchedEntry(fc: FileCache, blockSize: nat, block: nat, fetched: seq<Byte>, useRecord: nat): CacheEntry
    requires |fetched| == blockSize
    requires block in fc.entries ==> |fc.entries[block].data| == blockSize
  {
    (if block in fc.entries then fc.entries[block] else NewEntry(blockSize, useRecord)).Fetch(fetched)
  }

  /** The test of Cache::isFullBlock. */
  predicate IsFullBlock(fc: FileCache, blockSize: nat, block: nat) {
    block in fc.entries && IsOneRange(fc.entries[block].valid, 0, blockSize)
  }

  /** The test is exact: it holds when, and only when, every byte of the block is valid. */
  lemma FullBlockIffAllValid(fc: FileCache, blockSize: nat, block: nat)
    requires blockSize > 0 && EntriesOk(fc, blockSize)
    ensures IsFullBlock(fc, blockSize, block) <==>
            forall i: nat :: BlockNum(i, blockSize) == block ==> ValidAt(fc, blockSize, i)
  {
    if block in fc.entries {
      var valid := fc.entries[block].valid;
      OneRangeIffAllCovered(valid, 0, blockSize);
      if forall i: nat :: BlockNum(i, blockSize) == block ==> ValidAt(fc, blockSize, i) {
        forall o | 0 <= o < blockSize ensures Covers(valid, o) {
          var i := BlockStart(block, blockSize) + o;
          BlockDecomposition(i, block, blockSize);
          assert ValidAt(fc, blockSize, i);
        }
      }
    } else {
      var i := BlockStart(block, blockSize);
      BlockDecomposition(i, block, blockSize);
      assert !ValidAt(fc, blockSize, i);
    }
  }

  lemma FetchedEntryOk(e: CacheEntry, blockSize: nat, fetched: seq<Byte>)
    requires e.Ok(blockSize) && blockSize > 0 && |fetched| == blockSize
    ensures e.Fetch(fetched).Ok(blockSize)
    ensures IsOneRange(e.Fetch(fetched).valid, 0, blockSize)
    ensures forall o :: Covers(e.Fetch(fetched).valid, o) <==> 0 <= o < blockSize
  {
    InsertDenotesUnion(e.valid, 0, blockSize);
    InsertIsCanonical(e.valid, 0, blockSize, blockSize);
    OneRangeIffAllCovered(e.Fetch(fetched).valid, 0, blockSize);
  }

  /** `fc'` caches at least what `fc` does and shows the same bytes over `server`. */
  ghost predicate Fetched(fc: FileCache, fc': FileCache, server: seq<Byte>, blockSize: nat)
    requires blockSize > 0 && EntriesOk(fc, blockSize) && EntriesOk(fc', blockSize)
  {
    && fc'.attr == fc.attr
    && fc'.stale == fc.stale
    && forall i: nat ::
         && (ValidAt(fc, blockSize, i) ==>
               ValidAt(fc', blockSize, i) && (DirtyAt(fc', blockSize, i) <==> DirtyAt(fc, blockSize, i)))
         && ByteAt(fc', server, blockSize, i) == ByteAt(fc, server, blockSize, i)
  }

  lemma FetchBlockFetches(fc: FileCache, server: seq<Byte>, blockSize: nat, block: nat, useRecord: nat)
    requires blockSize > 0 && EntriesOk(fc, blockSize)
    ensures var e := FetchedEntry(fc, blockSize, block, ServerBlock(server, blockSize, block), useRecord);
            var fc' := fc.(entries := fc.entries[block := e]);
            && EntriesOk(fc', blockSize) && IsFullBlock(fc', blockSize, block)
            && Fetched(fc, fc', server, blockSize)
  {
    var fetched := ServerBlock(server, blockSize, block);
    var e := if block in fc.entries then fc.entries[block] else NewEntry(blockSize, useRecord);
    FetchedEntryOk(e, blockSize, fetched);
    var fc' := fc.(entries := fc.entries[block := e.Fetch(fetched)]);
    assert EntriesOk(fc', blockSize);
    forall i: nat
      ensures ValidAt(fc, blockSize, i) ==>
                ValidAt(fc', blockSize, i) && (DirtyAt(fc', blockSize, i) <==> DirtyAt(fc, blockSize, i))
      ensures ByteAt(fc', server, blockSize, i) == ByteAt(fc, server, blockSize, i)
    {
      BlockDecomposition(i, block, blockSize);
    }
  }

  lemma FetchedComposes(fc0: FileCache, fc1: FileCache, fc2: FileCache, server: seq<Byte>, blockSize: nat)
    requires blockSize > 0 && EntriesOk(fc0, blockSize) && EntriesOk(fc1, blockSize) && EntriesOk(fc2, blockSize)
    requires Fetched(fc0, fc1, server, blockSize) && Fetched(fc1, fc2, server, blockSize)
    ensures Fetched(fc0, fc2, server, blockSize)
  {
  }

  /** Fetching keeps the cached file in sync and changes nothing a reader can see. */
  lemma FetchKeepsContents(fc: FileCache, fc': FileCache, server: seq<Byte>, blockSize: nat)
    requires blockSize > 0 && EntriesOk(fc, blockSize) && EntriesOk(fc', blockSize)
    requires Fetched(fc, fc', server, blockSize)
    ensures Contents(fc', server, blockSize) == Contents(fc, server, blockSize)
    ensures InSync(fc, server, blockSize) ==> InSync(fc', server, blockSize)
    ensures SizeSettled(fc, server, blockSize) ==> SizeSettled(fc', server, blockSize)
  {
    assert forall i: nat :: DirtyAt(fc, blockSize, i) ==> DirtyAt(fc', blockSize, i);
    if InSync(fc, server, blockSize) {
      forall i: nat | ValidAt(fc', blockSize, i)
        ensures fc.attr.size <= i ==> CachedAt(fc', blockSize, i) == 0
        ensures !DirtyAt(fc', blockSize, i) ==> CachedAt(fc', blockSize, i) == At(server, i)
      {
        assert CachedAt(fc', blockSize, i) == ByteAt(fc, server, blockSize, i);
      }
    }
  }

  // --------------------------------------------------------------- evicting

  /** Dropping a clean block changes nothing a reader can see. */
  lemma DropCleanBlock(fc: FileCache, server: seq<Byte>, blockSize: nat, block: nat)
    requires blockSize > 0 && EntriesOk(fc, blockSize) && InSync(fc, server, blockSize)
    requires block in fc.entries && !fc.entries[block].dirty
    ensures var fc' := fc.(entries := fc.entries - {block});
            && EntriesOk(fc', blockSize) && InSync(fc', server, blockSize)
            && Contents(fc', server, blockSize) == Contents(fc, server, blockSize)
            && (SizeSettled(fc, server, blockSize) ==> SizeSettled(fc', server, blockSize))
  {
    var fc' := fc.(entries := fc.entries - {block});
    assert EntriesOk(fc', blockSize);
    assert forall i: nat :: DirtyAt(fc, blockSize, i) ==> DirtyAt(fc', blockSize, i);
    forall i: nat
      ensures ValidAt(fc', blockSize, i) ==>
                ValidAt(fc, blockSize, i) && CachedAt(fc', blockSize, i) == CachedAt(fc, blockSize, i)
      ensures ValidAt(fc', blockSize, i) ==> (DirtyAt(fc', blockSize, i) <==> DirtyAt(fc, blockSize, i))
      ensures ByteAt(fc', server, blockSize, i) == ByteAt(fc, server, blockSize, i)
    {
    }
  }

  // ------------------------------------------------------------- truncating

  /** The file after Cache::truncate has dropped the blocks past a smaller size. */
  function Shrunk(fc: FileCache, blockSize: nat, size: nat): FileCache
    requires blockSize > 0
  {
    fc.(attr := fc.attr.(size := size),
        entries := map b | b in fc.entries && b < EndBlock(size, blockSize) :: fc.entries[b])
  }

  function Grown(fc: FileCache, size: nat): FileCache {
    fc.(attr := fc.attr.(size := size))
  }

  /** Shrinking keeps the block the new end of file falls into. It is harmless
      if that block has no valid non-zero byte from the new end on. */
  predicate SafeShrink(fc: FileCache, blockSize: nat, size: nat)
    requires blockSize > 0
  {
    var b, o := BlockNum(size, blockSize), BlockOffset(size, blockSize);
    o == 0 || b !in fc.entries ||
    forall k | o <= k < Min(blockSize, |fc.entries[b].data|) ::
      Covers(fc.entries[b].valid, k) ==> fc.entries[b].data[k] == 0
  }

  lemma EndBlockBounds(i: nat, size: nat, blockSize: nat)
    requires blockSize > 0
    ensures i < size ==> BlockNum(i, blockSize) < EndBlock(size, blockSize)
    ensures size <= i ==> (BlockNum(i, blockSize) < EndBlock(size, blockSize) <==>
                           BlockOffset(size, blockSize) != 0 && BlockNum(i, blockSize) == BlockNum(size, blockSize))
  {
    var b := BlockNum(i, blockSize);
    BlockDecomposition(i, b, blockSize);
    if size > 0 {
      var last := BlockNum(size - 1, blockSize);
      BlockDecomposition(size - 1, last, blockSize);
      BlockDecomposition(size, last, blockSize);
      BlockStartSuccessor(last, blockSize);
      BlockDecomposition(size, last + 1, blockSize);
      BlockDecomposition(i, last, blockSize);
      if b < last {
        BlockStartMonotone(b + 1, last, blockSize);
        BlockStartSuccessor(b, blockSize);
      } else if b > last {
        BlockStartMonotone(last + 1, b, blockSize);
      }
    } else {
      BlockDecomposition(0, 0, blockSize);
    }
  }

  lemma ShrunkValidity(fc: FileCache, blockSize: nat, size: nat, i: nat)
    requires blockSize > 0 && EntriesOk(fc, blockSize)
    ensures EntriesOk(Shrunk(fc, blockSize, size), blockSize)
    ensures ValidAt(Shrunk(fc, blockSize, size), blockSize, i) <==>
            ValidAt(fc, blockSize, i) && BlockNum(i, blockSize) < EndBlock(size, blockSize)
    ensures i < size ==> (ValidAt(Shrunk(fc, blockSize, size), blockSize, i) <==> ValidAt(fc, blockSize, i))
  {
    EndBlockBounds(i, size, blockSize);
  }

  /** What is visible right after shrinking is the prefix, whatever was cached. */
  lemma ShrinkShowsPrefix(fc: FileCache, server: seq<Byte>, blockSize: nat, size: nat)
    requires blockSize > 0 && EntriesOk(fc, blockSize) && size <= fc.attr.size
    ensures EntriesOk(Shrunk(fc, blockSize, size), blockSize)
    ensures Contents(Shrunk(fc, blockSize, size), Resize(server, size), blockSize) ==
            Resize(Contents(fc, server, blockSize), size)
  {
    ShrunkValidity(fc, blockSize, size, 0);
    var fc' := Shrunk(fc, blockSize, size);
    forall i: nat | i < size
      ensures ByteAt(fc', Resize(server, size), blockSize, i) == ByteAt(fc, server, blockSize, i)
    {
      ShrunkValidity(fc, blockSize, size, i);
    }
  }

  /** The file stays in sync exactly when the shrink is safe. */
  lemma ShrinkInSyncIffSafe(fc: FileCache, server: seq<Byte>, blockSize: nat, size: nat)
    requires blockSize > 0 && EntriesOk(fc, blockSize) && size <= fc.attr.size
    requires InSync(fc, server, blockSize)
    ensures EntriesOk(Shrunk(fc, blockSize, size), blockSize)
    ensures InSync(Shrunk(fc, blockSize, size), Resize(server, size), blockSize) <==> SafeShrink(fc, blockSize, size)
  {
    ShrunkValidity(fc, blockSize, size, 0);
    var fc' := Shrunk(fc, blockSize, size);
    var b, o := BlockNum(size, blockSize), BlockOffset(size, blockSize);
    if SafeShrink(fc, blockSize, size) {
      forall i: nat | ValidAt(fc', blockSize, i)
        ensures size <= i ==> CachedAt(fc', blockSize, i) == 0
        ensures !DirtyAt(fc', blockSize, i) ==> CachedAt(fc', blockSize, i) == At(Resize(server, size), i)
      {
        ShrunkValidity(fc, blockSize, size, i);
        assert ValidAt(fc, blockSize, i);
        EndBlockBounds(i, size, blockSize);
        BlockDecomposition(i, b, blockSize);
        BlockDecomposition(size, b, blockSize);
      }
    }
    if PaddingIsZero(fc', blockSize) && o != 0 && b in fc.entries {
      forall k | o <= k < blockSize && Covers(fc.entries[b].valid, k)
        ensures fc.entries[b].data[k] == 0
      {
        var i := BlockStart(b, blockSize) + k;
        BlockDecomposition(i, b, blockSize);
        BlockDecomposition(size, b, blockSize);
        EndBlockBounds(i, size, blockSize);
        ShrunkValidity(fc, blockSize, size, i);
        assert ValidAt(fc', blockSize, i);
        assert CachedAt(fc', blockSize, i) == 0;
      }
    }
  }

  /** A shrink and any later growth behave like truncate on a flat file exactly when
      the shrink is safe: an unsafe one brings old bytes back. */
  lemma ShrinkThenGrowIffSafe(fc: FileCache, server: seq<Byte>, blockSize: nat, size: nat)
    requires blockSize > 0 && EntriesOk(fc, blockSize) && size <= fc.attr.size
    requires InSync(fc, server, blockSize)
    ensures EntriesOk(Shrunk(fc, blockSize, size), blockSize)
    ensures (forall later: nat | size <= later ::
               Contents(Grown(Shrunk(fc, blockSize, size), later), Resize(Resize(server, size), later), blockSize) ==
               Resize(Resize(Contents(fc, server, blockSize), size), later))
            <==> SafeShrink(fc, blockSize, size)
  {
    ShrinkInSyncIffSafe(fc, server, blockSize, size);
    ShrinkShowsPrefix(fc, server, blockSize, size);
    var fc', server' := Shrunk(fc, blockSize, size), Resize(server, size);
    var prefix := Resize(Contents(fc, server, blockSize), size);
    if SafeShrink(fc, blockSize, size) {
      forall later: nat | size <= later
        ensures Contents(Grown(fc', later), Resize(server', later), blockSize) == Resize(prefix, later)
      {
        GrowExtends(fc', server', blockSize, later);
      }
    } else {
      assert !CleanAgrees(fc', server', blockSize) || !PaddingIsZero(fc', blockSize);
      var i: nat := UnsafeByte(fc, server, blockSize, size);
      var later := i + 1;
      var shown := Contents(Grown(fc', later), Resize(server', later), blockSize);
      assert ValidAt(Grown(fc', later), blockSize, i);
      assert shown[i] == CachedAt(fc', blockSize, i);
      assert Resize(prefix, later)[i] == 0;
    }
  }

  lemma UnsafeByte(fc: FileCache, server: seq<Byte>, blockSize: nat, size: nat) returns (i: nat)
    requires blockSize > 0 && EntriesOk(fc, blockSize) && size <= fc.attr.size
    requires InSync(fc, server, blockSize) && !SafeShrink(fc, blockSize, size)
    ensures EntriesOk(Shrunk(fc, blockSize, size), blockSize)
    ensures size <= i && ValidAt(Shrunk(fc, blockSize, size), blockSize, i)
    ensures CachedAt(Shrunk(fc, blockSize, size), blockSize, i) != 0
  {
    var b, o := BlockNum(size, blockSize), BlockOffset(size, blockSize);
    var k :| o <= k < blockSize && Covers(fc.entries[b].valid, k) && fc.entries[b].data[k] != 0;
    i := BlockStart(b, blockSize) + k;
    BlockDecomposition(i, b, blockSize);
    BlockDecomposition(size, b, blockSize);
    EndBlockBounds(i, size, blockSize);
    ShrunkValidity(fc, blockSize, size, i);
  }

  lemma GrowExtends(fc: FileCache, server: seq<Byte>, blockSize: nat, size: nat)
    requires blockSize > 0 && EntriesOk(fc, blockSize) && fc.attr.size <= size
    requires InSync(fc, server, blockSize)
    ensures EntriesOk(Grown(fc, size), blockSize)
    ensures InSync(Grown(fc, size), Resize(server, size), blockSize)
    ensures Contents(Grown(fc, size), Resize(server, size), blockSize) == Resize(Contents(fc, server, blockSize), size)
  {
    var fc' := Grown(fc, size);
    assert forall i: nat :: ValidAt(fc', blockSize, i) <==> ValidAt(fc, blockSize, i);
    assert forall i: nat :: ValidAt(fc, blockSize, i) ==>
             && CachedAt(fc', blockSize, i) == CachedAt(fc, blockSize, i)
             && (DirtyAt(fc', blockSize, i) <==> DirtyAt(fc, blockSize, i));
  }

  /** A file of four cached bytes in one block. */
  function SmallFile(): FileCache {
    FileCache(false, FileAttr(4, 0, 0), map[0 := CacheEntry(false, [7, 7, 7, 7], [Range(0, 4)], 0)])
  }

  lemma SmallFileInSync()
    ensures EntriesOk(SmallFile(), 4)
    ensures forall i: nat :: ValidAt(SmallFile(), 4, i) <==> i < 4
    ensures InSync(SmallFile(), [7, 7, 7, 7], 4)
  {
    forall i: nat ensures ValidAt(SmallFile(), 4, i) <==> i < 4 {
      BlockDecomposition(i, 0, 4);
      SingletonCovers(0, 4, BlockOffset(i, 4));
    }
  }

  /** The unsafe case occurs: cut to one byte and grown back to two, the file shows an old byte. */
  lemma UnalignedShrinkBringsBytesBack()
    ensures EntriesOk(SmallFile(), 4) && InSync(SmallFile(), [7, 7, 7, 7], 4)
    ensures EntriesOk(Shrunk(SmallFile(), 4, 1), 4)
    ensures Contents(Grown(Shrunk(SmallFile(), 4, 1), 2), Resize(Resize([7, 7, 7, 7], 1), 2), 4)[1] == 7
    ensures Resize(Resize([7, 7, 7, 7], 1), 2)[1] == 0
  {
    SmallFileInSync();
    var cut := Shrunk(SmallFile(), 4, 1);
    ShrunkValidity(SmallFile(), 4, 1, 1);
    assert BlockNum(1, 4) == 0 && EndBlock(1, 4) == 1;
    assert ValidAt(cut, 4, 1) && CachedAt(cut, 4, 1) == 7;
    assert ValidAt(Grown(cut, 2), 4, 1);
  }
}
