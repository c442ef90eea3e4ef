/** What Cache::flushBlocks sends, and what the server then holds (client_src/cache.cpp:345-416). */
module Flushing {
  import opened Ranges
  import opened FlatFile
  import opened CachedFile
  import opened Servers

  /** The byte stored for position `i`, valid or not. */
  ghost function StoredAt(fc: FileCache, blockSize: nat, i: nat): Byte
    requires blockSize > 0
  {
    var b, o := BlockNum(i, blockSize), BlockOffset(i, blockSize);
    if b in fc.entries && o < |fc.entries[b].data| then fc.entries[b].data[o] else 0
  }

  /** The cached bytes of a range of file positions. */
  ghost function RunBytes(fc: FileCache, blockSize: nat, run: Range): (r: seq<Byte>)
    requires blockSize > 0
    ensures |r| == if run.start <= run.end then run.end - run.start else 0
    ensures forall k :: 0 <= k < |r| ==> r[k] == StoredAt(fc, blockSize, run.start + k)
  {
    seq<Byte>(if run.start <= run.end then run.end - run.start else 0,
              k requires k >= 0 => StoredAt(fc, blockSize, run.start + k))
  }

  lemma RunBytesConcat(fc: FileCache, blockSize: nat, a: nat, b: nat, c: nat)
    requires blockSize > 0 && a <= b <= c
    ensures RunBytes(fc, blockSize, Range(a, c)) ==
            RunBytes(fc, blockSize, Range(a, b)) + RunBytes(fc, blockSize, Range(b, c))
  {
  }

  lemma RunBytesJoin(fc: FileCache, blockSize: nat, a: nat, b: nat, c: nat, left: seq<Byte>, right: seq<Byte>)
    requires blockSize > 0 && a <= b <= c
    requires left == RunBytes(fc, blockSize, Range(a, b)) && right == RunBytes(fc, blockSize, Range(b, c))
    ensures left + right == RunBytes(fc, blockSize, Range(a, c))
  {
    RunBytesConcat(fc, blockSize, a, b, c);
  }

  /** One write-back per run, in order. */
  ghost function WriteBacks(fc: FileCache, blockSize: nat, name: string, runs: seq<Range>): (r: seq<Request>)
    requires blockSize > 0
    ensures |r| == |runs|
  {
    seq(|runs|, k requires 0 <= k < |runs| => ContentWritten(name, runs[k].start, RunBytes(fc, blockSize, runs[k])))
  }

  lemma WriteBacksSnoc(fc: FileCache, blockSize: nat, name: string, runs: seq<Range>, run: Range)
    requires blockSize > 0
    ensures WriteBacks(fc, blockSize, name, runs + [run]) ==
            WriteBacks(fc, blockSize, name, runs) + [ContentWritten(name, run.start, RunBytes(fc, blockSize, run))]
  {
  }

  /** A range that starts where the last run ends extends it; otherwise it opens a new run. */
  function AddRun(runs: seq<Range>, r: Range): seq<Range> {
    if runs != [] && runs[|runs| - 1].end == r.start
    then runs[..|runs| - 1] + [Range(runs[|runs| - 1].start, r.end)]
    else runs + [r]
  }

  lemma AddRunCovers(runs: seq<Range>, r: Range)
    requires Canonical(runs) && r.start < r.end && Within(runs, r.start)
    ensures Canonical(AddRun(runs, r)) && Within(AddRun(runs, r), r.end)
    ensures forall i :: Covers(AddRun(runs, r), i) <==> Covers(runs, i) || InRange(r, i)
  {
    if runs != [] && runs[|runs| - 1].end == r.start {
      var init, last := runs[..|runs| - 1], runs[|runs| - 1];
      forall i ensures Covers(AddRun(runs, r), i) <==> Covers(runs, i) || InRange(r, i) {
        CoversConcat(init, [Range(last.start, r.end)], i);
        SingletonCovers(last.start, r.end, i);
        CoversConcat(init, [last], i);
        SingletonCovers(last.start, last.end, i);
        assert runs == init + [last];
      }
    } else {
      forall i ensures Covers(AddRun(runs, r), i) <==> Covers(runs, i) || InRange(r, i) {
        CoversConcat(runs, [r], i);
        SingletonCovers(r.start, r.end, i);
      }
    }
  }

  /** `server'` is `server` with the cached bytes of the `sent` runs written to it. */
  ghost predicate Sent(fc: FileCache, blockSize: nat, server: seq<Byte>, server': seq<Byte>, sent: seq<Range>)
    requires blockSize > 0
  {
    forall i: nat :: At(server', i) == if Covers(sent, i) then StoredAt(fc, blockSize, i) else At(server, i)
  }

  lemma SentSnoc(fc: FileCache, blockSize: nat, server: seq<Byte>, server': seq<Byte>, sent: seq<Range>, run: Range)
    requires blockSize > 0 && run.start < run.end
    requires Sent(fc, blockSize, server, server', sent)
    ensures Sent(fc, blockSize, server, PWrite(server', run.start, RunBytes(fc, blockSize, run)), sent + [run])
  {
    var server'' := PWrite(server', run.start, RunBytes(fc, blockSize, run));
    forall i: nat
      ensures At(server'', i) == if Covers(sent + [run], i) then StoredAt(fc, blockSize, i) else At(server, i)
    {
      CoversConcat(sent, [run], i);
      SingletonCovers(run.start, run.end, i);
      if InRange(run, i) {
        assert RunBytes(fc, blockSize, run)[i - run.start] == StoredAt(fc, blockSize, i);
      }
    }
  }

  /** The file with every block clean. */
  function Cleaned(fc: FileCache): FileCache {
    fc.(entries := map b | b in fc.entries :: fc.entries[b].Clean())
  }

  /** Once the runs cover exactly the dirty valid bytes and the size is sent, the server
      holds the file's contents, which the flush did not change; runs that went
      past end of file leave no trace. */
  lemma FlushSettles(fc: FileCache, blockSize: nat, server: seq<Byte>, server': seq<Byte>, runs: seq<Range>)
    requires blockSize > 0 && EntriesOk(fc, blockSize)
    requires InSync(fc, server, blockSize)
    requires Sent(fc, blockSize, server, server', runs)
    requires forall i: nat :: Covers(runs, i) <==> DirtyAt(fc, blockSize, i)
    ensures EntriesOk(Cleaned(fc), blockSize)
    ensures var settled := Resize(server', fc.attr.size);
            && InSync(Cleaned(fc), settled, blockSize)
            && settled == Contents(fc, server, blockSize)
            && Contents(Cleaned(fc), settled, blockSize) == settled
  {
    var settled, fc' := Resize(server', fc.attr.size), Cleaned(fc);
    assert EntriesOk(fc', blockSize);
    forall i: nat
      ensures i < fc.attr.size ==> At(settled, i) == ByteAt(fc, server, blockSize, i)
      ensures ValidAt(fc', blockSize, i) <==> ValidAt(fc, blockSize, i)
      ensures ValidAt(fc', blockSize, i) ==> CachedAt(fc', blockSize, i) == CachedAt(fc, blockSize, i)
      ensures ValidAt(fc', blockSize, i) ==> CachedAt(fc', blockSize, i) == At(settled, i)
    {
      if ValidAt(fc, blockSize, i) {
        assert CachedAt(fc, blockSize, i) == StoredAt(fc, blockSize, i);
      }
    }
    assert settled == Contents(fc, server, blockSize);
  }

  /** Has the flush loop, at range `j` of the `k`-th block, already taken in byte `i`? */
  ghost predicate TakenAt(fc: FileCache, blockSize: nat, blocks: seq<nat>, k: nat, j: nat, i: int)
    requires blockSize > 0 && k <= |blocks|
  {
    && 0 <= i && ValidAt(fc, blockSize, i)
    && var b := BlockNum(i, blockSize);
       || b in blocks[..k]
       || (&& k < |blocks| && b == blocks[k] && j <= |fc.entries[b].valid|
           && Covers(fc.entries[b].valid[..j], BlockOffset(i, blockSize)))
  }

  function Shifted(r: Range, distance: nat): Range {
    Range(r.start + distance, r.end + distance)
  }

  lemma TakenNextRange(fc: FileCache, blockSize: nat, blocks: seq<nat>, k: nat, j: nat, i: int)
    requires blockSize > 0 && EntriesOk(fc, blockSize) && k < |blocks| && blocks[k] in fc.entries
    requires j < |fc.entries[blocks[k]].valid|
    ensures TakenAt(fc, blockSize, blocks, k, j + 1, i) <==>
            || TakenAt(fc, blockSize, blocks, k, j, i)
            || InRange(Shifted(fc.entries[blocks[k]].valid[j], BlockStart(blocks[k], blockSize)), i)
  {
    var valid := fc.entries[blocks[k]].valid;
    if 0 <= i {
      BlockDecomposition(i, blocks[k], blockSize);
      var o := BlockOffset(i, blockSize);
      CoversConcat(valid[..j], [valid[j]], o);
      SingletonCovers(valid[j].start, valid[j].end, o);
      assert valid[..j + 1] == valid[..j] + [valid[j]];
      CoversConcat(valid[..j + 1], valid[j + 1..], o);
      assert valid == valid[..j + 1] + valid[j + 1..];
    }
  }

  lemma TakenNextBlock(fc: FileCache, blockSize: nat, blocks: seq<nat>, k: nat, i: int)
    requires blockSize > 0 && k < |blocks| && blocks[k] in fc.entries
    ensures TakenAt(fc, blockSize, blocks, k + 1, 0, i) <==>
            TakenAt(fc, blockSize, blocks, k, |fc.entries[blocks[k]].valid|, i)
  {
    var valid := fc.entries[blocks[k]].valid;
    assert valid[..|valid|] == valid;
    assert blocks[..k + 1] == blocks[..k] + [blocks[k]];
    assert !Covers(valid[..0], 0);
  }

  /** `blocks` lists the dirty blocks of the file in ascending order. */
  ghost predicate DirtyBlocks(fc: FileCache, blocks: seq<nat>) {
    && (forall i, j :: 0 <= i < j < |blocks| ==> blocks[i] < blocks[j])
    && (forall b :: b in blocks <==> b in fc.entries && fc.entries[b].dirty)
  }

  lemma TakenAllIsDirty(fc: FileCache, blockSize: nat, blocks: seq<nat>, i: int)
    requires blockSize > 0 && DirtyBlocks(fc, blocks)
    ensures TakenAt(fc, blockSize, blocks, |blocks|, 0, i) <==> 0 <= i && DirtyAt(fc, blockSize, i)
  {
    assert blocks[..|blocks|] == blocks;
  }

  /** Where, in file positions, the flush loop stands. */
  ghost function Frontier(fc: FileCache, blockSize: nat, blocks: seq<nat>, k: nat, j: nat): nat
    requires k < |blocks| && blocks[k] in fc.entries && j <= |fc.entries[blocks[k]].valid|
  {
    BlockStart(blocks[k], blockSize) + if j == 0 then 0 else fc.entries[blocks[k]].valid[j - 1].end
  }

  /** The runs are the canonical list of the bytes taken in so far. */
  ghost predicate RunsSoFar(fc: FileCache, blockSize: nat, blocks: seq<nat>, k: nat, j: nat, runs: seq<Range>)
    requires blockSize > 0 && k <= |blocks|
    requires k < |blocks| ==> blocks[k] in fc.entries && j <= |fc.entries[blocks[k]].valid|
  {
    && Canonical(runs)
    && (k < |blocks| ==> Within(runs, Frontier(fc, blockSize, blocks, k, j)))
    && forall i :: Covers(runs, i) <==> TakenAt(fc, blockSize, blocks, k, j, i)
  }

  lemma RunsNextRange(fc: FileCache, blockSize: nat, blocks: seq<nat>, k: nat, j: nat, runs: seq<Range>)
    requires blockSize > 0 && EntriesOk(fc, blockSize) && k < |blocks| && blocks[k] in fc.entries
    requires j < |fc.entries[blocks[k]].valid|
    requires RunsSoFar(fc, blockSize, blocks, k, j, runs)
    ensures RunsSoFar(fc, blockSize, blocks, k, j + 1,
                      AddRun(runs, Shifted(fc.entries[blocks[k]].valid[j], BlockStart(blocks[k], blockSize))))
  {
    var valid := fc.entries[blocks[k]].valid;
    var r := Shifted(valid[j], BlockStart(blocks[k], blockSize));
    assert Within(runs, r.start) by {
      assert j > 0 ==> valid[j - 1].end < valid[j].start;
    }
    AddRunCovers(runs, r);
    forall i ensures Covers(AddRun(runs, r), i) <==> TakenAt(fc, blockSize, blocks, k, j + 1, i) {
      TakenNextRange(fc, blockSize, blocks, k, j, i);
    }
  }

  lemma RunsNextBlock(fc: FileCache, blockSize: nat, blocks: seq<nat>, k: nat, runs: seq<Range>)
    requires blockSize > 0 && EntriesOk(fc, blockSize) && k < |blocks| && DirtyBlocks(fc, blocks)
    requires RunsSoFar(fc, blockSize, blocks, k, |fc.entries[blocks[k]].valid|, runs)
    ensures k + 1 < |blocks| ==> blocks[k + 1] in fc.entries
    ensures RunsSoFar(fc, blockSize, blocks, k + 1, 0, runs)
  {
    var b := blocks[k];
    assert b in blocks;
    forall i ensures Covers(runs, i) <==> TakenAt(fc, blockSize, blocks, k + 1, 0, i) {
      TakenNextBlock(fc, blockSize, blocks, k, i);
    }
    if k + 1 < |blocks| {
      assert blocks[k + 1] in blocks;
      assert b + 1 <= blocks[k + 1];
      BlockStartSuccessor(b, blockSize);
      BlockStartMonotone(b + 1, blocks[k + 1], blockSize);
      assert fc.entries[b].Ok(blockSize);
      assert Frontier(fc, blockSize, blocks, k, |fc.entries[b].valid|) <= Frontier(fc, blockSize, blocks, k + 1, 0);
    }
  }

  lemma RunsAtStart(fc: FileCache, blockSize: nat, blocks: seq<nat>)
    requires blockSize > 0 && DirtyBlocks(fc, blocks)
    ensures |blocks| > 0 ==> blocks[0] in fc.entries
    ensures RunsSoFar(fc, blockSize, blocks, 0, 0, [])
  {
    assert |blocks| > 0 ==> blocks[0] in blocks;
    assert blocks[..0] == [];
  }

  /** At the end the runs are the canonical list of the dirty valid bytes. */
  ghost predicate MaximalRuns(fc: FileCache, blockSize: nat, runs: seq<Range>)
    requires blockSize > 0
  {
    Canonical(runs) && forall i :: Covers(runs, i) <==> 0 <= i && DirtyAt(fc, blockSize, i)
  }

  lemma RunsAtEnd(fc: FileCache, blockSize: nat, blocks: seq<nat>, runs: seq<Range>)
    requires blockSize > 0 && DirtyBlocks(fc, blocks)
    requires RunsSoFar(fc, blockSize, blocks, |blocks|, 0, runs)
    ensures MaximalRuns(fc, blockSize, runs)
  {
    forall i ensures Covers(runs, i) <==> 0 <= i && DirtyAt(fc, blockSize, i) {
      TakenAllIsDirty(fc, blockSize, blocks, i);
    }
  }

  /** There is only one list of maximal runs. */
  lemma MaximalRunsAreUnique(fc: FileCache, blockSize: nat, runs: seq<Range>, runs': seq<Range>)
    requires blockSize > 0 && MaximalRuns(fc, blockSize, runs) && MaximalRuns(fc, blockSize, runs')
    ensures runs == runs'
  {
    CanonicalIsUnique(runs, runs');
  }

  predicate Ascending(s: seq<nat>) {
    forall i, j :: 0 <= i < j < |s| ==> s[i] < s[j]
  }

  predicate Distinct(s: seq<nat>) {
    forall i, j :: 0 <= i < j < |s| ==> s[i] != s[j]
  }

  /** std::sort on a list of distinct block numbers. */
  method Sort(s: seq<nat>) returns (r: seq<nat>)
    requires Distinct(s)
    ensures Ascending(r) && forall b :: b in r <==> b in s
  {
    r := [];
    var i := 0;
    while i < |s|
      invariant 0 <= i <= |s| && Ascending(r)
      invariant forall b :: b in r <==> b in s[..i]
    {
      var k := 0;
      while k < |r| && r[k] < s[i]
        invariant 0 <= k <= |r|
        invariant forall j :: 0 <= j < k ==> r[j] < s[i]
      {
        k := k + 1;
      }
      assert s[i] !in s[..i];
      assert s[i] !in r;
      assert k < |r| ==> r[k] in r;
      assert s[..i + 1] == s[..i] + [s[i]];
      r := InsertAt(r, k, s[i]);
      i := i + 1;
    }
    assert s[..i] == s;
  }

  function InsertAt(r: seq<nat>, k: nat, b: nat): (r': seq<nat>)
    requires k <= |r| && Ascending(r)
    requires forall j :: 0 <= j < k ==> r[j] < b
    requires k < |r| ==> b < r[k]
    ensures Ascending(r') && forall c :: c in r' <==> c in r || c == b
  {
    assert r == r[..k] + r[k..];
    r[..k] + [b] + r[k..]
  }
}
