/** The recency list and its links to the block maps (client_src/cache.cpp:142-186, 254-257).
    A list iterator is modelled as a handle that names one record of the list. */
module Recency {
  import opened CachedFile

  datatype UseRecord = UseRecord(handle: nat, filename: string, block: nat)

  type FileMap = map<string, FileCache>

  predicate HasEntry(files: FileMap, f: string, b: nat) {
    f in files && b in files[f].entries
  }

  /** The record names a cached block, and that block names the record. */
  ghost predicate PointsBack(files: FileMap, r: UseRecord) {
    HasEntry(files, r.filename, r.block) && files[r.filename].entries[r.block].useRecord == r.handle
  }

  /** The record a cached block names. */
  function RecordOf(files: FileMap, f: string, b: nat): UseRecord
    requires HasEntry(files, f, b)
  {
    UseRecord(files[f].entries[b].useRecord, f, b)
  }

  function HandleAt(recent: seq<UseRecord>, i: nat): nat
    requires i < |recent|
  {
    recent[i].handle
  }

  /** Records and cached blocks are in bijection. */
  ghost predicate Linked(files: FileMap, recent: seq<UseRecord>, next: nat) {
    && (forall i {:trigger PointsBack(files, recent[i])} :: 0 <= i < |recent| ==>
          PointsBack(files, recent[i]) && recent[i].handle < next)
    && (forall i, j {:trigger HandleAt(recent, i), HandleAt(recent, j)} ::
          0 <= i < j < |recent| ==> HandleAt(recent, i) != HandleAt(recent, j))
    && (forall f, b {:trigger RecordOf(files, f, b)} :: HasEntry(files, f, b) ==> RecordOf(files, f, b) in recent)
  }

  /** Dereferences a handle: the position of its record. */
  function Position(recent: seq<UseRecord>, handle: nat): (k: nat)
    requires exists i :: 0 <= i < |recent| && recent[i].handle == handle
    ensures k < |recent| && recent[k].handle == handle
  {
    if recent[0].handle == handle then 0
    else
      assert exists i :: 0 <= i < |recent[1..]| && recent[1..][i].handle == handle by {
        var i :| 0 <= i < |recent| && recent[i].handle == handle;
        assert recent[1..][i - 1].handle == handle;
      }
      1 + Position(recent[1..], handle)
  }

  function RemoveAt<T>(s: seq<T>, k: nat): seq<T>
    requires k < |s|
  {
    s[..k] + s[k + 1..]
  }

  /** Splices the record at `k` to the front. */
  function ToFront<T>(s: seq<T>, k: nat): seq<T>
    requires k < |s|
  {
    [s[k]] + RemoveAt(s, k)
  }

  /** Through the bijection every cached block finds its record. */
  lemma EntryHasRecord(files: FileMap, recent: seq<UseRecord>, next: nat, f: string, b: nat)
    requires Linked(files, recent, next) && HasEntry(files, f, b)
    ensures exists i :: 0 <= i < |recent| && recent[i].handle == files[f].entries[b].useRecord
    ensures recent[Position(recent, files[f].entries[b].useRecord)] == UseRecord(files[f].entries[b].useRecord, f, b)
  {
    var r := RecordOf(files, f, b);
    var i :| 0 <= i < |recent| && recent[i] == r;
    assert recent[i].handle == r.handle;
    var k := Position(recent, r.handle);
    assert HandleAt(recent, i) == HandleAt(recent, k);
  }

  /** Two records for the same block are the same record. */
  lemma RecordIsUnique(files: FileMap, recent: seq<UseRecord>, next: nat, i: nat, j: nat)
    requires Linked(files, recent, next) && i < |recent| && j < |recent|
    requires recent[i].filename == recent[j].filename && recent[i].block == recent[j].block
    ensures i == j
  {
    assert PointsBack(files, recent[i]) && PointsBack(files, recent[j]);
    assert HandleAt(recent, i) == HandleAt(recent, j);
  }

  lemma LinkedAfterInsert(files: FileMap, recent: seq<UseRecord>, next: nat, f: string, b: nat, e: CacheEntry)
    requires Linked(files, recent, next) && f in files && b !in files[f].entries && e.useRecord == next
    ensures Linked(files[f := files[f].(entries := files[f].entries[b := e])], recent + [UseRecord(next, f, b)],
                   next + 1)
  {
    var files' := files[f := files[f].(entries := files[f].entries[b := e])];
    var recent' := recent + [UseRecord(next, f, b)];
    forall i | 0 <= i < |recent'| ensures PointsBack(files', recent'[i]) && recent'[i].handle < next + 1 {
      if i < |recent| {
        assert PointsBack(files, recent[i]);
      }
    }
    forall i, j | 0 <= i < j < |recent'| ensures HandleAt(recent', i) != HandleAt(recent', j) {
      assert PointsBack(files, recent[i]);
      if j < |recent| {
        assert HandleAt(recent, i) != HandleAt(recent, j);
      }
    }
    forall g, c | HasEntry(files', g, c) ensures RecordOf(files', g, c) in recent' {
      if g == f && c == b {
        assert recent'[|recent|] == UseRecord(next, f, b);
      } else {
        assert RecordOf(files, g, c) in recent;
      }
    }
  }

  /** Both maps cache the same blocks under the same records. */
  ghost predicate SameShape(files: FileMap, files': FileMap) {
    && (forall f, b :: HasEntry(files, f, b) <==> HasEntry(files', f, b))
    && (forall f, b :: HasEntry(files, f, b) ==> files'[f].entries[b].useRecord == files[f].entries[b].useRecord)
  }

  lemma LinkedIfSameShape(files: FileMap, files': FileMap, recent: seq<UseRecord>, next: nat)
    requires Linked(files, recent, next) && SameShape(files, files')
    ensures Linked(files', recent, next)
  {
    forall i | 0 <= i < |recent| ensures PointsBack(files', recent[i]) && recent[i].handle < next {
      assert PointsBack(files, recent[i]);
    }
    forall f, b | HasEntry(files', f, b) ensures RecordOf(files', f, b) in recent {
      assert HasEntry(files, f, b);
      assert RecordOf(files, f, b) in recent;
    }
  }

  lemma InRemoveAt<T>(s: seq<T>, k: nat, x: T)
    requires k < |s| && x in s && x != s[k]
    ensures x in RemoveAt(s, k)
  {
    var i :| 0 <= i < |s| && s[i] == x;
    assert RemoveAt(s, k)[if i < k then i else i - 1] == x;
  }

  lemma LinkedAfterDelete(files: FileMap, recent: seq<UseRecord>, next: nat, f: string, b: nat, k: nat)
    requires Linked(files, recent, next) && HasEntry(files, f, b)
    requires k < |recent| && recent[k] == UseRecord(files[f].entries[b].useRecord, f, b)
    ensures Linked(files[f := files[f].(entries := files[f].entries - {b})], RemoveAt(recent, k), next)
  {
    var files' := files[f := files[f].(entries := files[f].entries - {b})];
    var recent' := RemoveAt(recent, k);
    forall i | 0 <= i < |recent'| ensures PointsBack(files', recent'[i]) && recent'[i].handle < next {
      var j := if i < k then i else i + 1;
      assert recent'[i] == recent[j];
      assert PointsBack(files, recent[j]);
      assert HandleAt(recent, j) != HandleAt(recent, k);
    }
    forall i, j | 0 <= i < j < |recent'| ensures HandleAt(recent', i) != HandleAt(recent', j) {
      assert HandleAt(recent, if i < k then i else i + 1) != HandleAt(recent, if j < k then j else j + 1);
    }
    forall g, c | HasEntry(files', g, c) ensures RecordOf(files', g, c) in recent' {
      assert RecordOf(files, g, c) in recent;
      InRemoveAt(recent, k, RecordOf(files, g, c));
    }
  }

  lemma ToFrontAt<T>(s: seq<T>, k: nat, i: nat)
    requires k < |s| && i < |s|
    ensures ToFront(s, k)[i] == s[if i == 0 then k else if i <= k then i - 1 else i]
  {
  }

  lemma {:induction false} LinkedAfterToFront(files: FileMap, recent: seq<UseRecord>, next: nat, k: nat)
    requires Linked(files, recent, next) && k < |recent|
    ensures Linked(files, ToFront(recent, k), next)
  {
    var recent' := ToFront(recent, k);
    forall i | 0 <= i < |recent'| ensures PointsBack(files, recent'[i]) && recent'[i].handle < next {
      ToFrontAt(recent, k, i);
      assert PointsBack(files, recent[if i == 0 then k else if i <= k then i - 1 else i]);
    }
    forall i, j | 0 <= i < j < |recent'| ensures HandleAt(recent', i) != HandleAt(recent', j) {
      ToFrontAt(recent, k, i);
      ToFrontAt(recent, k, j);
      var i', j' := if i == 0 then k else if i <= k then i - 1 else i, if j <= k then j - 1 else j;
      assert i' < j' || j' < i';
      assert HandleAt(recent, i') != HandleAt(recent, j');
    }
    forall f, b | HasEntry(files, f, b) ensures RecordOf(files, f, b) in recent' {
      InToFront(recent, k, RecordOf(files, f, b));
    }
  }

  lemma InToFront<T>(s: seq<T>, k: nat, x: T)
    requires k < |s| && x in s
    ensures x in ToFront(s, k)
  {
    if x == s[k] {
      assert ToFront(s, k)[0] == x;
    } else {
      InRemoveAt(s, k, x);
    }
  }

  ghost predicate OneRecordPerBlock(recent: seq<UseRecord>) {
    forall i, j :: 0 <= i < j < |recent| ==>
      recent[i].filename != recent[j].filename || recent[i].block != recent[j].block
  }

  /** The list without the records of the given blocks of one file, otherwise in order. */
  function Without(recent: seq<UseRecord>, f: string, blocks: set<nat>): seq<UseRecord> {
    if recent == [] then []
    else if recent[0].filename == f && recent[0].block in blocks then Without(recent[1..], f, blocks)
    else [recent[0]] + Without(recent[1..], f, blocks)
  }

  lemma {:induction false} WithoutNone(recent: seq<UseRecord>, f: string)
    ensures Without(recent, f, {}) == recent
  {
    if recent != [] {
      WithoutNone(recent[1..], f);
    }
  }

  lemma RemoveAtCons(r: UseRecord, s: seq<UseRecord>, k: nat)
    requires 0 < k <= |s|
    ensures RemoveAt([r] + s, k) == [r] + RemoveAt(s, k - 1)
  {
    assert ([r] + s)[..k] == [r] + s[..k - 1];
  }

  /** Dropping one more block from a filtered list is filtering with one more block. */
  lemma {:induction false} WithoutOneMore(recent: seq<UseRecord>, f: string, blocks: set<nat>, b: nat, k: nat)
    requires k < |Without(recent, f, blocks)|
    requires Without(recent, f, blocks)[k].filename == f && Without(recent, f, blocks)[k].block == b
    requires OneRecordPerBlock(recent)
    ensures Without(recent, f, blocks + {b}) == RemoveAt(Without(recent, f, blocks), k)
  {
    var rest := recent[1..];
    if recent[0].filename == f && recent[0].block in blocks {
      WithoutOneMore(rest, f, blocks, b, k);
    } else if k == 0 {
      assert recent[0].filename == f && recent[0].block == b;
      WithoutAbsent(rest, f, blocks, b);
    } else {
      var filtered := Without(rest, f, blocks);
      assert Without(recent, f, blocks) == [recent[0]] + filtered;
      WithoutOneMore(rest, f, blocks, b, k - 1);
      WithoutIsSubset(rest, f, blocks, k - 1);
      assert !(recent[0].filename == f && recent[0].block == b);
      RemoveAtCons(recent[0], filtered, k);
    }
  }

  lemma {:induction false} WithoutAbsent(recent: seq<UseRecord>, f: string, blocks: set<nat>, b: nat)
    requires forall i :: 0 <= i < |recent| ==> !(recent[i].filename == f && recent[i].block == b)
    ensures Without(recent, f, blocks + {b}) == Without(recent, f, blocks)
  {
    if recent != [] {
      WithoutAbsent(recent[1..], f, blocks, b);
    }
  }

  lemma {:induction false} WithoutIsSubset(recent: seq<UseRecord>, f: string, blocks: set<nat>, k: nat)
    requires k < |Without(recent, f, blocks)|
    ensures exists i :: 0 <= i < |recent| && recent[i] == Without(recent, f, blocks)[k]
  {
    if recent[0].filename == f && recent[0].block in blocks {
      WithoutIsSubset(recent[1..], f, blocks, k);
      var i :| 0 <= i < |recent[1..]| && recent[1..][i] == Without(recent, f, blocks)[k];
      assert recent[i + 1] == Without(recent, f, blocks)[k];
    } else if k > 0 {
      WithoutIsSubset(recent[1..], f, blocks, k - 1);
      var i :| 0 <= i < |recent[1..]| && recent[1..][i] == Without(recent[1..], f, blocks)[k - 1];
      assert recent[i + 1] == Without(recent, f, blocks)[k];
    }
  }

  lemma {:induction false} WithoutIsShorter(recent: seq<UseRecord>, f: string, blocks: set<nat>)
    ensures |Without(recent, f, blocks)| <= |recent|
  {
    if recent != [] {
      WithoutIsShorter(recent[1..], f, blocks);
    }
  }

  lemma LinkedMeansDistinct(files: FileMap, recent: seq<UseRecord>, next: nat)
    requires Linked(files, recent, next)
    ensures OneRecordPerBlock(recent)
  {
    forall i, j | 0 <= i < j < |recent|
      ensures recent[i].filename != recent[j].filename || recent[i].block != recent[j].block
    {
      assert PointsBack(files, recent[i]) && PointsBack(files, recent[j]);
      assert HandleAt(recent, i) != HandleAt(recent, j);
    }
  }

  // ------------------------------------------------------ what operations do to the order

  function BlockRange(first: nat, end: nat): (blocks: set<nat>)
    ensures forall b :: b in blocks <==> first <= b < end
  {
    if end <= first then {} else BlockRange(first, end - 1) + {end - 1}
  }

  predicate IsOf(r: UseRecord, f: string, first: nat, end: nat) {
    r.filename == f && first <= r.block < end
  }

  /** Records of blocks in a range of one file, if any, have been added at the tail. */
  ghost predicate Extended(recent: seq<UseRecord>, recent': seq<UseRecord>, f: string, first: nat, end: nat) {
    && |recent| <= |recent'| && recent'[..|recent|] == recent
    && forall k :: |recent| <= k < |recent'| ==> IsOf(recent'[k], f, first, end)
  }

  /** The records of a range of blocks come first, the last block's at the head; the others keep their order. */
  ghost predicate ReadFirst(recent: seq<UseRecord>, recent': seq<UseRecord>, f: string, first: nat, end: nat) {
    && first <= end <= first + |recent'|
    && (forall k :: 0 <= k < end - first ==> recent'[k].filename == f && recent'[k].block == end - 1 - k)
    && recent'[end - first..] == Without(recent, f, BlockRange(first, end))
  }

  /** The records of some blocks of one file are gone; the others keep their order. */
  ghost predicate Filtered(recent: seq<UseRecord>, recent': seq<UseRecord>, f: string) {
    exists blocks :: recent' == Without(recent, f, blocks)
  }

  lemma FilteredNone(recent: seq<UseRecord>, f: string)
    ensures Filtered(recent, recent, f)
  {
    WithoutNone(recent, f);
  }

  /** A second extension within the range of the first. */
  lemma ExtendedMore(a: seq<UseRecord>, b: seq<UseRecord>, c: seq<UseRecord>, f: string, first: nat, end: nat, x: nat,
                     y: nat)
    requires Extended(a, b, f, first, end) && Extended(b, c, f, x, y) && first <= x && y <= end
    ensures Extended(a, c, f, first, end)
  {
    assert c[..|a|] == c[..|b|][..|a|];
    forall k | |a| <= k < |c| ensures IsOf(c[k], f, first, end) {
      assert k < |b| ==> c[k] == c[..|b|][k];
    }
  }

  lemma {:induction false} WithoutConcat(a: seq<UseRecord>, b: seq<UseRecord>, f: string, blocks: set<nat>)
    ensures Without(a + b, f, blocks) == Without(a, f, blocks) + Without(b, f, blocks)
  {
    if a == [] {
      assert a + b == b;
    } else {
      assert (a + b)[1..] == a[1..] + b;
      WithoutConcat(a[1..], b, f, blocks);
    }
  }

  lemma {:induction false} WithoutAllOf(recent: seq<UseRecord>, f: string, first: nat, end: nat)
    requires forall k :: 0 <= k < |recent| ==> IsOf(recent[k], f, first, end)
    ensures Without(recent, f, BlockRange(first, end)) == []
  {
    if recent != [] {
      assert IsOf(recent[0], f, first, end);
      WithoutAllOf(recent[1..], f, first, end);
    }
  }

  /** What was added for the blocks read does not matter once they come first. */
  lemma ReadFirstAfterExtended(a: seq<UseRecord>, b: seq<UseRecord>, c: seq<UseRecord>, f: string, first: nat, end: nat)
    requires Extended(a, b, f, first, end) && ReadFirst(b, c, f, first, end)
    ensures ReadFirst(a, c, f, first, end)
  {
    assert b == a + b[|a|..];
    WithoutConcat(a, b[|a|..], f, BlockRange(first, end));
    WithoutAllOf(b[|a|..], f, first, end);
  }

  /** One block more comes first. */
  lemma ReadFirstNext(recent: seq<UseRecord>, mid: seq<UseRecord>, k: nat, f: string, first: nat, b: nat)
    requires OneRecordPerBlock(recent) && OneRecordPerBlock(mid) && first <= b && ReadFirst(recent, mid, f, first, b)
    requires k < |mid| && mid[k].filename == f && mid[k].block == b
    ensures ReadFirst(recent, ToFront(mid, k), f, first, b + 1)
  {
    var n, after := b - first, ToFront(mid, k);
    assert k >= n;
    var tail := mid[n..];
    assert tail[k - n] == mid[k];
    WithoutOneMore(recent, f, BlockRange(first, b), b, k - n);
    assert BlockRange(first, b) + {b} == BlockRange(first, b + 1);
    assert after[n + 1..] == RemoveAt(tail, k - n);
    forall i | 0 <= i < n + 1 ensures after[i].filename == f && after[i].block == b - i {
      ToFrontAt(mid, k, i);
    }
  }

  lemma ReadFirstNone(recent: seq<UseRecord>, f: string, first: nat)
    ensures ReadFirst(recent, recent, f, first, first)
  {
    assert BlockRange(first, first) == {};
    WithoutNone(recent, f);
    assert recent[0..] == recent;
  }

  // -------------------------------------------------------- who is ahead of whom

  datatype BlockId = BlockId(file: string, block: nat)

  predicate Names(r: UseRecord, x: BlockId) {
    r.filename == x.file && r.block == x.block
  }

  predicate IsAmong(x: BlockId, f: string, first: nat, end: nat) {
    x.file == f && first <= x.block < end
  }

  predicate IsListed(recent: seq<UseRecord>, x: BlockId) {
    exists i :: 0 <= i < |recent| && Names(recent[i], x)
  }

  /** The list tells exactly which blocks are cached. */
  ghost predicate Lists(files: FileMap, recent: seq<UseRecord>) {
    forall f, b {:trigger HasEntry(files, f, b)} :: HasEntry(files, f, b) <==> IsListed(recent, BlockId(f, b))
  }

  lemma EntryIsListed(files: FileMap, recent: seq<UseRecord>, next: nat, f: string, b: nat)
    requires Linked(files, recent, next) && HasEntry(files, f, b)
    ensures IsListed(recent, BlockId(f, b))
  {
    var r := RecordOf(files, f, b);
    assert r in recent;
    var i :| 0 <= i < |recent| && recent[i] == r;
    assert Names(recent[i], BlockId(f, b));
  }

  lemma LinkedLists(files: FileMap, recent: seq<UseRecord>, next: nat)
    requires Linked(files, recent, next)
    ensures Lists(files, recent)
  {
    forall f, b ensures HasEntry(files, f, b) <==> IsListed(recent, BlockId(f, b)) {
      if HasEntry(files, f, b) {
        EntryIsListed(files, recent, next, f, b);
      }
      if i :| 0 <= i < |recent| && Names(recent[i], BlockId(f, b)) {
        assert PointsBack(files, recent[i]);
      }
    }
  }

  /** No record of `y` comes before the first of `x`. */
  ghost predicate Outranks(recent: seq<UseRecord>, x: BlockId, y: BlockId) {
    recent == [] || Names(recent[0], x) || (!Names(recent[0], y) && Outranks(recent[1..], x, y))
  }

  /** Wherever `y` is listed, `x` is listed ahead of it. */
  lemma {:induction false} OutranksMeans(recent: seq<UseRecord>, x: BlockId, y: BlockId, j: nat)
    requires Outranks(recent, x, y) && x != y && j < |recent| && Names(recent[j], y)
    ensures exists i :: 0 <= i < j && Names(recent[i], x)
  {
    if !Names(recent[0], x) {
      OutranksMeans(recent[1..], x, y, j - 1);
      var i :| 0 <= i < j - 1 && Names(recent[1..][i], x);
      assert Names(recent[i + 1], x);
    }
  }

  lemma {:induction false} OutranksPrefix(recent: seq<UseRecord>, n: nat, x: BlockId, y: BlockId)
    requires Outranks(recent, x, y) && n <= |recent|
    ensures Outranks(recent[..n], x, y)
  {
    if n > 0 && !Names(recent[0], x) {
      OutranksPrefix(recent[1..], n - 1, x, y);
      assert recent[..n][1..] == recent[1..][..n - 1];
    }
  }

  lemma {:induction false} OutranksConcat(a: seq<UseRecord>, b: seq<UseRecord>, x: BlockId, y: BlockId)
    requires Outranks(a, x, y) && (IsListed(a, x) || Outranks(b, x, y))
    ensures Outranks(a + b, x, y)
  {
    if a == [] {
      assert a + b == b;
    } else if !Names(a[0], x) {
      if IsListed(a, x) {
        var i :| 0 <= i < |a| && Names(a[i], x);
        assert Names(a[1..][i - 1], x);
      }
      OutranksConcat(a[1..], b, x, y);
      assert (a + b)[1..] == a[1..] + b;
    }
  }

  lemma {:induction false} OutranksFiltered(recent: seq<UseRecord>, f: string, blocks: set<nat>, x: BlockId, y: BlockId)
    requires Outranks(recent, x, y) && !(x.file == f && x.block in blocks)
    ensures Outranks(Without(recent, f, blocks), x, y)
  {
    if recent != [] && !Names(recent[0], x) {
      OutranksFiltered(recent[1..], f, blocks, x, y);
    }
  }

  lemma {:induction false} OutranksAbsent(recent: seq<UseRecord>, x: BlockId, y: BlockId)
    requires forall k :: 0 <= k < |recent| ==> !Names(recent[k], y)
    ensures Outranks(recent, x, y)
  {
    if recent != [] {
      OutranksAbsent(recent[1..], x, y);
    }
  }

  /** Records added at the tail do not come before any that is listed. */
  lemma OutranksExtended(recent: seq<UseRecord>, recent': seq<UseRecord>, f: string, first: nat, end: nat, x: BlockId,
                         y: BlockId)
    requires Extended(recent, recent', f, first, end) && Outranks(recent, x, y) && IsListed(recent, x)
    ensures Outranks(recent', x, y)
  {
    assert recent' == recent + recent'[|recent|..];
    OutranksConcat(recent, recent'[|recent|..], x, y);
  }

  /** A read leaves a block behind the others if it does not read it, and puts those it reads ahead of it. */
  lemma OutranksRead(recent: seq<UseRecord>, recent': seq<UseRecord>, f: string, first: nat, end: nat, x: BlockId,
                     y: BlockId)
    requires ReadFirst(recent, recent', f, first, end) && !IsAmong(y, f, first, end)
    requires IsAmong(x, f, first, end) || Outranks(recent, x, y)
    ensures Outranks(recent', x, y)
  {
    var front, rest := recent'[..end - first], recent'[end - first..];
    assert recent' == front + rest;
    OutranksAbsent(front, x, y);
    if IsAmong(x, f, first, end) {
      assert Names(front[end - 1 - x.block], x);
    } else {
      OutranksFiltered(recent, f, BlockRange(first, end), x, y);
    }
    OutranksConcat(front, rest, x, y);
  }
}
