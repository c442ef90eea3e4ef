/** Scatter/gather copying between memory buffers: fuse-3/lib/buffer.c. */
module BufferVec {

  /** A buffer in memory. */
  datatype Buf = Buf(start: int, size: int)

  function Span(a: int, n: int): (s: seq<int>)
    requires n >= 0
    ensures |s| == n
  {
    seq(n, i requires 0 <= i < n => a + i)
  }

  lemma SpanContains(a: int, n: int, x: int)
    requires n >= 0
    ensures x in Span(a, n) <==> a <= x < a + n
  {
    if a <= x < a + n {
      assert Span(a, n)[x - a] == x;
    }
  }

  ghost predicate CursorOk(bufs: seq<Buf>, idx: int, off: int) {
    && 0 <= idx <= |bufs| && 0 <= off && (forall i :: 0 <= i < |bufs| ==> bufs[i].size >= 0)
    && (idx < |bufs| ==> off <= bufs[idx].size)
  }

  /** The addresses still to come, in order. */
  ghost function Addresses(bufs: seq<Buf>, idx: int, off: int): seq<int>
    requires CursorOk(bufs, idx, off)
    decreases |bufs| - idx
  {
    if idx == |bufs| then []
    else Span(bufs[idx].start + off, bufs[idx].size - off) + Addresses(bufs, idx + 1, 0)
  }

  /** The largest size there is. */
  const SIZE_MAX: int := 0xffff_ffff_ffff_ffff

  ghost function SumUpTo(bufs: seq<Buf>, n: nat): int
    requires n <= |bufs|
  {
    if n == 0 then 0 else SumUpTo(bufs, n - 1) + bufs[n - 1].size
  }

  /** The last of the first `n` buffers whose size is unknown, or -1. */
  ghost function LastUnknown(bufs: seq<Buf>, n: nat): (k: int)
    requires n <= |bufs|
    ensures -1 <= k < n && (k >= 0 ==> bufs[k].size == SIZE_MAX)
    ensures forall i :: k < i < n ==> bufs[i].size != SIZE_MAX
  {
    if n == 0 then -1 else if bufs[n - 1].size == SIZE_MAX then n - 1 else LastUnknown(bufs, n - 1)
  }

  /** What the sum comes to: the sizes after the last unknown one, added to the largest number, or all of them. */
  ghost function SizeUpTo(bufs: seq<Buf>, n: nat): int
    requires n <= |bufs|
  {
    var k := LastUnknown(bufs, n);
    (if k < 0 then SumUpTo(bufs, n) else SIZE_MAX + SumUpTo(bufs, n) - SumUpTo(bufs, k + 1)) % (SIZE_MAX + 1)
  }

  lemma SizeStep(bufs: seq<Buf>, n: nat)
    requires n < |bufs|
    ensures SizeUpTo(bufs, n + 1) ==
            if bufs[n].size == SIZE_MAX then SIZE_MAX else (SizeUpTo(bufs, n) + bufs[n].size) % (SIZE_MAX + 1)
  {
    var k := LastUnknown(bufs, n);
    var sum := if k < 0 then SumUpTo(bufs, n) else SIZE_MAX + SumUpTo(bufs, n) - SumUpTo(bufs, k + 1);
    if bufs[n].size != SIZE_MAX {
      AddModulo(sum, bufs[n].size);
    }
  }

  lemma AddModulo(a: int, b: int)
    ensures (a % (SIZE_MAX + 1) + b) % (SIZE_MAX + 1) == (a + b) % (SIZE_MAX + 1)
  {
  }

  lemma {:induction false} SumIsCount(bufs: seq<Buf>, idx: nat)
    requires idx <= |bufs| && CursorOk(bufs, idx, 0)
    ensures SumUpTo(bufs, |bufs|) - SumUpTo(bufs, idx) == |Addresses(bufs, idx, 0)|
    decreases |bufs| - idx
  {
    if idx < |bufs| {
      SumIsCount(bufs, idx + 1);
    }
  }

  lemma SpanSplits(a: int, n: int, k: int)
    requires 0 <= k <= n
    ensures Span(a, n) == Span(a, k) + Span(a + k, n - k)
  {
  }

  /** Where the cursor is after `len` bytes of the current buffer. */
  function NextIdx(bufs: seq<Buf>, idx: int, off: int, len: int): int
    requires 0 <= idx < |bufs|
  {
    if off + len == bufs[idx].size then idx + 1 else idx
  }

  lemma AdvancePasses(bufs: seq<Buf>, idx: int, off: int, len: int, off': int)
    requires CursorOk(bufs, idx, off) && idx < |bufs| && 0 <= len <= bufs[idx].size - off
    requires var idx' := NextIdx(bufs, idx, off, len);
             CursorOk(bufs, idx', off') && (idx' < |bufs| ==> off' == if idx' == idx then off + len else 0)
    ensures Addresses(bufs, idx, off) ==
            Span(bufs[idx].start + off, len) + Addresses(bufs, NextIdx(bufs, idx, off, len), off')
  {
    var a, n := bufs[idx].start + off, bufs[idx].size - off;
    SpanSplits(a, n, len);
    var idx' := NextIdx(bufs, idx, off, len);
    if idx' == idx {
      var rest := Addresses(bufs, idx + 1, 0);
      assert Span(a, len) + Span(a + len, n - len) + rest == Span(a, len) + (Span(a + len, n - len) + rest);
    } else {
      assert n == len;
      if idx' < |bufs| {
        assert off' == 0;
      }
    }
  }

  class BufVec {
    const bufs: seq<Buf>
    var idx: int
    var off: int

    ghost predicate Valid() reads this {
      CursorOk(bufs, idx, off)
    }

    ghost function Rest(): seq<int> reads this
      requires Valid()
    {
      Addresses(bufs, idx, off)
    }

    constructor (bufs: seq<Buf>)
      requires forall i :: 0 <= i < |bufs| ==> bufs[i].size >= 0
      ensures Valid() && this.bufs == bufs && idx == 0 && off == 0
    {
      this.bufs := bufs;
      idx, off := 0, 0;
    }

    /** `fuse_buf_size`: the sum of the sizes, in 64-bit arithmetic, that begins anew from the largest number at
        each buffer of that size, which stands for an unknown one. */
    method Size() returns (size: int)
      requires Valid()
      ensures size == SizeUpTo(bufs, |bufs|)
      ensures (forall i :: 0 <= i < |bufs| ==> bufs[i].size != SIZE_MAX) && |Addresses(bufs, 0, 0)| <= SIZE_MAX ==>
                size == |Addresses(bufs, 0, 0)|
    {
      size := 0;
      for i := 0 to |bufs|
        invariant size == SizeUpTo(bufs, i)
      {
        SizeStep(bufs, i);
        if bufs[i].size == SIZE_MAX {
          size := SIZE_MAX;
        } else {
          size := (size + bufs[i].size) % (SIZE_MAX + 1);
        }
      }
      if forall i :: 0 <= i < |bufs| ==> bufs[i].size != SIZE_MAX {
        SumIsCount(bufs, 0);
      }
    }

    /** `fuse_bufvec_advance`: says whether there is a current buffer left. */
    method Advance(len: int) returns (more: bool)
      requires Valid() && idx < |bufs| && 0 <= len <= bufs[idx].size - off
      modifies this
      ensures Valid() && idx == NextIdx(bufs, old(idx), old(off), len) && (more <==> idx < |bufs|)
      ensures more ==> off == if idx == old(idx) then old(off) + len else 0
      ensures old(Rest()) == Span(bufs[old(idx)].start + old(off), len) + Rest()
    {
      more := true;
      off := off + len;
      if off == bufs[idx].size {
        idx := idx + 1;
        if idx == |bufs| {
          more := false;
        } else {
          off := 0;
        }
      }
      AdvancePasses(bufs, old(idx), old(off), len, off);
    }
  }

  // ------------------------------------------------------------------ pieces

  /** What one round of the copy moves. */
  datatype Piece = Piece(dst: int, src: int, len: int)

  ghost predicate Fits(p: Piece, size: int) {
    0 <= p.len && (p.len > 0 ==> 0 <= p.dst && p.dst + p.len <= size && 0 <= p.src && p.src + p.len <= size)
  }

  /** The memory once `p` has been moved as if all at once. */
  ghost function Moved(mem: seq<int>, p: Piece): (r: seq<int>)
    requires Fits(p, |mem|)
    ensures |r| == |mem|
  {
    seq(|mem|, a requires 0 <= a < |mem| => if p.dst <= a < p.dst + p.len then mem[p.src + (a - p.dst)] else mem[a])
  }

  lemma MovedAt(mem: seq<int>, p: Piece, a: int)
    requires Fits(p, |mem|) && 0 <= a < |mem|
    ensures Moved(mem, p)[a] == if p.dst <= a < p.dst + p.len then mem[p.src + (a - p.dst)] else mem[a]
  {
  }

  ghost predicate AllFit(pieces: seq<Piece>, size: int) {
    forall k :: 0 <= k < |pieces| ==> Fits(pieces[k], size)
  }

  /** The memory once the pieces have been moved one after the other. */
  ghost function MovedAll(mem: seq<int>, pieces: seq<Piece>): (r: seq<int>)
    requires AllFit(pieces, |mem|)
    ensures |r| == |mem|
    decreases |pieces|
  {
    if pieces == [] then mem else MovedAll(Moved(mem, pieces[0]), pieces[1..])
  }

  ghost function Total(pieces: seq<Piece>): int {
    if pieces == [] then 0 else pieces[0].len + Total(pieces[1..])
  }

  ghost function Piecewise(len: int, off: int, bufs: seq<Buf>, idx: int): int
    requires 0 <= idx < |bufs|
  {
    if NextIdx(bufs, idx, off, len) == idx then off + len else 0
  }

  /** The pieces that two lists of buffers are cut into where a buffer of either ends. */
  ghost function Pieces(src: seq<Buf>, s: int, soff: int, dst: seq<Buf>, d: int, doff: int): seq<Piece>
    requires CursorOk(src, s, soff) && CursorOk(dst, d, doff)
    decreases |src| - s + |dst| - d
  {
    if s == |src| || d == |dst| then []
    else
      var len := Min(src[s].size - soff, dst[d].size - doff);
      [Piece(dst[d].start + doff, src[s].start + soff, len)] +
      Pieces(src, NextIdx(src, s, soff, len), Piecewise(len, soff, src, s),
             dst, NextIdx(dst, d, doff, len), Piecewise(len, doff, dst, d))
  }

  /** The cursor after `len` bytes of the current buffer; past the last buffer the offset does not matter. */
  ghost predicate Steps(bufs: seq<Buf>, idx: int, off: int, len: int, idx': int, off': int)
    requires 0 <= idx < |bufs|
  {
    idx' == NextIdx(bufs, idx, off, len) && 0 <= off' && (idx' < |bufs| ==> off' == Piecewise(len, off, bufs, idx))
  }

  lemma PiecesUnfold(src: seq<Buf>, s: int, soff: int, dst: seq<Buf>, d: int, doff: int, s': int, soff': int, d': int,
                     doff': int)
    requires CursorOk(src, s, soff) && CursorOk(dst, d, doff) && s < |src| && d < |dst|
    requires var len := Min(src[s].size - soff, dst[d].size - doff);
             Steps(src, s, soff, len, s', soff') && Steps(dst, d, doff, len, d', doff')
    ensures CursorOk(src, s', soff') && CursorOk(dst, d', doff')
    ensures var pieces := Pieces(src, s, soff, dst, d, doff);
            && pieces != [] && pieces[0] == NextPiece(src, s, soff, dst, d, doff)
            && pieces[1..] == Pieces(src, s', soff', dst, d', doff')
  {
  }

  /** The piece of the next round. */
  function NextPiece(src: seq<Buf>, s: int, soff: int, dst: seq<Buf>, d: int, doff: int): Piece
    requires 0 <= s < |src| && 0 <= d < |dst|
  {
    Piece(dst[d].start + doff, src[s].start + soff, Min(src[s].size - soff, dst[d].size - doff))
  }

  function Min(a: int, b: int): int {
    if a < b then a else b
  }

  ghost predicate Inside(addresses: seq<int>, n: int) {
    forall k :: 0 <= k < |addresses| ==> 0 <= addresses[k] < n
  }

  /** Piece by piece, the addresses of the sources are `from`, and those of the targets are `to`. */
  ghost predicate Cuts(pieces: seq<Piece>, from: seq<int>, to: seq<int>) {
    if pieces == [] then from == [] || to == []
    else
      var p := pieces[0];
      && 0 <= p.len <= |from| && p.len <= |to|
      && from[..p.len] == Span(p.src, p.len) && to[..p.len] == Span(p.dst, p.len)
      && Cuts(pieces[1..], from[p.len..], to[p.len..])
  }

  /** The pieces run through both lists of addresses in order, until one of them ends. */
  lemma {:induction false} PiecesCut(src: seq<Buf>, s: int, soff: int, dst: seq<Buf>, d: int, doff: int)
    requires CursorOk(src, s, soff) && CursorOk(dst, d, doff)
    ensures Cuts(Pieces(src, s, soff, dst, d, doff), Addresses(src, s, soff), Addresses(dst, d, doff))
    decreases |src| - s + |dst| - d
  {
    if s < |src| && d < |dst| {
      var len := Min(src[s].size - soff, dst[d].size - doff);
      var s', soff', d', doff' := NextIdx(src, s, soff, len), Piecewise(len, soff, src, s),
                                  NextIdx(dst, d, doff, len), Piecewise(len, doff, dst, d);
      AdvancePasses(src, s, soff, len, soff');
      AdvancePasses(dst, d, doff, len, doff');
      PiecesCut(src, s', soff', dst, d', doff');
      var all := Pieces(src, s, soff, dst, d, doff);
      assert all[1..] == Pieces(src, s', soff', dst, d', doff');
      assert Addresses(src, s, soff)[len..] == Addresses(src, s', soff');
      assert Addresses(dst, d, doff)[len..] == Addresses(dst, d', doff');
    }
  }

  lemma {:induction false} CutsFit(pieces: seq<Piece>, from: seq<int>, to: seq<int>, size: int)
    requires Cuts(pieces, from, to) && Inside(from, size) && Inside(to, size)
    ensures AllFit(pieces, size) && Total(pieces) == Min(|from|, |to|)
  {
    if pieces != [] {
      var p := pieces[0];
      if p.len > 0 {
        assert from[0] == from[..p.len][0] && from[p.len - 1] == from[..p.len][p.len - 1];
        assert to[0] == to[..p.len][0] && to[p.len - 1] == to[..p.len][p.len - 1];
      }
      CutsFit(pieces[1..], from[p.len..], to[p.len..], size);
      assert pieces == [p] + pieces[1..];
    }
  }

  // ------------------------------------------------- what the pieces amount to

  /** The first `n` addresses of `to` have taken the bytes at those of `from`; nothing else has changed. */
  ghost predicate Copied(before: seq<int>, after: seq<int>, from: seq<int>, to: seq<int>, n: int) {
    && 0 <= n <= |from| && n <= |to| && |after| == |before| && Inside(from, |before|) && Inside(to, |before|)
    && (forall k :: 0 <= k < n ==> after[to[k]] == before[from[k]])
    && (forall a :: 0 <= a < |before| && a !in to[..n] ==> after[a] == before[a])
  }

  ghost predicate Apart(a: int, b: int, n: int, m: int) {
    n <= 0 || m <= 0 || a + n <= b || b + m <= a
  }

  /** What a piece writes, no later piece reads or writes; a piece may well write where it reads. */
  ghost predicate NoneReread(pieces: seq<Piece>) {
    forall i, j :: 0 <= i < j < |pieces| ==>
      && Apart(pieces[i].dst, pieces[j].src, pieces[i].len, pieces[j].len)
      && Apart(pieces[i].dst, pieces[j].dst, pieces[i].len, pieces[j].len)
  }

  /** No piece reads or writes any of these addresses. */
  ghost predicate OffLimits(pieces: seq<Piece>, addresses: seq<int>) {
    forall i, k :: 0 <= i < |pieces| && 0 <= k < |addresses| ==> OffPiece(pieces[i], addresses[k])
  }

  predicate OffPiece(p: Piece, a: int) {
    !(p.src <= a < p.src + p.len) && !(p.dst <= a < p.dst + p.len)
  }

  lemma CopyStep(before: seq<int>, mid: seq<int>, from: seq<int>, to: seq<int>, n: int, p: Piece)
    requires Copied(before, mid, from, to, n) && Fits(p, |before|) && n + p.len <= |from| && n + p.len <= |to|
    requires from[n..n + p.len] == Span(p.src, p.len) && to[n..n + p.len] == Span(p.dst, p.len)
    requires forall k :: 0 <= k < n ==> OffPiece(p, to[..n][k])
    ensures Copied(before, Moved(mid, p), from, to, n + p.len)
  {
    var after := Moved(mid, p);
    forall k | 0 <= k < n + p.len ensures after[to[k]] == before[from[k]] {
      if k < n {
        assert OffPiece(p, to[..n][k]);
        MovedAt(mid, p, to[k]);
      } else {
        assert from[k] == from[n..n + p.len][k - n] == p.src + (k - n);
        assert to[k] == to[n..n + p.len][k - n] == p.dst + (k - n);
        assert from[k] !in to[..n];
        MovedAt(mid, p, to[k]);
      }
    }
    forall a | 0 <= a < |before| && a !in to[..n + p.len] ensures after[a] == before[a] {
      SpanContains(p.dst, p.len, a);
      assert to[..n + p.len] == to[..n] + to[n..n + p.len];
      assert a !in to[n..n + p.len];
      MovedAt(mid, p, a);
    }
  }

  lemma StillOff(pieces: seq<Piece>, to: seq<int>, n: int)
    requires pieces != [] && NoneReread(pieces) && 0 <= n && 0 <= pieces[0].len && n + pieces[0].len <= |to|
    requires OffLimits(pieces, to[..n]) && to[n..n + pieces[0].len] == Span(pieces[0].dst, pieces[0].len)
    ensures NoneReread(pieces[1..]) && OffLimits(pieces[1..], to[..n + pieces[0].len])
  {
    var p, rest, done := pieces[0], pieces[1..], to[..n + pieces[0].len];
    forall i, k | 0 <= i < |rest| && 0 <= k < |done| ensures OffPiece(rest[i], done[k]) {
      assert rest[i] == pieces[i + 1];
      if k < n {
        assert OffPiece(pieces[i + 1], to[..n][k]);
      } else {
        assert to[k] == to[n..n + p.len][k - n] == p.dst + (k - n);
        assert Apart(p.dst, pieces[i + 1].src, p.len, pieces[i + 1].len);
        assert Apart(p.dst, pieces[i + 1].dst, p.len, pieces[i + 1].len);
      }
    }
  }

  lemma FirstCopied(before: seq<int>, mid: seq<int>, pieces: seq<Piece>, from: seq<int>, to: seq<int>, n: int)
    requires Copied(before, mid, from, to, n) && Cuts(pieces, from[n..], to[n..]) && AllFit(pieces, |before|)
    requires NoneReread(pieces) && OffLimits(pieces, to[..n]) && pieces != []
    ensures var p, rest := pieces[0], pieces[1..];
            && Fits(p, |mid|) && Copied(before, Moved(mid, p), from, to, n + p.len)
            && Cuts(rest, from[n + p.len..], to[n + p.len..]) && AllFit(rest, |before|)
            && NoneReread(rest) && OffLimits(rest, to[..n + p.len])
  {
    var p := pieces[0];
    assert from[n..n + p.len] == from[n..][..p.len] && to[n..n + p.len] == to[n..][..p.len];
    assert Fits(pieces[0], |before|);
    forall k | 0 <= k < n ensures OffPiece(p, to[..n][k]) {
      assert OffPiece(pieces[0], to[..n][k]);
    }
    CopyStep(before, mid, from, to, n, p);
    StillOff(pieces, to, n);
    assert from[n..][p.len..] == from[n + p.len..] && to[n..][p.len..] == to[n + p.len..];
  }

  /** Pieces of which none reads or writes what an earlier one has written amount to one copy of all bytes at once. */
  lemma {:induction false} PiecesCopy(before: seq<int>, mid: seq<int>, pieces: seq<Piece>, from: seq<int>, to: seq<int>,
                                      n: int)
    requires Copied(before, mid, from, to, n) && Cuts(pieces, from[n..], to[n..]) && AllFit(pieces, |before|)
    requires NoneReread(pieces) && OffLimits(pieces, to[..n])
    ensures Copied(before, MovedAll(mid, pieces), from, to, n + Total(pieces))
    decreases |pieces|
  {
    if pieces != [] {
      FirstCopied(before, mid, pieces, from, to, n);
      PiecesCopy(before, Moved(mid, pieces[0]), pieces[1..], from, to, n + pieces[0].len);
    }
  }

  /** No byte is written twice, and none that is read is written. */
  ghost predicate Disjoint(from: seq<int>, to: seq<int>) {
    && (forall i, j :: 0 <= i < j < |to| ==> to[i] != to[j])
    && (forall i, j :: 0 <= i < |from| && 0 <= j < |to| ==> from[i] != to[j])
  }

  /** A piece's addresses are among those it was cut from. */
  lemma {:induction false} CutInside(pieces: seq<Piece>, from: seq<int>, to: seq<int>, j: int, x: int) returns (k: int)
    requires Cuts(pieces, from, to) && 0 <= j < |pieces| && 0 <= x < pieces[j].len
    ensures 0 <= k < |from| && k < |to| && from[k] == pieces[j].src + x && to[k] == pieces[j].dst + x
    decreases |pieces|
  {
    var p := pieces[0];
    if j == 0 {
      k := x;
      assert from[k] == from[..p.len][k] && to[k] == to[..p.len][k];
    } else {
      var k' := CutInside(pieces[1..], from[p.len..], to[p.len..], j - 1, x);
      k := k' + p.len;
    }
  }

  lemma {:induction false} DisjointNoneReread(pieces: seq<Piece>, from: seq<int>, to: seq<int>)
    requires Cuts(pieces, from, to) && Disjoint(from, to)
    ensures NoneReread(pieces)
  {
    if pieces != [] {
      var p := pieces[0];
      DisjointNoneReread(pieces[1..], from[p.len..], to[p.len..]);
      forall i, j | 0 <= i < j < |pieces|
        ensures Apart(pieces[i].dst, pieces[j].src, pieces[i].len, pieces[j].len)
        ensures Apart(pieces[i].dst, pieces[j].dst, pieces[i].len, pieces[j].len)
      {
        if i == 0 {
          FirstApart(pieces, from, to, j);
        } else {
          assert pieces[i] == pieces[1..][i - 1] && pieces[j] == pieces[1..][j - 1];
        }
      }
    }
  }

  lemma SharedAddress(pieces: seq<Piece>, from: seq<int>, to: seq<int>, j: int, x: int, a: int) returns (i: int, k: int)
    requires Cuts(pieces, from, to) && 0 < j < |pieces| && 0 <= x < pieces[j].len
    requires pieces[0].dst <= a < pieces[0].dst + pieces[0].len
    ensures 0 <= i < k < |to| && k < |from| && to[i] == a
    ensures from[k] == pieces[j].src + x && to[k] == pieces[j].dst + x
  {
    var p := pieces[0];
    i := a - p.dst;
    assert to[i] == to[..p.len][i];
    k := CutInside(pieces[1..], from[p.len..], to[p.len..], j - 1, x);
    k := k + p.len;
  }

  lemma FirstApart(pieces: seq<Piece>, from: seq<int>, to: seq<int>, j: int)
    requires Cuts(pieces, from, to) && Disjoint(from, to) && 0 < j < |pieces|
    ensures Apart(pieces[0].dst, pieces[j].src, pieces[0].len, pieces[j].len)
    ensures Apart(pieces[0].dst, pieces[j].dst, pieces[0].len, pieces[j].len)
  {
    var p, q := pieces[0], pieces[j];
    if !Apart(p.dst, q.src, p.len, q.len) {
      var a := if p.dst <= q.src then q.src else p.dst;
      var i, k := SharedAddress(pieces, from, to, j, a - q.src, a);
      assert false;
    }
    if !Apart(p.dst, q.dst, p.len, q.len) {
      var a := if p.dst <= q.dst then q.dst else p.dst;
      var i, k := SharedAddress(pieces, from, to, j, a - q.dst, a);
      assert false;
    }
  }

  /** Otherwise they need not: two bytes, each a buffer of its own, moved up by one come out as the first one twice. */
  lemma RereadBytesDiffer()
    ensures var c := Start([1, 2, 3], [Buf(0, 1), Buf(1, 1)], 0, 0, [Buf(1, 1), Buf(2, 1)], 0, 0);
            && c.Ok() && c.Cut() == [Piece(1, 0, 1), Piece(2, 1, 1)] && AllFit(c.Cut(), 3)
            && MovedAll(c.mem, c.Cut()) == [1, 1, 1] && !Copied(c.mem, [1, 1, 1], c.From(), c.To(), 2)
  {
    var c := Start([1, 2, 3], [Buf(0, 1), Buf(1, 1)], 0, 0, [Buf(1, 1), Buf(2, 1)], 0, 0);
    assert Addresses(c.src, 2, 0) == [] && Addresses(c.dst, 2, 0) == [];
    assert Addresses(c.src, 1, 0) == [1] && Addresses(c.dst, 1, 0) == [2];
    assert c.From() == [0, 1] && c.To() == [1, 2];
    assert Pieces(c.src, 2, 0, c.dst, 2, 0) == [];
    assert Pieces(c.src, 1, 0, c.dst, 1, 0) == [Piece(2, 1, 1)];
    assert c.Cut() == [Piece(1, 0, 1), Piece(2, 1, 1)];
    assert Moved([1, 2, 3], Piece(1, 0, 1)) == [1, 1, 3] && Moved([1, 1, 3], Piece(2, 1, 1)) == [1, 1, 1];
    assert c.Cut()[1..] == [Piece(2, 1, 1)];
    assert MovedAll([1, 1, 3], [Piece(2, 1, 1)]) == [1, 1, 1];
    assert [1, 1, 1][c.To()[1]] != c.mem[c.From()[1]];
  }

  // -------------------------------------------------------------- the methods

  /** The memory-to-memory case of `fuse_buf_copy_one`. */
  method CopyOne(mem: array<int>, p: Piece) returns (res: int)
    requires Fits(p, mem.Length)
    modifies mem
    ensures res == p.len && mem[..] == Moved(old(mem[..]), p)
  {
    if p.dst != p.src {
      forall i | 0 <= i < p.len {
        mem[p.dst + i] := mem[p.src + i];
      }
    }
    res := p.len;
  }

  /** The bytes of the vector's last buffer, or what was left of it when it was already the current one. */
  ghost function LastPart(bufs: seq<Buf>, idx: int, off: int): int
    requires 0 <= idx < |bufs|
  {
    bufs[|bufs| - 1].size - Began(idx, off, |bufs| - 1)
  }

  /** The source has run out: the destination's cursor is left behind, before the last piece copied. That piece is the
      source's last buffer, or the part of it that did not fit into the destination's buffers before the current one. */
  ghost predicate LeftBehind(src: seq<Buf>, sidx: int, soff: int, dst: seq<Buf>, didx: int, d: int, doff: int,
                             stale: int)
    requires 0 <= sidx < |src|
  {
    var last := LastPart(src, sidx, soff);
    && 0 <= d < |dst| && doff + stale <= dst[d].size
    && stale <= last && (stale > 0 <==> last > 0)
    && (stale == last || (doff == 0 && d > didx))
  }

  /** Where the cursors stand between two rounds of a copy that began at (`sidx`, `soff`) and in buffer `didx`: the
      source is at the start of a buffer, or of what was left of its first one, unless the destination has just
      begun a new one. */
  ghost predicate Cursors(src: seq<Buf>, sidx: int, soff: int, didx: int, s: int, so: int, d: int, doff: int) {
    && sidx <= s && didx <= d && 0 <= s
    && (s < |src| ==> so < src[s].size || so == Began(sidx, soff, s))
    && Began(sidx, soff, s) <= so && (so == Began(sidx, soff, s) || (doff == 0 && d > didx))
  }

  ghost function Began(sidx: int, soff: int, s: int): int {
    if s == sidx then soff else 0
  }

  /** One round of the copy, whose piece has `len` bytes. */
  lemma CursorsNext(src: seq<Buf>, sidx: int, soff: int, dst: seq<Buf>, didx: int, s: int, so: int, d: int, doff: int,
                    len: int)
    requires CursorOk(src, s, so) && CursorOk(dst, d, doff) && s < |src| && d < |dst| && 0 <= sidx
    requires Cursors(src, sidx, soff, didx, s, so, d, doff) && len == Min(src[s].size - so, dst[d].size - doff)
    ensures NextIdx(src, s, so, len) == |src| ==> LeftBehind(src, sidx, soff, dst, didx, d, doff, len)
    ensures NextIdx(src, s, so, len) < |src| && NextIdx(dst, d, doff, len) < |dst| ==>
              Cursors(src, sidx, soff, didx, NextIdx(src, s, so, len), Piecewise(len, so, src, s),
                      NextIdx(dst, d, doff, len), Piecewise(len, doff, dst, d))
  {
  }

  /** The state in which a copy begins. */
  datatype Start = Start(mem: seq<int>, src: seq<Buf>, s: int, soff: int, dst: seq<Buf>, d: int, doff: int) {
    ghost predicate Ok() {
      && CursorOk(src, s, soff) && CursorOk(dst, d, doff)
      && Inside(Addresses(src, s, soff), |mem|) && Inside(Addresses(dst, d, doff), |mem|)
    }

    ghost function From(): seq<int> requires Ok() {
      Addresses(src, s, soff)
    }

    ghost function To(): seq<int> requires Ok() {
      Addresses(dst, d, doff)
    }

    ghost function Cut(): seq<Piece> requires Ok() {
      Pieces(src, s, soff, dst, d, doff)
    }

    /** Nothing written is read later: for instance, because the buffers do not overlap. */
    ghost predicate Separate() requires Ok() {
      Disjoint(From(), To()) || NoneReread(Cut())
    }
  }

  /** What copying does, overlapping or not. The last `stale` bytes copied are still ahead of the destination's cursor:
      none, unless the source has run out. */
  ghost predicate Finished(c: Start, mem: seq<int>, s: int, soff: int, d: int, doff: int, copied: int, stale: int)
    requires c.Ok()
  {
    var ranOut := s == |c.src| && c.s < |c.src| && c.d < |c.dst|;
    && CursorOk(c.src, s, soff) && CursorOk(c.dst, d, doff)
    && AllFit(c.Cut(), |c.mem|) && mem == MovedAll(c.mem, c.Cut())
    && copied == Min(|c.From()|, |c.To()|) && Addresses(c.src, s, soff) == c.From()[copied..]
    && 0 <= stale <= copied && Addresses(c.dst, d, doff) == c.To()[copied - stale..]
    && (!ranOut ==> stale == 0)
    && (ranOut ==> LeftBehind(c.src, c.s, c.soff, c.dst, c.d, d, doff, stale))
  }

  /** Between two rounds: the pieces still to come finish the copy. */
  ghost predicate Underway(c: Start, mem: seq<int>, s: int, soff: int, d: int, doff: int, copied: int)
    requires c.Ok()
  {
    && CursorOk(c.src, s, soff) && CursorOk(c.dst, d, doff)
    && Finishes(c, mem, Pieces(c.src, s, soff, c.dst, d, doff))
    && 0 <= copied <= |c.From()| && copied <= |c.To()|
    && Addresses(c.src, s, soff) == c.From()[copied..] && Addresses(c.dst, d, doff) == c.To()[copied..]
    && (c.s < |c.src| && c.d < |c.dst| ==> s < |c.src|)
    && (d < |c.dst| ==> Cursors(c.src, c.s, c.soff, c.d, s, soff, d, doff))
  }

  ghost predicate Finishes(c: Start, mem: seq<int>, rest: seq<Piece>)
    requires c.Ok()
  {
    AllFit(c.Cut(), |c.mem|) && AllFit(rest, |mem|) && MovedAll(mem, rest) == MovedAll(c.mem, c.Cut())
  }

  lemma UnderwayAtStart(c: Start)
    requires c.Ok()
    ensures Underway(c, c.mem, c.s, c.soff, c.d, c.doff, 0)
  {
    PiecesCut(c.src, c.s, c.soff, c.dst, c.d, c.doff);
    CutsFit(c.Cut(), c.From(), c.To(), |c.mem|);
  }

  lemma UnderwayAtEnd(c: Start, mem: seq<int>, s: int, soff: int, d: int, doff: int, copied: int)
    requires c.Ok() && Underway(c, mem, s, soff, d, doff, copied) && (s == |c.src| || d == |c.dst|)
    ensures Finished(c, mem, s, soff, d, doff, copied, 0)
  {
  }

  lemma FinishesNext(c: Start, mem: seq<int>, rest: seq<Piece>)
    requires c.Ok() && Finishes(c, mem, rest) && rest != []
    ensures Fits(rest[0], |mem|) && Finishes(c, Moved(mem, rest[0]), rest[1..])
  {
  }

  /** The addresses still to come after `len` bytes of the current buffer. */
  lemma CursorPasses(bufs: seq<Buf>, idx: int, off: int, len: int, idx': int, off': int, all: seq<int>, n: int)
    requires CursorOk(bufs, idx, off) && idx < |bufs| && 0 <= len <= bufs[idx].size - off
    requires Steps(bufs, idx, off, len, idx', off') && CursorOk(bufs, idx', off')
    requires 0 <= n <= |all| && Addresses(bufs, idx, off) == all[n..]
    ensures n + len <= |all| && Addresses(bufs, idx', off') == all[n + len..]
  {
    AdvancePasses(bufs, idx, off, len, off');
    assert Addresses(bufs, idx', off') == all[n..][len..];
  }

  /** The pieces still to come after one round finish the copy. */
  lemma RoundFinishes(c: Start, mem: seq<int>, s: int, soff: int, d: int, doff: int, s': int, soff': int, d': int,
                      doff': int)
    requires c.Ok() && CursorOk(c.src, s, soff) && CursorOk(c.dst, d, doff) && s < |c.src| && d < |c.dst|
    requires Finishes(c, mem, Pieces(c.src, s, soff, c.dst, d, doff))
    requires var len := NextPiece(c.src, s, soff, c.dst, d, doff).len;
             Steps(c.src, s, soff, len, s', soff') && Steps(c.dst, d, doff, len, d', doff')
    ensures CursorOk(c.src, s', soff') && CursorOk(c.dst, d', doff')
    ensures var p := NextPiece(c.src, s, soff, c.dst, d, doff);
            Fits(p, |mem|) && Finishes(c, Moved(mem, p), Pieces(c.src, s', soff', c.dst, d', doff'))
  {
    PiecesUnfold(c.src, s, soff, c.dst, d, doff, s', soff', d', doff');
    FinishesNext(c, mem, Pieces(c.src, s, soff, c.dst, d, doff));
  }

  lemma NextFits(c: Start, mem: seq<int>, s: int, soff: int, d: int, doff: int, copied: int)
    requires c.Ok() && Underway(c, mem, s, soff, d, doff, copied) && s < |c.src| && d < |c.dst|
    ensures Fits(NextPiece(c.src, s, soff, c.dst, d, doff), |mem|)
  {
    var len := NextPiece(c.src, s, soff, c.dst, d, doff).len;
    PiecesUnfold(c.src, s, soff, c.dst, d, doff, NextIdx(c.src, s, soff, len), Piecewise(len, soff, c.src, s),
                 NextIdx(c.dst, d, doff, len), Piecewise(len, doff, c.dst, d));
    assert Fits(Pieces(c.src, s, soff, c.dst, d, doff)[0], |mem|);
  }

  /** One round. */
  lemma UnderwayNext(c: Start, mem: seq<int>, s: int, soff: int, d: int, doff: int, copied: int, s': int, soff': int,
                     d': int, doff': int)
    requires c.Ok() && Underway(c, mem, s, soff, d, doff, copied) && s < |c.src| && d < |c.dst|
    requires var len := NextPiece(c.src, s, soff, c.dst, d, doff).len;
             Steps(c.src, s, soff, len, s', soff') && Steps(c.dst, d, doff, len, d', doff')
    ensures Fits(NextPiece(c.src, s, soff, c.dst, d, doff), |mem|)
    ensures var p := NextPiece(c.src, s, soff, c.dst, d, doff);
            if s' < |c.src| then Underway(c, Moved(mem, p), s', soff', d', doff', copied + p.len)
            else Finished(c, Moved(mem, p), s', soff', d, doff, copied + p.len, p.len)
  {
    var p := NextPiece(c.src, s, soff, c.dst, d, doff);
    CursorsNext(c.src, c.s, c.soff, c.dst, c.d, s, soff, d, doff, p.len);
    RoundFinishes(c, mem, s, soff, d, doff, s', soff', d', doff');
    CursorPasses(c.src, s, soff, p.len, s', soff', c.From(), copied);
    CursorPasses(c.dst, d, doff, p.len, d', doff', c.To(), copied);
  }

  /** One round, after which the destination's cursor has moved only if the source has not run out. */
  lemma RoundDone(c: Start, mem: seq<int>, s: int, soff: int, d: int, doff: int, copied: int, s': int, soff': int,
                  d': int, doff': int)
    requires c.Ok() && Underway(c, mem, s, soff, d, doff, copied) && s < |c.src| && d < |c.dst|
    requires var len := NextPiece(c.src, s, soff, c.dst, d, doff).len;
             && Steps(c.src, s, soff, len, s', soff')
             && if s' < |c.src| then Steps(c.dst, d, doff, len, d', doff') else d' == d && doff' == doff
    ensures s <= s' && d <= d' && (s < s' || d < d')
    ensures var p := NextPiece(c.src, s, soff, c.dst, d, doff);
            && Fits(p, |mem|)
            && if s' < |c.src| then Underway(c, Moved(mem, p), s', soff', d', doff', copied + p.len)
               else Finished(c, Moved(mem, p), s', soff', d', doff', copied + p.len, p.len)
  {
    var len := NextPiece(c.src, s, soff, c.dst, d, doff).len;
    if s' < |c.src| {
      UnderwayNext(c, mem, s, soff, d, doff, copied, s', soff', d', doff');
    } else {
      UnderwayNext(c, mem, s, soff, d, doff, copied, s', soff', NextIdx(c.dst, d, doff, len),
                   Piecewise(len, doff, c.dst, d));
    }
  }

  /** `fuse_buf_copy` between memory buffers. */
  method Copy(mem: array<int>, dstv: BufVec, srcv: BufVec) returns (copied: int, ghost stale: int)
    requires dstv.Valid() && srcv.Valid()
    requires dstv != srcv ==> Inside(srcv.Rest(), mem.Length) && Inside(dstv.Rest(), mem.Length)
    modifies mem, dstv, srcv
    ensures dstv.Valid() && srcv.Valid()
    ensures dstv == srcv ==> copied == SizeUpTo(dstv.bufs, |dstv.bufs|) && mem[..] == old(mem[..]) && unchanged(dstv)
    ensures dstv != srcv ==>
              Finished(old(StartOf(mem, dstv, srcv)), mem[..], srcv.idx, srcv.off, dstv.idx, dstv.off, copied, stale)
    ensures dstv != srcv && old(StartOf(mem, dstv, srcv)).Separate() ==>
              Copied(old(mem[..]), mem[..], old(srcv.Rest()), old(dstv.Rest()), copied)
  {
    if dstv == srcv {
      stale := 0;
      copied := dstv.Size();
    } else {
      copied, stale := CopyBetween(mem, dstv, srcv);
      ghost var c := old(StartOf(mem, dstv, srcv));
      if c.Separate() {
        AllCopied(c);
      }
    }
  }

  ghost function StartOf(mem: array<int>, dstv: BufVec, srcv: BufVec): Start
    reads mem, dstv, srcv
  {
    Start(mem[..], srcv.bufs, srcv.idx, srcv.off, dstv.bufs, dstv.idx, dstv.off)
  }

  /** Between buffers that do not overlap, or whose pieces do not read again what was written, the pieces amount to one
      copy. */
  lemma AllCopied(c: Start)
    requires c.Ok() && c.Separate()
    ensures AllFit(c.Cut(), |c.mem|)
    ensures Copied(c.mem, MovedAll(c.mem, c.Cut()), c.From(), c.To(), Min(|c.From()|, |c.To()|))
  {
    PiecesCut(c.src, c.s, c.soff, c.dst, c.d, c.doff);
    CutsFit(c.Cut(), c.From(), c.To(), |c.mem|);
    if Disjoint(c.From(), c.To()) {
      DisjointNoneReread(c.Cut(), c.From(), c.To());
    }
    assert c.From()[0..] == c.From() && c.To()[0..] == c.To();
    PiecesCopy(c.mem, c.mem, c.Cut(), c.From(), c.To(), 0);
  }

  /** One round of the loop, up to the cursors. */
  method CopyPiece(mem: array<int>, dstv: BufVec, srcv: BufVec) returns (res: int)
    requires dstv.Valid() && srcv.Valid() && srcv.idx < |srcv.bufs| && dstv.idx < |dstv.bufs|
    requires Fits(NextPiece(srcv.bufs, srcv.idx, srcv.off, dstv.bufs, dstv.idx, dstv.off), mem.Length)
    modifies mem
    ensures var p := NextPiece(srcv.bufs, srcv.idx, srcv.off, dstv.bufs, dstv.idx, dstv.off);
            res == p.len && Fits(p, |old(mem[..])|) && mem[..] == Moved(old(mem[..]), p)
  {
    var p := NextPiece(srcv.bufs, srcv.idx, srcv.off, dstv.bufs, dstv.idx, dstv.off);
    res := CopyOne(mem, p);
  }

  /** Both cursors advance; the destination's stays where it is if the source runs out. */
  method AdvanceBoth(dstv: BufVec, srcv: BufVec, len: int) returns (more: bool)
    requires dstv.Valid() && srcv.Valid() && dstv != srcv && srcv.idx < |srcv.bufs| && dstv.idx < |dstv.bufs|
    requires 0 <= len <= srcv.bufs[srcv.idx].size - srcv.off && len <= dstv.bufs[dstv.idx].size - dstv.off
    modifies dstv, srcv
    ensures dstv.Valid() && srcv.Valid()
    ensures Steps(srcv.bufs, old(srcv.idx), old(srcv.off), len, srcv.idx, srcv.off)
    ensures more <==> srcv.idx < |srcv.bufs| && dstv.idx < |dstv.bufs|
    ensures if srcv.idx < |srcv.bufs| then Steps(dstv.bufs, old(dstv.idx), old(dstv.off), len, dstv.idx, dstv.off)
            else dstv.idx == old(dstv.idx) && dstv.off == old(dstv.off)
  {
    more := srcv.Advance(len);
    if more {
      more := dstv.Advance(len);
    }
  }

  method CopyBetween(mem: array<int>, dstv: BufVec, srcv: BufVec) returns (copied: int, ghost stale: int)
    requires dstv.Valid() && srcv.Valid() && dstv != srcv
    requires Inside(srcv.Rest(), mem.Length) && Inside(dstv.Rest(), mem.Length)
    modifies mem, dstv, srcv
    ensures dstv.Valid() && srcv.Valid()
    ensures Finished(old(StartOf(mem, dstv, srcv)), mem[..], srcv.idx, srcv.off, dstv.idx, dstv.off, copied, stale)
  {
    copied, stale := 0, 0;
    ghost var c := StartOf(mem, dstv, srcv);
    UnderwayAtStart(c);
    while srcv.idx < |srcv.bufs| && dstv.idx < |dstv.bufs|
      invariant dstv.Valid() && srcv.Valid()
      invariant Underway(c, mem[..], srcv.idx, srcv.off, dstv.idx, dstv.off, copied)
      decreases |srcv.bufs| - srcv.idx + |dstv.bufs| - dstv.idx
    {
      var res, more := CopyRound(mem, dstv, srcv, c, copied);
      copied := copied + res;
      if !more {
        if srcv.idx == |srcv.bufs| {
          stale := res;
          return;
        }
        break;
      }
    }
    UnderwayAtEnd(c, mem[..], srcv.idx, srcv.off, dstv.idx, dstv.off, copied);
  }

  /** One round of the loop, as part of a copy that began in `c`. */
  method CopyRound(mem: array<int>, dstv: BufVec, srcv: BufVec, ghost c: Start, ghost copied: int)
    returns (res: int, more: bool)
    requires dstv.Valid() && srcv.Valid() && dstv != srcv && srcv.idx < |srcv.bufs| && dstv.idx < |dstv.bufs|
    requires c.Ok() && c.src == srcv.bufs && c.dst == dstv.bufs
    requires Underway(c, mem[..], srcv.idx, srcv.off, dstv.idx, dstv.off, copied)
    modifies mem, dstv, srcv
    ensures dstv.Valid() && srcv.Valid() && old(srcv.idx) <= srcv.idx && old(dstv.idx) <= dstv.idx
    ensures old(srcv.idx) < srcv.idx || old(dstv.idx) < dstv.idx
    ensures more <==> srcv.idx < |srcv.bufs| && dstv.idx < |dstv.bufs|
    ensures if srcv.idx < |srcv.bufs| then Underway(c, mem[..], srcv.idx, srcv.off, dstv.idx, dstv.off, copied + res)
            else Finished(c, mem[..], srcv.idx, srcv.off, dstv.idx, dstv.off, copied + res, res)
  {
    ghost var mem0, s, soff, d, doff := mem[..], srcv.idx, srcv.off, dstv.idx, dstv.off;
    NextFits(c, mem0, s, soff, d, doff, copied);
    res := CopyPiece(mem, dstv, srcv);
    more := AdvanceBoth(dstv, srcv, res);
    RoundDone(c, mem0, s, soff, d, doff, copied, srcv.idx, srcv.off, dstv.idx, dstv.off);
  }
}
