/** The reference a cached file is compared with: a plain byte array with
    zero-filled holes, as pread, pwrite and truncate treat a regular file. */
module FlatFile {
  import opened Ranges

  type Byte = b: int | 0 <= b < 256

  /** The byte at `i`, zero past the end. */
  function At(s: seq<Byte>, i: nat): Byte {
    if i < |s| then s[i] else 0
  }

  /** truncate(2): a prefix, or a zero-filled extension. */
  function Resize(s: seq<Byte>, size: nat): (r: seq<Byte>)
    ensures |r| == size
    ensures forall i: nat :: i < size ==> r[i] == At(s, i)
  {
    seq(size, i requires 0 <= i < size => At(s, i))
  }

  /** Overwrites [offset, offset + |data|), filling any hole before it with zeros. */
  function Overwrite(s: seq<Byte>, offset: nat, data: seq<Byte>): (r: seq<Byte>)
    ensures |r| == Max(|s|, offset + |data|)
    ensures forall i: nat :: i < |r| ==>
              r[i] == if offset <= i < offset + |data| then data[i - offset] else At(s, i)
  {
    seq(Max(|s|, offset + |data|), i requires 0 <= i < Max(|s|, offset + |data|) =>
      if offset <= i < offset + |data| then data[i - offset] else At(s, i))
  }

  /** pwrite(2): like Overwrite, except that an empty write leaves the file alone. */
  function PWrite(s: seq<Byte>, offset: nat, data: seq<Byte>): seq<Byte> {
    if data == [] then s else Overwrite(s, offset, data)
  }

  /** pread(2): the bytes of [offset, offset + size) that lie before end of file. */
  function PRead(s: seq<Byte>, offset: nat, size: nat): seq<Byte> {
    if offset >= |s| then [] else s[offset..Min(|s|, offset + size)]
  }

  lemma PReadAt(s: seq<Byte>, offset: nat, size: nat, i: nat)
    requires i < size
    ensures At(PRead(s, offset, size), i) == At(s, offset + i)
  {
  }

  /** Overwrite and pwrite differ exactly on an empty write past end of file. */
  lemma OverwriteIsPWrite(s: seq<Byte>, offset: nat, data: seq<Byte>)
    ensures Overwrite(s, offset, data) == PWrite(s, offset, data) <==> data != [] || offset <= |s|
  {
    if data == [] && offset <= |s| {
      assert Overwrite(s, offset, data) == s;
    }
  }

  /** `lower` with the bytes of `upper` showing through wherever `rs` covers. */
  function Overlay(upper: seq<Byte>, rs: seq<Range>, lower: seq<Byte>): (r: seq<Byte>)
    requires |upper| == |lower|
    ensures |r| == |lower|
    ensures forall i :: 0 <= i < |r| ==> r[i] == if Covers(rs, i) then upper[i] else lower[i]
  {
    seq(|lower|, i requires 0 <= i < |lower| => if Covers(rs, i) then upper[i] else lower[i])
  }

  method OverlayRange(upper: array<Byte>, range: Range, lower: array<Byte>)
    requires upper != lower && upper.Length == lower.Length && range.end <= lower.Length
    modifies lower
    ensures forall i :: 0 <= i < lower.Length ==> lower[i] == if InRange(range, i) then upper[i] else old(lower[i])
  {
    var i := range.start;
    while i < range.end
      invariant range.start <= i && (i <= range.end || i == range.start)
      invariant forall k :: 0 <= k < lower.Length ==>
                  lower[k] == if range.start <= k < i then upper[k] else old(lower[k])
    {
      lower[i] := upper[i];
      i := i + 1;
    }
  }

  method OverlayRanges(upper: array<Byte>, ranges: seq<Range>, lower: array<Byte>)
    requires upper != lower && upper.Length == lower.Length && Within(ranges, lower.Length)
    modifies lower
    ensures lower[..] == Overlay(upper[..], ranges, old(lower[..]))
  {
    var i := 0;
    while i < |ranges|
      invariant 0 <= i <= |ranges|
      invariant forall k :: 0 <= k < lower.Length ==>
                  lower[k] == if Covers(ranges[..i], k) then upper[k] else old(lower[k])
    {
      OverlayRange(upper, ranges[i], lower);
      forall k ensures Covers(ranges[..i + 1], k) <==> Covers(ranges[..i], k) || InRange(ranges[i], k) {
        CoversConcat(ranges[..i], [ranges[i]], k);
        SingletonCovers(ranges[i].start, ranges[i].end, k);
        assert ranges[..i + 1] == ranges[..i] + [ranges[i]];
      }
      i := i + 1;
    }
    assert ranges[..i] == ranges;
  }
}
