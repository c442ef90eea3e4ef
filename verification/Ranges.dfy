/** Sorted lists of half-open ranges (client_src/range.hpp, client_src/range.cpp). */
module Ranges {

  datatype Range = Range(start: nat, end: nat)

  predicate InRange(r: Range, x: int) {
    r.start <= x < r.end
  }

  /** The set of points a list of ranges stands for. */
  predicate Covers(rs: seq<Range>, x: int) {
    exists i :: 0 <= i < |rs| && InRange(rs[i], x)
  }

  /** Non-empty ranges in ascending order with a strict gap between any two. */
  ghost predicate Canonical(rs: seq<Range>) {
    && (forall i :: 0 <= i < |rs| ==> rs[i].start < rs[i].end)
    && (forall i, j :: 0 <= i < j < |rs| ==> rs[i].end < rs[j].start)
  }

  /** Every range ends at or before `bound`. */
  ghost predicate Within(rs: seq<Range>, bound: int) {
    forall i :: 0 <= i < |rs| ==> rs[i].end <= bound
  }

  ghost predicate StartsAbove(rs: seq<Range>, bound: int) {
    forall i :: 0 <= i < |rs| ==> bound < rs[i].start
  }

  function Min(a: nat, b: nat): nat {
    if a <= b then a else b
  }

  function Max(a: nat, b: nat): nat {
    if a <= b then b else a
  }

  /** Overlapping or merely touching, as RangeList::overlap decides it. */
  predicate Overlap(r1: Range, r2: Range) {
    if r1.start <= r2.start then r1.end >= r2.start else r2.end >= r1.start
  }

  /** The list after adding [start, end): ranges it touches are merged into one. */
  function Insert(rs: seq<Range>, start: nat, end: nat): seq<Range> {
    if rs == [] then [Range(start, end)]
    else if rs[0].end < start then [rs[0]] + Insert(rs[1..], start, end)
    else if end < rs[0].start then [Range(start, end)] + rs
    else Insert(rs[1..], Min(start, rs[0].start), Max(end, rs[0].end))
  }

  lemma CoversCons(rs: seq<Range>, x: int)
    requires rs != []
    ensures Covers(rs, x) <==> InRange(rs[0], x) || Covers(rs[1..], x)
  {
    if Covers(rs[1..], x) {
      var i :| 0 <= i < |rs[1..]| && InRange(rs[1..][i], x);
      assert InRange(rs[i + 1], x);
    }
    if Covers(rs, x) && !InRange(rs[0], x) {
      var i :| 0 <= i < |rs| && InRange(rs[i], x);
      assert InRange(rs[1..][i - 1], x);
    }
  }

  lemma CoversConcat(a: seq<Range>, b: seq<Range>, x: int)
    ensures Covers(a + b, x) <==> Covers(a, x) || Covers(b, x)
  {
    if Covers(a, x) {
      var i :| 0 <= i < |a| && InRange(a[i], x);
      assert InRange((a + b)[i], x);
    }
    if Covers(b, x) {
      var i :| 0 <= i < |b| && InRange(b[i], x);
      assert InRange((a + b)[|a| + i], x);
    }
    if Covers(a + b, x) {
      var i :| 0 <= i < |a + b| && InRange((a + b)[i], x);
      if i < |a| {
        assert InRange(a[i], x);
      } else {
        assert InRange(b[i - |a|], x);
      }
    }
  }

  lemma SingletonCovers(start: nat, end: nat, x: int)
    ensures Covers([Range(start, end)], x) <==> start <= x < end
  {
    assert Covers([Range(start, end)], x) <==> InRange([Range(start, end)][0], x);
  }

  lemma {:induction false} InsertCovers(rs: seq<Range>, start: nat, end: nat, x: int)
    requires start < end && forall i :: 0 <= i < |rs| ==> rs[i].start < rs[i].end
    ensures Covers(Insert(rs, start, end), x) <==> Covers(rs, x) || start <= x < end
    decreases |rs|
  {
    if rs == [] {
      SingletonCovers(start, end, x);
    } else {
      CoversCons(rs, x);
      var result := Insert(rs, start, end);
      if rs[0].end < start {
        InsertCovers(rs[1..], start, end, x);
        CoversCons(result, x);
        assert result[1..] == Insert(rs[1..], start, end);
      } else if end < rs[0].start {
        CoversCons(result, x);
        assert result[1..] == rs;
      } else {
        InsertCovers(rs[1..], Min(start, rs[0].start), Max(end, rs[0].end), x);
      }
    }
  }

  lemma {:induction false} InsertKeepsBounds(rs: seq<Range>, start: nat, end: nat, lo: int, hi: int)
    requires StartsAbove(rs, lo) && lo < start && Within(rs, hi) && end <= hi
    ensures StartsAbove(Insert(rs, start, end), lo) && Within(Insert(rs, start, end), hi)
    decreases |rs|
  {
    if rs != [] {
      if rs[0].end < start {
        InsertKeepsBounds(rs[1..], start, end, lo, hi);
      } else if end >= rs[0].start {
        InsertKeepsBounds(rs[1..], Min(start, rs[0].start), Max(end, rs[0].end), lo, hi);
      }
    }
  }

  lemma {:induction false} InsertIsCanonical(rs: seq<Range>, start: nat, end: nat, hi: int)
    requires Canonical(rs) && start < end && Within(rs, hi) && end <= hi
    ensures Canonical(Insert(rs, start, end)) && Within(Insert(rs, start, end), hi)
    decreases |rs|
  {
    InsertKeepsBounds(rs, start, end, -1, hi);
    if rs != [] {
      var tail := rs[1..];
      if rs[0].end < start {
        assert StartsAbove(tail, rs[0].end) && Within(tail, hi);
        InsertKeepsBounds(tail, start, end, rs[0].end, hi);
        InsertIsCanonical(tail, start, end, hi);
        ConsCanonical(rs[0], Insert(tail, start, end));
      } else if end < rs[0].start {
        ConsCanonical(Range(start, end), rs);
      } else {
        assert Within(tail, hi);
        InsertIsCanonical(tail, Min(start, rs[0].start), Max(end, rs[0].end), hi);
      }
    }
  }

  lemma ConsCanonical(r: Range, rs: seq<Range>)
    requires Canonical(rs) && r.start < r.end && StartsAbove(rs, r.end)
    ensures Canonical([r] + rs)
  {
  }

  function LargestEnd(rs: seq<Range>): nat {
    if rs == [] then 0 else Max(rs[0].end, LargestEnd(rs[1..]))
  }

  lemma {:induction false} WithinLargestEnd(rs: seq<Range>)
    ensures Within(rs, LargestEnd(rs))
  {
    if rs != [] {
      WithinLargestEnd(rs[1..]);
      assert forall i :: 1 <= i < |rs| ==> rs[i] == rs[1..][i - 1];
    }
  }

  /** Insert keeps the canonical form and denotes exactly the union. */
  lemma {:induction false} InsertDenotesUnion(rs: seq<Range>, start: nat, end: nat)
    requires Canonical(rs) && start < end
    ensures Canonical(Insert(rs, start, end))
    ensures forall x :: Covers(Insert(rs, start, end), x) <==> Covers(rs, x) || start <= x < end
  {
    WithinLargestEnd(rs);
    InsertIsCanonical(rs, start, end, Max(LargestEnd(rs), end));
    forall x ensures Covers(Insert(rs, start, end), x) <==> Covers(rs, x) || start <= x < end {
      InsertCovers(rs, start, end, x);
    }
  }

  lemma FirstStartIsLeast(a: seq<Range>, b: seq<Range>)
    requires Canonical(a) && Canonical(b) && a != []
    requires forall x :: Covers(a, x) ==> Covers(b, x)
    ensures b != [] && b[0].start <= a[0].start
  {
    assert InRange(a[0], a[0].start);
    assert Covers(b, a[0].start);
  }

  lemma FirstEndIsNotPassed(a: seq<Range>, b: seq<Range>)
    requires Canonical(a) && Canonical(b) && a != [] && b != [] && a[0].start == b[0].start
    requires forall x :: Covers(a, x) ==> Covers(b, x)
    ensures a[0].end <= b[0].end
  {
    assert !Covers(b, b[0].end);
    if b[0].end < a[0].end {
      assert InRange(a[0], b[0].end);
    }
  }

  lemma TailCovers(rs: seq<Range>, x: int)
    requires Canonical(rs) && rs != []
    ensures Canonical(rs[1..])
    ensures Covers(rs[1..], x) <==> Covers(rs, x) && rs[0].end <= x
  {
    CoversCons(rs, x);
    if Covers(rs[1..], x) {
      var i :| 0 <= i < |rs[1..]| && InRange(rs[1..][i], x);
      assert rs[0].end < rs[i + 1].start;
    }
  }

  /** A set of points has only one canonical list. */
  lemma {:induction false} CanonicalIsUnique(a: seq<Range>, b: seq<Range>)
    requires Canonical(a) && Canonical(b)
    requires forall x :: Covers(a, x) <==> Covers(b, x)
    ensures a == b
    decreases |a|
  {
    if a == [] {
      if b != [] {
        FirstStartIsLeast(b, a);
      }
    } else {
      FirstStartIsLeast(a, b);
      FirstStartIsLeast(b, a);
      FirstEndIsNotPassed(a, b);
      FirstEndIsNotPassed(b, a);
      forall x ensures Covers(a[1..], x) <==> Covers(b[1..], x) {
        TailCovers(a, x);
        TailCovers(b, x);
      }
      TailCovers(a, 0);
      TailCovers(b, 0);
      CanonicalIsUnique(a[1..], b[1..]);
    }
  }

  /** The one-range test of Cache::isFullBlock. */
  predicate IsOneRange(rs: seq<Range>, start: nat, end: nat) {
    |rs| == 1 && rs[0].start == start && rs[0].end == end
  }

  /** The one-range test holds exactly when every point of [start, end), and no other, is covered. */
  lemma OneRangeIffAllCovered(rs: seq<Range>, start: nat, end: nat)
    requires Canonical(rs) && Within(rs, end) && start < end
    requires forall i :: 0 <= i < |rs| ==> start <= rs[i].start
    ensures IsOneRange(rs, start, end) <==> forall x :: start <= x < end ==> Covers(rs, x)
  {
    if IsOneRange(rs, start, end) {
      forall x | start <= x < end ensures Covers(rs, x) {
        assert InRange(rs[0], x);
      }
    }
    if forall x :: start <= x < end ==> Covers(rs, x) {
      var one := [Range(start, end)];
      forall x ensures Covers(rs, x) <==> Covers(one, x) {
        if start <= x < end {
          assert InRange(one[0], x);
        }
        if Covers(rs, x) {
          var i :| 0 <= i < |rs| && InRange(rs[i], x);
          assert InRange(one[0], x);
        }
      }
      CanonicalIsUnique(rs, one);
    }
  }

  class RangeList {
    var ranges: seq<Range>

    ghost predicate Valid()
      reads this
    {
      Canonical(ranges)
    }

    constructor ()
      ensures Valid() && ranges == []
    {
      ranges := [];
    }

    /** Scans for the ranges that overlap the new one, replaces them by their
        hull, or inserts the new range at its place when there are none. */
    method InsertRange(start: nat, end: nat)
      requires Valid() && start < end
      modifies this
      ensures Valid()
      ensures forall x :: Covers(ranges, x) <==> Covers(old(ranges), x) || start <= x < end
      ensures ranges == Insert(old(ranges), start, end)
    {
      var newRange := Range(start, end);
      var overStart: int, overEnd: int := -1, -1;
      var newStart, newEnd := start, end;
      var i := 0;
      while i < |ranges|
        invariant 0 <= i <= |ranges| && ranges == old(ranges)
        invariant overStart == -1 ==> newStart == start && newEnd == end
        invariant overStart == -1 ==> forall k :: 0 <= k < i ==> !Overlap(ranges[k], newRange)
        invariant overStart != -1 ==> 0 <= overStart < overEnd <= i
        invariant overStart != -1 ==> forall k :: overStart <= k < overEnd ==> Overlap(ranges[k], newRange)
        invariant overStart != -1 ==>
                    forall k :: 0 <= k < overStart || overEnd <= k < i ==> !Overlap(ranges[k], newRange)
        invariant overStart != -1 ==> newStart == Min(start, ranges[overStart].start)
        invariant overStart != -1 ==> newEnd == Max(end, ranges[overEnd - 1].end)
      {
        var r := ranges[i];
        if Overlap(r, newRange) {
          if overStart == -1 {
            overStart := i;
          }
          overEnd := i + 1;
          newStart := Min(newStart, r.start);
          newEnd := Max(newEnd, r.end);
        }
        i := i + 1;
      }
      ghost var before := ranges;
      if overStart >= 0 {
        HullIsInsert(before, overStart, overEnd, start, end);
        ranges := ranges[..overStart] + [Range(newStart, newEnd)] + ranges[overEnd..];
      } else {
        var k := 0;
        while k < |ranges| && ranges[k].start < newStart
          invariant 0 <= k <= |ranges| && ranges == before
          invariant forall j :: 0 <= j < k ==> ranges[j].start < newStart
        {
          k := k + 1;
        }
        SpliceIsInsert(before, k, start, end);
        ranges := ranges[..k] + [Range(newStart, newEnd)] + ranges[k..];
      }
      InsertDenotesUnion(before, start, end);
    }
  }

  lemma {:induction false} InsertSkips(a: seq<Range>, rest: seq<Range>, start: nat, end: nat)
    requires forall k :: 0 <= k < |a| ==> a[k].end < start
    ensures Insert(a + rest, start, end) == a + Insert(rest, start, end)
  {
    if a == [] {
      assert a + rest == rest;
    } else {
      assert (a + rest)[1..] == a[1..] + rest;
      InsertSkips(a[1..], rest, start, end);
    }
  }

  lemma {:induction false} InsertFits(c: seq<Range>, start: nat, end: nat)
    requires start < end
    requires c != [] ==> c[0].start < c[0].end && end < c[0].start
    ensures Insert(c, start, end) == [Range(start, end)] + c
  {
    assert c == [] ==> [Range(start, end)] + c == [Range(start, end)];
  }

  lemma {:induction false} InsertMerges(rs: seq<Range>, hi: nat, start: nat, end: nat)
    requires Canonical(rs) && 0 < hi <= |rs| && start < end
    requires start <= rs[0].end && rs[hi - 1].start <= end
    requires hi < |rs| ==> end < rs[hi].start
    ensures Insert(rs, start, end) == [Range(Min(start, rs[0].start), Max(end, rs[hi - 1].end))] + rs[hi..]
  {
    var s, e, tail := Min(start, rs[0].start), Max(end, rs[0].end), rs[1..];
    assert rs[0].start <= end;
    assert Insert(rs, start, end) == Insert(tail, s, e);
    if hi == 1 {
      InsertFits(tail, s, e);
    } else {
      assert tail[hi - 2] == rs[hi - 1];
      assert rs[0].end < rs[hi - 1].start;
      InsertMerges(tail, hi - 1, s, e);
      assert tail[hi - 1..] == rs[hi..];
    }
  }

  /** Where InsertRange finds overlapping ranges, what it splices in is the specification's Insert. */
  lemma {:induction false} HullIsInsert(rs: seq<Range>, lo: nat, hi: nat, start: nat, end: nat)
    requires Canonical(rs) && lo < hi <= |rs| && start < end
    requires forall k :: 0 <= k < |rs| ==> (lo <= k < hi <==> Overlap(rs[k], Range(start, end)))
    ensures rs[..lo] + [Range(Min(start, rs[lo].start), Max(end, rs[hi - 1].end))] + rs[hi..] == Insert(rs, start, end)
  {
    FirstTouched(rs, lo, hi, start, end);
    SuffixCanonical(rs, lo);
    var head, tail := rs[..lo], rs[lo..];
    var hull := Range(Min(start, rs[lo].start), Max(end, rs[hi - 1].end));
    calc {
      Insert(rs, start, end);
      { assert rs == head + tail; }
      Insert(head + tail, start, end);
      { InsertSkips(head, tail, start, end); }
      head + Insert(tail, start, end);
      { MergeTail(rs, tail, lo, hi, start, end); }
      head + ([hull] + rs[hi..]);
      head + [hull] + rs[hi..];
    }
  }

  lemma SuffixCanonical(rs: seq<Range>, lo: nat)
    requires Canonical(rs) && lo <= |rs|
    ensures Canonical(rs[lo..])
  {
  }

  lemma MergeTail(rs: seq<Range>, tail: seq<Range>, lo: nat, hi: nat, start: nat, end: nat)
    requires lo < hi <= |rs| && tail == rs[lo..] && Canonical(tail) && start < end
    requires start <= rs[lo].end && rs[hi - 1].start <= end
    requires hi < |rs| ==> end < rs[hi].start
    ensures Insert(tail, start, end) == [Range(Min(start, rs[lo].start), Max(end, rs[hi - 1].end))] + rs[hi..]
  {
    assert tail[0] == rs[lo] && tail[hi - lo - 1] == rs[hi - 1];
    assert tail[hi - lo..] == rs[hi..];
    InsertMerges(tail, hi - lo, start, end);
  }

  lemma FirstTouched(rs: seq<Range>, lo: nat, hi: nat, start: nat, end: nat)
    requires Canonical(rs) && lo < hi <= |rs| && start < end
    requires forall k :: 0 <= k < |rs| ==> (lo <= k < hi <==> Overlap(rs[k], Range(start, end)))
    ensures forall k :: 0 <= k < lo ==> rs[k].end < start
    ensures start <= rs[lo].end && rs[hi - 1].start <= end
    ensures hi < |rs| ==> end < rs[hi].start
  {
    assert Overlap(rs[hi - 1], Range(start, end)) && Overlap(rs[lo], Range(start, end));
    assert forall k :: 0 <= k < lo ==> rs[k].end < rs[lo].start;
    if hi < |rs| {
      assert rs[hi - 1].end < rs[hi].start;
    }
  }

  /** Where it finds none, the new range goes where the scan over starts stops. */
  lemma {:induction false} SpliceIsInsert(rs: seq<Range>, k: nat, start: nat, end: nat)
    requires Canonical(rs) && k <= |rs| && start < end
    requires forall i :: 0 <= i < k ==> rs[i].end < start
    requires forall i :: k <= i < |rs| ==> end < rs[i].start
    ensures rs[..k] + [Range(start, end)] + rs[k..] == Insert(rs, start, end)
  {
    assert rs == rs[..k] + rs[k..];
    InsertSkips(rs[..k], rs[k..], start, end);
    assert rs[k..] == [] ==> [Range(start, end)] + rs[k..] == [Range(start, end)];
  }
}
