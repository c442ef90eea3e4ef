/** POSIX record locks on one node: the lock list of fuse-3/lib/fuse.c:3912-4010. */
module RecordLocks {
  import opened Options

  datatype LockType = Read | Write | Unlock

  /** Both ends belong to the lock. */
  datatype Lock = Lock(kind: LockType, start: int, end: int, pid: int, owner: int)

  predicate Covers(l: Lock, owner: int, x: int) {
    l.owner == owner && l.start <= x <= l.end
  }

  /** The kind of lock `owner` has on byte `x`: that of the first lock of the list to cover it. */
  function KindAt(locks: seq<Lock>, owner: int, x: int): LockType {
    if locks == [] then Unlock
    else if Covers(locks[0], owner, x) then locks[0].kind
    else KindAt(locks[1..], owner, x)
  }

  /** Point-wise update: the request's kind inside its range, the old kind elsewhere. */
  function Overlaid(locks: seq<Lock>, lock: Lock, owner: int, x: int): LockType {
    if Covers(lock, owner, x) then lock.kind else KindAt(locks, owner, x)
  }

  /** `a` ends before `b` starts and, if they are of one kind, leaves a gap to it. */
  predicate Before(a: Lock, b: Lock) {
    a.end < b.start && (a.kind == b.kind ==> a.end < b.start - 1)
  }

  const OFFSET_MAX := 0x7fff_ffff_ffff_ffff

  /** A non-empty range of file offsets. */
  predicate InRange(l: Lock) {
    0 <= l.start <= l.end <= OFFSET_MAX
  }

  /** Every lock of a list is a lock, on a non-empty range. */
  predicate Proper(l: Lock) {
    InRange(l) && !l.kind.Unlock?
  }

  /** Each owner's locks are sorted, disjoint and maximally merged. */
  ghost predicate Sorted(locks: seq<Lock>) {
    && (forall i :: 0 <= i < |locks| ==> Proper(locks[i]))
    && (forall i, j :: 0 <= i < j < |locks| && locks[i].owner == locks[j].owner ==> Before(locks[i], locks[j]))
  }

  ghost predicate AllBefore(locks: seq<Lock>, l: Lock) {
    forall i :: 0 <= i < |locks| && locks[i].owner == l.owner ==> Before(locks[i], l)
  }

  ghost predicate AllAfter(l: Lock, locks: seq<Lock>) {
    forall i :: 0 <= i < |locks| && locks[i].owner == l.owner ==> Before(l, locks[i])
  }

  /** No byte is locked by two owners, one of them for writing. */
  ghost predicate NoConflict(locks: seq<Lock>) {
    forall o1, o2, x :: o1 != o2 && KindAt(locks, o1, x).Write? ==> KindAt(locks, o2, x).Unlock?
  }

  /** The locks of other owners, in order. */
  function OthersOf(locks: seq<Lock>, owner: int): seq<Lock> {
    if locks == [] then []
    else if locks[0].owner == owner then OthersOf(locks[1..], owner)
    else [locks[0]] + OthersOf(locks[1..], owner)
  }

  lemma {:induction false} KindAtConcat(a: seq<Lock>, b: seq<Lock>, owner: int, x: int)
    requires forall i :: 0 <= i < |a| ==> Proper(a[i])
    ensures KindAt(a + b, owner, x) == if KindAt(a, owner, x).Unlock? then KindAt(b, owner, x) else KindAt(a, owner, x)
  {
    if a == [] {
      assert a + b == b;
    } else {
      assert (a + b)[1..] == a[1..] + b;
      KindAtConcat(a[1..], b, owner, x);
    }
  }

  lemma {:induction false} OthersOfConcat(a: seq<Lock>, b: seq<Lock>, owner: int)
    ensures OthersOf(a + b, owner) == OthersOf(a, owner) + OthersOf(b, owner)
  {
    if a == [] {
      assert a + b == b;
    } else {
      assert (a + b)[1..] == a[1..] + b;
      OthersOfConcat(a[1..], b, owner);
    }
  }

  /** Outside every lock of its own an owner has none. */
  lemma {:induction false} KindAtOutside(locks: seq<Lock>, owner: int, x: int)
    requires forall i :: 0 <= i < |locks| ==> !Covers(locks[i], owner, x)
    ensures KindAt(locks, owner, x).Unlock?
  {
    if locks != [] {
      KindAtOutside(locks[1..], owner, x);
    }
  }

  lemma {:induction false} KindAtInside(locks: seq<Lock>, owner: int, x: int) returns (i: int)
    requires !KindAt(locks, owner, x).Unlock?
    ensures 0 <= i < |locks| && Covers(locks[i], owner, x) && locks[i].kind == KindAt(locks, owner, x)
  {
    if Covers(locks[0], owner, x) {
      i := 0;
    } else {
      var j := KindAtInside(locks[1..], owner, x);
      i := j + 1;
    }
  }

  /** In a sorted list a lock decides the kind of every byte it covers. */
  lemma {:induction false} KindAtCovered(locks: seq<Lock>, i: nat, owner: int, x: int)
    requires Sorted(locks) && i < |locks| && Covers(locks[i], owner, x)
    ensures KindAt(locks, owner, x) == locks[i].kind
  {
    if !Covers(locks[0], owner, x) {
      KindAtCovered(locks[1..], i - 1, owner, x);
    }
  }

  /** The list `a + mid + b`, whose locks all belong to sorted neighbours of `mid`. */
  lemma KindAtThree(a: seq<Lock>, mid: seq<Lock>, b: seq<Lock>, owner: int, x: int)
    requires (forall i :: 0 <= i < |a| ==> Proper(a[i])) && (forall i :: 0 <= i < |mid| ==> Proper(mid[i]))
    ensures KindAt(a + mid + b, owner, x) ==
            if !KindAt(a, owner, x).Unlock? then KindAt(a, owner, x)
            else if !KindAt(mid, owner, x).Unlock? then KindAt(mid, owner, x)
            else KindAt(b, owner, x)
  {
    assert a + mid + b == a + (mid + b);
    KindAtConcat(a, mid + b, owner, x);
    KindAtConcat(mid, b, owner, x);
  }

  lemma KindAtOne(l: Lock, owner: int, x: int)
    ensures KindAt([l], owner, x) == if Covers(l, owner, x) then l.kind else Unlock
  {
  }

  lemma BeforeMeansFree(a: seq<Lock>, l: Lock, owner: int, x: int)
    requires AllBefore(a, l) && Covers(l, owner, x)
    ensures KindAt(a, owner, x).Unlock?
  {
    KindAtOutside(a, owner, x);
  }

  lemma AfterMeansFree(l: Lock, b: seq<Lock>, owner: int, x: int)
    requires AllAfter(l, b) && Covers(l, owner, x)
    ensures KindAt(b, owner, x).Unlock?
  {
    KindAtOutside(b, owner, x);
  }

  /** Replacing the lock `l` by `mid` and the request by a wider one of its kind changes nothing
      under the request's overlay, if the wider part was `l`'s and the rest of `l` is kept. */
  lemma ReplaceUnderOverlay(a: seq<Lock>, l: Lock, mid: seq<Lock>, b: seq<Lock>, lock: Lock, lock': Lock, o: int,
                            x: int)
    requires (forall i :: 0 <= i < |a| ==> Proper(a[i])) && Proper(l) && (forall i :: 0 <= i < |mid| ==> Proper(mid[i]))
    requires AllBefore(a, l) && lock'.kind == lock.kind
    requires Covers(lock, o, x) ==> Covers(lock', o, x)
    requires Covers(lock', o, x) && !Covers(lock, o, x) ==> Covers(l, o, x) && l.kind == lock.kind
    requires !Covers(lock', o, x) ==> KindAt(mid, o, x) == KindAt([l], o, x)
    ensures Overlaid(a + [l] + b, lock, o, x) == Overlaid(a + mid + b, lock', o, x)
  {
    KindAtThree(a, [l], b, o, x);
    KindAtThree(a, mid, b, o, x);
    KindAtOne(l, o, x);
    if Covers(l, o, x) {
      BeforeMeansFree(a, l, o, x);
    }
  }

  lemma SortedParts(a: seq<Lock>, b: seq<Lock>)
    requires Sorted(a + b)
    ensures Sorted(a) && Sorted(b)
    ensures forall i, j :: 0 <= i < |a| && 0 <= j < |b| && a[i].owner == b[j].owner ==> Before(a[i], b[j])
  {
    forall i, j | 0 <= i < |a| && 0 <= j < |b| && a[i].owner == b[j].owner ensures Before(a[i], b[j]) {
      assert (a + b)[i] == a[i] && (a + b)[|a| + j] == b[j];
    }
    assert forall i :: 0 <= i < |a| ==> (a + b)[i] == a[i];
    assert forall j :: 0 <= j < |b| ==> (a + b)[|a| + j] == b[j];
  }

  lemma SortedJoin(a: seq<Lock>, b: seq<Lock>)
    requires Sorted(a) && Sorted(b)
    requires forall i, j :: 0 <= i < |a| && 0 <= j < |b| && a[i].owner == b[j].owner ==> Before(a[i], b[j])
    ensures Sorted(a + b)
  {
  }

  /** What a position in a sorted list knows about its neighbours. */
  lemma SortedAround(a: seq<Lock>, l: Lock, b: seq<Lock>)
    requires Sorted(a + [l] + b)
    ensures Sorted(a) && Sorted(b) && Proper(l) && AllBefore(a, l) && AllAfter(l, b) && Sorted(a + b)
  {
    SortedParts(a + [l], b);
    SortedParts(a, [l]);
    assert [l][0] == l && (a + [l])[|a|] == l;
    assert forall i :: 0 <= i < |a| ==> (a + [l])[i] == a[i];
    SortedJoin(a, b);
  }

  lemma SortedInsert(a: seq<Lock>, l: Lock, b: seq<Lock>)
    requires Sorted(a + b) && Proper(l) && AllBefore(a, l) && AllAfter(l, b)
    ensures Sorted(a + [l] + b)
  {
    SortedParts(a, b);
    SortedJoin(a, [l]);
    assert forall i :: 0 <= i < |a| ==> (a + [l])[i] == a[i];
    assert (a + [l])[|a|] == l;
    SortedJoin(a + [l], b);
  }

  /** A lock may shrink in place. */
  lemma SortedShrink(a: seq<Lock>, l: Lock, l': Lock, b: seq<Lock>)
    requires Sorted(a + [l] + b) && Proper(l') && l'.owner == l.owner && l'.kind == l.kind
    requires l.start <= l'.start && l'.end <= l.end
    ensures Sorted(a + [l'] + b)
  {
    SortedAround(a, l, b);
    SortedInsert(a, l', b);
  }

  /** Two lists, each under a request, lock every byte alike. */
  ghost predicate SameOverlay(locks: seq<Lock>, lock: Lock, locks': seq<Lock>, lock': Lock) {
    forall o, x :: Overlaid(locks, lock, o, x) == Overlaid(locks', lock', o, x)
  }

  /** `mid` keeps of `l` what the request does not take, and the request grows only into `l`. */
  ghost predicate Absorbs(l: Lock, mid: seq<Lock>, lock: Lock, lock': Lock) {
    forall x ::
      && (Covers(lock, l.owner, x) ==> Covers(lock', l.owner, x))
      && (Covers(lock', l.owner, x) && !Covers(lock, l.owner, x) ==> Covers(l, l.owner, x) && l.kind == lock.kind)
      && (!Covers(lock', l.owner, x) ==> KindAt(mid, l.owner, x) == KindAt([l], l.owner, x))
  }

  ghost predicate OwnedBy(locks: seq<Lock>, owner: int) {
    forall i :: 0 <= i < |locks| ==> Proper(locks[i]) && locks[i].owner == owner
  }

  lemma AbsorbKeepsOverlay(a: seq<Lock>, l: Lock, mid: seq<Lock>, b: seq<Lock>, lock: Lock, lock': Lock)
    requires Sorted(a + [l] + b) && OwnedBy(mid, l.owner)
    requires lock.owner == l.owner == lock'.owner && lock.kind == lock'.kind
    requires Absorbs(l, mid, lock, lock')
    ensures SameOverlay(a + [l] + b, lock, a + mid + b, lock')
  {
    SortedAround(a, l, b);
    forall o, x ensures Overlaid(a + [l] + b, lock, o, x) == Overlaid(a + mid + b, lock', o, x) {
      if o == l.owner {
        ReplaceUnderOverlay(a, l, mid, b, lock, lock', o, x);
      } else {
        KindAtOutside(mid, o, x);
        KindAtOutside([l], o, x);
        ReplaceUnderOverlay(a, l, mid, b, lock, lock', o, x);
      }
    }
  }

  lemma {:induction false} OwnedHasNoOthers(locks: seq<Lock>, owner: int)
    requires OwnedBy(locks, owner)
    ensures OthersOf(locks, owner) == []
  {
    if locks != [] {
      OwnedHasNoOthers(locks[1..], owner);
    }
  }

  lemma AbsorbKeepsOthers(a: seq<Lock>, l: Lock, mid: seq<Lock>, b: seq<Lock>)
    requires Proper(l) && OwnedBy(mid, l.owner)
    ensures OthersOf(a + [l] + b, l.owner) == OthersOf(a + mid + b, l.owner)
  {
    OthersOfConcat(a + [l], b, l.owner);
    OthersOfConcat(a, [l], l.owner);
    OthersOfConcat(a + mid, b, l.owner);
    OthersOfConcat(a, mid, l.owner);
    OwnedHasNoOthers([l], l.owner);
    OwnedHasNoOthers(mid, l.owner);
  }

  /** The request as it stands while the list is walked: the same owner and kind, on a range that
      has at most grown, and the same outcome. */
  ghost predicate Walking(locks0: seq<Lock>, request: Lock, locks: seq<Lock>, lock: Lock, n: int) {
    && 0 <= n <= |locks| && Sorted(locks)
    && lock.owner == request.owner && lock.kind == request.kind && InRange(lock)
    && lock.start <= request.start && request.end <= lock.end
    && AllBefore(locks[..n], lock)
    && SameOverlay(locks0, request, locks, lock)
    && OthersOf(locks, request.owner) == OthersOf(locks0, request.owner)
  }

  /** What one visit to the list does to the lock `l` at position `n`. */
  lemma WalkOn(locks0: seq<Lock>, request: Lock, a: seq<Lock>, l: Lock, b: seq<Lock>, lock: Lock, mid: seq<Lock>,
               lock': Lock, n': int)
    requires Walking(locks0, request, a + [l] + b, lock, |a|) && l.owner == lock.owner
    requires OwnedBy(mid, l.owner) && Absorbs(l, mid, lock, lock')
    requires Sorted(a + mid + b) && 0 <= n' <= |a + mid + b| && AllBefore((a + mid + b)[..n'], lock')
    requires lock'.owner == lock.owner && lock'.kind == lock.kind && InRange(lock')
    requires lock'.start <= lock.start && lock.end <= lock'.end
    ensures Walking(locks0, request, a + mid + b, lock', n')
  {
    SortedAround(a, l, b);
    AbsorbKeepsOverlay(a, l, mid, b, lock, lock');
    AbsorbKeepsOthers(a, l, mid, b);
  }

  lemma SkipStep(locks0: seq<Lock>, request: Lock, locks: seq<Lock>, lock: Lock, n: int)
    requires Walking(locks0, request, locks, lock, n) && n < |locks|
    requires locks[n].owner == lock.owner ==> Before(locks[n], lock)
    ensures Walking(locks0, request, locks, lock, n + 1)
  {
    assert locks[..n + 1] == locks[..n] + [locks[n]];
  }

  /** A lock of the request's kind that touches it is merged into it. */
  lemma MergeStep(locks0: seq<Lock>, request: Lock, a: seq<Lock>, l: Lock, b: seq<Lock>, lock: Lock, lock': Lock)
    requires Walking(locks0, request, a + [l] + b, lock, |a|) && l.owner == lock.owner && l.kind == lock.kind
    requires l.end >= lock.start - 1 && lock.end >= l.start - 1
    requires lock' == lock.(start := if l.start < lock.start then l.start else lock.start,
                            end := if lock.end < l.end then l.end else lock.end)
    ensures Walking(locks0, request, a + b, lock', |a|)
  {
    SortedAround(a, l, b);
    assert (a + [l] + b)[..|a|] == a && a + [] + b == a + b && (a + b)[..|a|] == a;
    WalkOn(locks0, request, a, l, b, lock, [], lock', |a|);
  }

  /** A lock of another kind inside the request's range goes. */
  lemma SwallowStep(locks0: seq<Lock>, request: Lock, a: seq<Lock>, l: Lock, b: seq<Lock>, lock: Lock)
    requires Walking(locks0, request, a + [l] + b, lock, |a|) && l.owner == lock.owner
    requires lock.start <= l.start && l.end <= lock.end
    ensures Walking(locks0, request, a + b, lock, |a|)
  {
    SortedAround(a, l, b);
    assert (a + [l] + b)[..|a|] == a && a + [] + b == a + b && (a + b)[..|a|] == a;
    WalkOn(locks0, request, a, l, b, lock, [], lock, |a|);
  }

  /** One of another kind that begins before the request loses its end. */
  lemma TrimEndStep(locks0: seq<Lock>, request: Lock, a: seq<Lock>, l: Lock, b: seq<Lock>, lock: Lock, l': Lock)
    requires Walking(locks0, request, a + [l] + b, lock, |a|) && l.owner == lock.owner && l.kind != lock.kind
    requires l.start < lock.start <= l.end <= lock.end
    requires l' == l.(end := lock.start - 1)
    ensures Walking(locks0, request, a + [l'] + b, lock, |a| + 1)
  {
    SortedAround(a, l, b);
    assert (a + [l] + b)[..|a|] == a && (a + [l'] + b)[..|a| + 1] == a + [l'];
    SortedShrink(a, l, l', b);
    WalkOn(locks0, request, a, l, b, lock, [l'], lock, |a| + 1);
  }

  /** One that ends after the request loses its start, and the walk is over. */
  lemma TrimStartStep(locks0: seq<Lock>, request: Lock, a: seq<Lock>, l: Lock, b: seq<Lock>, lock: Lock, l': Lock)
    requires Walking(locks0, request, a + [l] + b, lock, |a|) && l.owner == lock.owner && l.kind != lock.kind
    requires lock.start <= l.start <= lock.end < l.end
    requires l' == l.(start := lock.end + 1)
    ensures Walking(locks0, request, a + [l'] + b, lock, |a|) && AllAfter(lock, (a + [l'] + b)[|a|..])
  {
    SortedAround(a, l, b);
    assert (a + [l] + b)[..|a|] == a && (a + [l'] + b)[..|a|] == a && (a + [l'] + b)[|a|..] == [l'] + b;
    SortedShrink(a, l, l', b);
    WalkOn(locks0, request, a, l, b, lock, [l'], lock, |a|);
    AfterFirst(lock, l', b);
  }

  lemma StopHere(locks: seq<Lock>, n: nat, lock: Lock)
    requires Sorted(locks) && n < |locks| && locks[n].owner == lock.owner && Before(lock, locks[n])
    ensures AllAfter(lock, locks[n..])
  {
    assert locks == locks[..n] + locks[n..] && locks[n..] == [locks[n]] + locks[n + 1..];
    SortedParts(locks[..n], locks[n..]);
    AfterFirst(lock, locks[n], locks[n + 1..]);
  }

  /** What comes after the first lock after the request comes after the request. */
  lemma AfterFirst(lock: Lock, l: Lock, b: seq<Lock>)
    requires Sorted([l] + b) && l.owner == lock.owner && Before(lock, l)
    ensures AllAfter(lock, [l] + b)
  {
    assert [l] + b == [] + [l] + b;
    SortedAround([], l, b);
    forall i | 0 <= i < |[l] + b| && ([l] + b)[i].owner == lock.owner ensures Before(lock, ([l] + b)[i]) {
      if i > 0 {
        assert ([l] + b)[i] == b[i - 1] && Before(l, b[i - 1]);
      }
    }
  }

  lemma SortedPair(a: seq<Lock>, l1: Lock, l2: Lock, b: seq<Lock>)
    requires Sorted(a + [l1] + b) && Sorted(a + [l2] + b) && l1.owner == l2.owner && Before(l1, l2)
    ensures Sorted(a + [l1, l2] + b) && Sorted([l2] + b)
  {
    SortedAround(a, l1, b);
    SortedAround(a, l2, b);
    assert a + [l2] + b == a + ([l2] + b) && a + [l1] + ([l2] + b) == a + [l1, l2] + b;
    SortedParts(a, [l2] + b);
    SortedInsert(a, l1, [l2] + b);
  }

  /** One that sticks out on both sides is split. */
  lemma SplitStep(locks0: seq<Lock>, request: Lock, a: seq<Lock>, l: Lock, b: seq<Lock>, lock: Lock, l1: Lock, l2: Lock)
    requires Walking(locks0, request, a + [l] + b, lock, |a|) && l.owner == lock.owner && l.kind != lock.kind
    requires l.start < lock.start && lock.end < l.end
    requires l1 == l.(end := lock.start - 1) && l2 == l.(start := lock.end + 1)
    ensures Walking(locks0, request, a + [l1, l2] + b, lock, |a| + 1) && AllAfter(lock, (a + [l1, l2] + b)[|a| + 1..])
  {
    SortedAround(a, l, b);
    SortedShrink(a, l, l2, b);
    SortedShrink(a, l, l1, b);
    SortedPair(a, l1, l2, b);
    assert (a + [l] + b)[..|a|] == a;
    assert (a + [l1, l2] + b)[..|a| + 1] == a + [l1] && (a + [l1, l2] + b)[|a| + 1..] == [l2] + b;
    forall x ensures KindAt([l1, l2], l.owner, x) == if l1.end < x < l2.start then Unlock else KindAt([l], l.owner, x) {
      KindAtThree([], [l1], [l2], l.owner, x);
      assert [] + [l1] + [l2] == [l1, l2];
    }
    WalkOn(locks0, request, a, l, b, lock, [l1, l2], lock, |a| + 1);
    AfterFirst(lock, l2, b);
  }

  /** The outcome of a request: point-wise update, in canonical form, other owners untouched. */
  ghost predicate Updated(locks0: seq<Lock>, request: Lock, locks: seq<Lock>) {
    && Sorted(locks)
    && (forall o, x :: KindAt(locks, o, x) == Overlaid(locks0, request, o, x))
    && OthersOf(locks, request.owner) == OthersOf(locks0, request.owner)
  }

  /** A lock of the request's kind that holds its whole range makes the request a no-op. */
  lemma AlreadyHeld(locks0: seq<Lock>, request: Lock, locks: seq<Lock>, lock: Lock, n: int)
    requires Walking(locks0, request, locks, lock, n) && n < |locks|
    requires locks[n].owner == lock.owner && locks[n].kind == lock.kind
    requires locks[n].start <= lock.start && lock.end <= locks[n].end
    ensures Updated(locks0, request, locks)
  {
    forall o, x ensures KindAt(locks, o, x) == Overlaid(locks0, request, o, x) {
      assert Overlaid(locks0, request, o, x) == Overlaid(locks, lock, o, x);
      if Covers(lock, o, x) {
        KindAtCovered(locks, n, o, x);
      }
    }
  }

  /** A lock that goes in where nothing of its owner is in its way changes its own range, and that only. */
  lemma KindAtInserted(a: seq<Lock>, lock: Lock, b: seq<Lock>, o: int, x: int)
    requires Sorted(a + b) && InRange(lock) && AllBefore(a, lock) && AllAfter(lock, b)
    ensures Covers(lock, o, x) ==> KindAt(a + b, o, x).Unlock?
    ensures !lock.kind.Unlock? ==> KindAt(a + [lock] + b, o, x) == Overlaid(a + b, lock, o, x)
  {
    assert a + [] + b == a + b;
    SortedParts(a, b);
    KindAtThree(a, [], b, o, x);
    if Covers(lock, o, x) {
      BeforeMeansFree(a, lock, o, x);
      AfterMeansFree(lock, b, o, x);
    }
    if !lock.kind.Unlock? {
      KindAtThree(a, [lock], b, o, x);
      KindAtOne(lock, o, x);
    }
  }

  /** The end of the walk: a lock goes in where the walk stopped, an unlock is done. */
  lemma WalkEnds(locks0: seq<Lock>, request: Lock, locks: seq<Lock>, lock: Lock, n: int, locks': seq<Lock>)
    requires Walking(locks0, request, locks, lock, n) && AllAfter(lock, locks[n..])
    requires locks' == if lock.kind.Unlock? then locks else locks[..n] + [lock] + locks[n..]
    ensures Updated(locks0, request, locks')
  {
    var a, b := locks[..n], locks[n..];
    assert locks == a + b;
    forall o, x ensures KindAt(locks', o, x) == Overlaid(locks0, request, o, x) {
      assert Overlaid(locks0, request, o, x) == Overlaid(locks, lock, o, x);
      KindAtInserted(a, lock, b, o, x);
    }
    if !lock.kind.Unlock? {
      SortedInsert(a, lock, b);
      OthersOfInserted(a, lock, b);
    }
  }

  lemma OthersOfInserted(a: seq<Lock>, lock: Lock, b: seq<Lock>)
    requires Proper(lock)
    ensures OthersOf(a + [lock] + b, lock.owner) == OthersOf(a + b, lock.owner)
  {
    assert OwnedBy([lock], lock.owner);
    OthersOfConcat(a, b, lock.owner);
    OthersOfConcat(a + [lock], b, lock.owner);
    OthersOfConcat(a, [lock], lock.owner);
    OwnedHasNoOthers([lock], lock.owner);
  }

  /** A request is granted by updating the list after finding no conflict. */
  predicate Conflicts(l: Lock, lock: Lock) {
    && l.owner != lock.owner
    && lock.start <= l.end && l.start <= lock.end
    && (l.kind.Write? || lock.kind.Write?)
  }

  /** May a lock of this kind be set where another owner has that one? */
  predicate Compatible(other: LockType, kind: LockType) {
    other.Unlock? || (other.Read? && !kind.Write?)
  }

  /** A null answer is exactly the absence of a foreign lock that clashes with the request's kind
      on some byte of its range. */
  lemma NullConflictIff(locks: seq<Lock>, lock: Lock)
    requires Sorted(locks) && InRange(lock)
    ensures (forall i :: 0 <= i < |locks| ==> !Conflicts(locks[i], lock)) <==>
            (forall o, x :: o != lock.owner && lock.start <= x <= lock.end ==>
              Compatible(KindAt(locks, o, x), lock.kind))
  {
    if forall i :: 0 <= i < |locks| ==> !Conflicts(locks[i], lock) {
      forall o, x | o != lock.owner && lock.start <= x <= lock.end ensures Compatible(KindAt(locks, o, x), lock.kind) {
        if !KindAt(locks, o, x).Unlock? {
          var i := KindAtInside(locks, o, x);
        }
      }
    } else {
      var i :| 0 <= i < |locks| && Conflicts(locks[i], lock);
      var x := SharedByte(locks[i], lock);
      KindAtCovered(locks, i, locks[i].owner, x);
    }
  }

  /** A byte of both ranges. */
  lemma SharedByte(l: Lock, lock: Lock) returns (x: int)
    requires InRange(l) && InRange(lock) && Conflicts(l, lock)
    ensures l.start <= x <= l.end && lock.start <= x <= lock.end
  {
    x := if lock.start <= l.start then l.start else lock.start;
  }

  /** Two owners never share a byte one of them has locked for writing: setting a lock keeps it so exactly when the
      conflict test answers null, or the lock is an unlock. */
  lemma GrantKeepsNoConflict(locks: seq<Lock>, request: Lock, locks': seq<Lock>)
    requires Sorted(locks) && NoConflict(locks) && InRange(request) && Updated(locks, request, locks')
    ensures NoConflict(locks') <==>
            request.kind.Unlock? || forall i :: 0 <= i < |locks| ==> !Conflicts(locks[i], request)
  {
    if request.kind.Unlock? || forall i :: 0 <= i < |locks| ==> !Conflicts(locks[i], request) {
      GrantedKeepsNoConflict(locks, request, locks');
    } else {
      var i :| 0 <= i < |locks| && Conflicts(locks[i], request);
      var x := SharedByte(locks[i], request);
      KindAtCovered(locks, i, locks[i].owner, x);
      assert KindAt(locks', locks[i].owner, x) == Overlaid(locks, request, locks[i].owner, x) == locks[i].kind;
      assert KindAt(locks', request.owner, x) == Overlaid(locks, request, request.owner, x) == request.kind;
    }
  }

  lemma GrantedKeepsNoConflict(locks: seq<Lock>, request: Lock, locks': seq<Lock>)
    requires Sorted(locks) && NoConflict(locks)
    requires request.kind.Unlock? || forall i :: 0 <= i < |locks| ==> !Conflicts(locks[i], request)
    requires Updated(locks, request, locks')
    ensures NoConflict(locks')
  {
    forall o1, o2, x | o1 != o2 && KindAt(locks', o1, x).Write? ensures KindAt(locks', o2, x).Unlock? {
      assert KindAt(locks', o1, x) == Overlaid(locks, request, o1, x);
      assert KindAt(locks', o2, x) == Overlaid(locks, request, o2, x);
      if !KindAt(locks', o2, x).Unlock? {
        if Covers(request, o1, x) {
          var i := KindAtInside(locks, o2, x);
        } else if Covers(request, o2, x) {
          var i := KindAtInside(locks, o1, x);
        }
        assert false;
      }
    }
  }

  /** Who holds a lock, of which kind, and which process it is reported to belong to. */
  datatype Tag = Tag(owner: int, kind: LockType, pid: int)

  function TagOf(l: Lock): Tag {
    Tag(l.owner, l.kind, l.pid)
  }

  ghost function Tags(locks: seq<Lock>): set<Tag> {
    set l | l in locks :: TagOf(l)
  }

  lemma TagsOfConcat(a: seq<Lock>, b: seq<Lock>)
    ensures Tags(a + b) == Tags(a) + Tags(b)
  {
  }

  /** Locks in the place of one that keep its holder, kind and process. */
  lemma TagsReplaced(a: seq<Lock>, l: Lock, mid: seq<Lock>, b: seq<Lock>)
    requires forall m <- mid :: TagOf(m) == TagOf(l)
    ensures Tags(a + mid + b) <= Tags(a + [l] + b)
  {
    TagsOfConcat(a + mid, b);
    TagsOfConcat(a, mid);
    TagsOfConcat(a + [l], b);
    TagsOfConcat(a, [l]);
    assert l in [l];
  }

  /** One lock of the request's owner and kind holds all of its range. */
  ghost predicate IsHeld(locks: seq<Lock>, request: Lock) {
    HeldUpTo(locks, |locks|, request)
  }

  ghost predicate HeldUpTo(locks: seq<Lock>, n: nat, request: Lock)
    requires n <= |locks|
  {
    exists i :: 0 <= i < n && Contains(locks[i], request)
  }

  predicate Contains(l: Lock, request: Lock) {
    l.owner == request.owner && l.kind == request.kind && l.start <= request.start && request.end <= l.end
  }

  /** One lock holds all of the request's range for its process, too. */
  ghost predicate IsSet(locks: seq<Lock>, request: Lock) {
    exists i :: 0 <= i < |locks| && Contains(locks[i], request) && locks[i].pid == request.pid
  }

  /** How far a walk has come: the locks still ahead are as they were, and nothing has changed if the request turns out
      to be held already. */
  ghost predicate Tracked(locks0: seq<Lock>, request: Lock, locks: seq<Lock>, lock: Lock, n: nat, whole: bool)
    requires n <= |locks|
  {
    && lock.pid == request.pid && Tags(locks) <= Tags(locks0)
    && (IsHeld(locks0, request) ==> locks == locks0 && lock == request && !HeldUpTo(locks, n, request))
    && (whole ==> forall k :: n <= k < |locks| ==> locks[k] in locks0)
  }

  lemma TrackedNext(locks0: seq<Lock>, request: Lock, locks: seq<Lock>, lock: Lock, n: nat, whole: bool)
    requires n < |locks| && Tracked(locks0, request, locks, lock, n, whole) && !Contains(locks[n], lock)
    ensures Tracked(locks0, request, locks, lock, n + 1, whole)
  {
  }

  /** A lock that the request meets and that does not hold all of it: no other does. */
  lemma NotHeldHere(locks0: seq<Lock>, request: Lock, locks: seq<Lock>, lock: Lock, n: nat, whole: bool)
    requires Walking(locks0, request, locks, lock, n) && n < |locks|
    requires Tracked(locks0, request, locks, lock, n, whole) && !Contains(locks[n], lock)
    requires locks[n].owner == lock.owner && locks[n].end >= lock.start - if locks[n].kind == lock.kind then 1 else 0
    ensures !IsHeld(locks0, request)
  {
    forall i | n <= i < |locks| ensures !Contains(locks[i], lock) {
      if i > n && locks[i].owner == lock.owner {
        assert Before(locks[n], locks[i]);
      }
    }
  }

  lemma HeldHere(locks0: seq<Lock>, request: Lock, locks: seq<Lock>, lock: Lock, n: nat, whole: bool)
    requires Walking(locks0, request, locks, lock, n) && n < |locks|
    requires Tracked(locks0, request, locks, lock, n, whole) && Contains(locks[n], lock)
    requires whole || AllAfter(lock, locks[n..])
    ensures IsHeld(locks0, request) && locks == locks0
  {
    assert locks[n..][0] == locks[n];
    var i :| 0 <= i < |locks0| && locks0[i] == locks[n];
    assert Contains(locks0[i], request);
  }

  lemma NotHeldAfter(locks0: seq<Lock>, request: Lock, locks: seq<Lock>, lock: Lock, n: nat)
    requires n <= |locks| && InRange(request) && AllAfter(lock, locks[n..])
    requires IsHeld(locks0, request) ==> locks == locks0 && lock == request && !HeldUpTo(locks, n, request)
    ensures !IsHeld(locks0, request)
  {
    forall i | n <= i < |locks| ensures !Contains(locks[i], lock) || lock != request {
      assert locks[n..][i - n] == locks[i];
    }
  }

  /** What setting a lock does: byte by byte, and to whom the locks are reported to belong. */
  ghost predicate Set(locks: seq<Lock>, request: Lock, locks': seq<Lock>) {
    Updated(locks, request, locks') && Tags(locks') <= Tags(locks) + {TagOf(request)}
  }

  /** The record locks of one node. */
  class LockList {
    var locks: seq<Lock>

    ghost predicate Valid() reads this {
      Sorted(locks)
    }

    constructor ()
      ensures Valid() && locks == []
    {
      locks := [];
    }

    /** `locks_conflict`: the first lock that stands in the way. */
    method Conflict(lock: Lock) returns (found: Option<Lock>)
      ensures found.None? ==> forall i :: 0 <= i < |locks| ==> !Conflicts(locks[i], lock)
      ensures found.Some? ==> exists i :: 0 <= i < |locks| && locks[i] == found.value && Conflicts(locks[i], lock)
                                          && forall j :: 0 <= j < i ==> !Conflicts(locks[j], lock)
    {
      var i := 0;
      while i < |locks|
        invariant 0 <= i <= |locks|
        invariant forall j :: 0 <= j < i ==> !Conflicts(locks[j], lock)
      {
        if Conflicts(locks[i], lock) {
          return Some(locks[i]);
        }
        i := i + 1;
      }
      return None;
    }

    /** `locks_insert`. `spare1` and `spare2` say whether the two locks allocated beforehand are at
        hand; a walk that needs one always has it. */
    method Insert(request: Lock)
      requires Valid() && InRange(request)
      modifies this
      ensures Valid() && Set(old(locks), request, locks)
      ensures if IsHeld(old(locks), request) then locks == old(locks) else request.kind.Unlock? || IsSet(locks, request)
    {
      var lock := request;
      var all := lock.kind.Unlock? && lock.start == 0 && lock.end == OFFSET_MAX;
      var spare1, spare2 := !all, !all;
      var n := 0;
      assert locks[..0] == [];
      while n < |locks|
        invariant Walking(old(locks), request, locks, lock, n)
        invariant Tracked(old(locks), request, locks, lock, n, spare2 || all)
        invariant spare1 == !all
        invariant !spare2 && !all ==> AllAfter(lock, locks[n..])
        decreases if spare2 then 1 else 0, |locks| - n
      {
        var l := locks[n];
        if l.owner != lock.owner {
          SkipStep(old(locks), request, locks, lock, n);
          TrackedNext(old(locks), request, locks, lock, n, spare2 || all);
          n := n + 1;
        } else if lock.kind == l.kind {
          if l.end < lock.start - 1 {
            SkipStep(old(locks), request, locks, lock, n);
            TrackedNext(old(locks), request, locks, lock, n, spare2 || all);
            n := n + 1;
          } else if lock.end < l.start - 1 {
            StopHere(locks, n, lock);
            break;
          } else if l.start <= lock.start && lock.end <= l.end {
            AlreadyHeld(old(locks), request, locks, lock, n);
            HeldHere(old(locks), request, locks, lock, n, spare2 || all);
            return;
          } else {
            lock := Merge(n, lock, old(locks), request, spare2 || all);
          }
        } else if l.end < lock.start {
          SkipStep(old(locks), request, locks, lock, n);
          TrackedNext(old(locks), request, locks, lock, n, spare2 || all);
          n := n + 1;
        } else if lock.end < l.start {
          StopHere(locks, n, lock);
          break;
        } else if lock.start <= l.start && l.end <= lock.end {
          Swallow(n, lock, old(locks), request, spare2 || all);
        } else if l.end <= lock.end {
          TrimEnd(n, lock, old(locks), request, spare2 || all);
          n := n + 1;
        } else if lock.start <= l.start {
          TrimStart(n, lock, old(locks), request, spare2 || all);
          break;
        } else {
          assert spare2;
          Split(n, lock, old(locks), request, spare2 || all);
          spare2 := false;
          n := n + 1;
        }
      }
      NotHeldAfter(old(locks), request, locks, lock, n);
      assert lock.kind.Unlock? || spare1;
      Finish(n, lock, old(locks), request);
    }

    /** The end of the walk: a lock goes in where it stopped. */
    method Finish(n: nat, lock: Lock, ghost locks0: seq<Lock>, ghost request: Lock)
      requires Walking(locks0, request, locks, lock, n) && AllAfter(lock, locks[n..])
      requires lock.pid == request.pid && Tags(locks) <= Tags(locks0)
      modifies this
      ensures Valid() && Set(locks0, request, locks) && (request.kind.Unlock? || IsSet(locks, request))
    {
      ghost var walked := locks;
      if !lock.kind.Unlock? {
        InsertAt(n, lock);
        TagsOfConcat(walked[..n] + [lock], walked[n..]);
        TagsOfConcat(walked[..n], [lock]);
        TagsOfConcat(walked[..n], walked[n..]);
        assert walked == walked[..n] + walked[n..] && locks[n] == lock;
      }
      WalkEnds(locks0, request, walked, lock, n, locks);
    }

    /** A lock of the request's kind that touches it: the request takes its range over. */
    method Merge(n: nat, was: Lock, ghost locks0: seq<Lock>, ghost request: Lock, ghost whole: bool)
      returns (lock: Lock)
      requires Walking(locks0, request, locks, was, n) && n < |locks|
      requires locks[n].owner == was.owner && locks[n].kind == was.kind
      requires locks[n].end >= was.start - 1 && was.end >= locks[n].start - 1
      requires Tracked(locks0, request, locks, was, n, whole) && !Contains(locks[n], was)
      modifies this
      ensures Walking(locks0, request, locks, lock, n) && |locks| == |old(locks)| - 1
      ensures Tracked(locks0, request, locks, lock, n, whole)
    {
      NotHeldHere(locks0, request, locks, was, n, whole);
      var l := locks[n];
      lock := was;
      if l.start < lock.start {
        lock := lock.(start := l.start);
      }
      if lock.end < l.end {
        lock := lock.(end := l.end);
      }
      assert locks == locks[..n] + [l] + locks[n + 1..];
      MergeStep(locks0, request, locks[..n], l, locks[n + 1..], was, lock);
      TagsReplaced(locks[..n], l, [], locks[n + 1..]);
      assert locks[..n] + [] + locks[n + 1..] == locks[..n] + locks[n + 1..];
      Delete(n);
    }

    /** A lock of another kind inside the request's range. */
    method Swallow(n: nat, lock: Lock, ghost locks0: seq<Lock>, ghost request: Lock, ghost whole: bool)
      requires Walking(locks0, request, locks, lock, n) && n < |locks|
      requires locks[n].owner == lock.owner
      requires lock.start <= locks[n].start && locks[n].end <= lock.end
      requires Tracked(locks0, request, locks, lock, n, whole) && !Contains(locks[n], lock)
      modifies this
      ensures Walking(locks0, request, locks, lock, n) && |locks| == |old(locks)| - 1
      ensures Tracked(locks0, request, locks, lock, n, whole)
    {
      NotHeldHere(locks0, request, locks, lock, n, whole);
      assert locks == locks[..n] + [locks[n]] + locks[n + 1..];
      SwallowStep(locks0, request, locks[..n], locks[n], locks[n + 1..], lock);
      TagsReplaced(locks[..n], locks[n], [], locks[n + 1..]);
      assert locks[..n] + [] + locks[n + 1..] == locks[..n] + locks[n + 1..];
      Delete(n);
    }

    /** One that begins before the request and ends in it. */
    method TrimEnd(n: nat, lock: Lock, ghost locks0: seq<Lock>, ghost request: Lock, ghost whole: bool)
      requires Walking(locks0, request, locks, lock, n) && n < |locks|
      requires locks[n].owner == lock.owner && locks[n].kind != lock.kind
      requires locks[n].start < lock.start <= locks[n].end <= lock.end
      requires Tracked(locks0, request, locks, lock, n, whole) && !Contains(locks[n], lock)
      modifies this
      ensures |locks| == |old(locks)| && Tracked(locks0, request, locks, lock, n + 1, whole)
      ensures Walking(locks0, request, locks, lock, n + 1) && |locks| == |old(locks)|
    {
      NotHeldHere(locks0, request, locks, lock, n, whole);
      var l := locks[n];
      assert locks == locks[..n] + [l] + locks[n + 1..];
      TrimEndStep(locks0, request, locks[..n], l, locks[n + 1..], lock, l.(end := lock.start - 1));
      TagsReplaced(locks[..n], l, [l.(end := lock.start - 1)], locks[n + 1..]);
      Store(n, l.(end := lock.start - 1));
    }

    /** One that begins in the request and ends after it. */
    method TrimStart(n: nat, lock: Lock, ghost locks0: seq<Lock>, ghost request: Lock, ghost whole: bool)
      requires Walking(locks0, request, locks, lock, n) && n < |locks|
      requires locks[n].owner == lock.owner && locks[n].kind != lock.kind
      requires lock.start <= locks[n].start <= lock.end < locks[n].end
      requires Tracked(locks0, request, locks, lock, n, whole) && !Contains(locks[n], lock)
      modifies this
      ensures |locks| == |old(locks)| && Tracked(locks0, request, locks, lock, n, false)
      ensures Walking(locks0, request, locks, lock, n) && AllAfter(lock, locks[n..])
    {
      NotHeldHere(locks0, request, locks, lock, n, whole);
      var l := locks[n];
      assert locks == locks[..n] + [l] + locks[n + 1..];
      TrimStartStep(locks0, request, locks[..n], l, locks[n + 1..], lock, l.(start := lock.end + 1));
      TagsReplaced(locks[..n], l, [l.(start := lock.end + 1)], locks[n + 1..]);
      Store(n, l.(start := lock.end + 1));
    }

    /** One that sticks out on both sides. */
    method Split(n: nat, lock: Lock, ghost locks0: seq<Lock>, ghost request: Lock, ghost whole: bool)
      requires Walking(locks0, request, locks, lock, n) && n < |locks|
      requires locks[n].owner == lock.owner && locks[n].kind != lock.kind
      requires locks[n].start < lock.start && lock.end < locks[n].end
      requires Tracked(locks0, request, locks, lock, n, whole) && !Contains(locks[n], lock)
      modifies this
      ensures |locks| == |old(locks)| + 1 && Tracked(locks0, request, locks, lock, n + 1, false)
      ensures Walking(locks0, request, locks, lock, n + 1) && AllAfter(lock, locks[n + 1..])
    {
      NotHeldHere(locks0, request, locks, lock, n, whole);
      var l := locks[n];
      var first, second := l.(end := lock.start - 1), l.(start := lock.end + 1);
      ghost var a, b := locks[..n], locks[n + 1..];
      assert locks == a + [l] + b;
      SplitStep(locks0, request, a, l, b, lock, first, second);
      TagsReplaced(a, l, [first, second], b);
      Store(n, first);
      InsertAt(n + 1, second);
      assert locks == a + [first, second] + b;
    }

    /** `delete_lock`. */
    method Delete(n: nat)
      requires n < |locks|
      modifies this
      ensures locks == old(locks)[..n] + old(locks)[n + 1..]
    {
      locks := locks[..n] + locks[n + 1..];
    }

    /** A lock's range changes in place. */
    method Store(n: nat, l: Lock)
      requires n < |locks|
      modifies this
      ensures locks == old(locks)[..n] + [l] + old(locks)[n + 1..]
    {
      locks := locks[..n] + [l] + locks[n + 1..];
    }

    /** `insert_lock`. */
    method InsertAt(n: nat, l: Lock)
      requires n <= |locks|
      modifies this
      ensures locks == old(locks)[..n] + [l] + old(locks)[n..]
    {
      locks := locks[..n] + [l] + locks[n..];
    }
  }

  /** A lock that the file system was asked to set, and its word; or a question about one. */
  datatype LockRequest = SetLk(lock: Lock, granted: bool) | GetLk(lock: Lock)

  /** Record locking byte by byte: the kind `o` has on byte `x` is that of the last lock it was granted there. */
  ghost function KindRun(requests: seq<LockRequest>, o: int, x: int): LockType {
    if requests == [] then Unlock
    else
      var done, r := requests[..|requests| - 1], requests[|requests| - 1];
      if r.SetLk? && r.granted && Covers(r.lock, o, x) then r.lock.kind else KindRun(done, o, x)
  }

  /** No other owner has a lock on a byte of this range that the lock is not compatible with. */
  ghost predicate IsOpen(done: seq<LockRequest>, lock: Lock) {
    forall o, x :: o != lock.owner && lock.start <= x <= lock.end ==> Compatible(KindRun(done, o, x), lock.kind)
  }

  /** The locks that were granted. */
  ghost function Granted(requests: seq<LockRequest>): set<Tag> {
    set r | r in requests && r.SetLk? && r.granted :: TagOf(r.lock)
  }

  /** The list is sorted and, byte for byte, what the requests have made of it; the process a lock is reported to
      belong to is that of a request for a lock of its owner and kind which was granted. */
  ghost predicate Holds(locks: seq<Lock>, requests: seq<LockRequest>) {
    && Sorted(locks) && Tags(locks) <= Granted(requests)
    && forall o, x :: KindAt(locks, o, x) == KindRun(requests, o, x)
  }

  /** The file system granted nothing that clashes with the locks there are. */
  ghost predicate GrantOk(done: seq<LockRequest>, r: LockRequest) {
    r.SetLk? && r.granted ==> r.lock.kind.Unlock? || IsOpen(done, r.lock)
  }

  /** A question is answered with nothing exactly if the lock could be set; otherwise with a lock that is in its way. */
  ghost predicate Answered(done: seq<LockRequest>, r: LockRequest, answer: Option<Lock>) {
    r.GetLk? ==>
      && (answer.None? <==> IsOpen(done, r.lock))
      && (answer.Some? ==>
            && Conflicts(answer.value, r.lock) && TagOf(answer.value) in Granted(done)
            && forall x :: answer.value.start <= x <= answer.value.end ==>
                 KindRun(done, answer.value.owner, x) == answer.value.kind)
  }

  lemma OpenIff(locks: seq<Lock>, done: seq<LockRequest>, lock: Lock)
    requires Holds(locks, done) && InRange(lock)
    ensures IsOpen(done, lock) <==> forall i :: 0 <= i < |locks| ==> !Conflicts(locks[i], lock)
  {
    NullConflictIff(locks, lock);
    if IsOpen(done, lock) {
      forall o, x | o != lock.owner && lock.start <= x <= lock.end ensures Compatible(KindAt(locks, o, x), lock.kind) {
        assert Compatible(KindRun(done, o, x), lock.kind);
      }
    }
    if forall i :: 0 <= i < |locks| ==> !Conflicts(locks[i], lock) {
      forall o, x | o != lock.owner && lock.start <= x <= lock.end ensures Compatible(KindRun(done, o, x), lock.kind) {
        assert Compatible(KindAt(locks, o, x), lock.kind);
      }
    }
  }

  /** One request more, and what the list is after it. */
  lemma RequestHolds(locks: seq<Lock>, done: seq<LockRequest>, r: LockRequest, locks': seq<Lock>)
    requires Holds(locks, done) && InRange(r.lock)
    requires if r.SetLk? && r.granted then Set(locks, r.lock, locks') else locks' == locks
    ensures Holds(locks', done + [r])
    ensures NoConflict(locks) ==> (NoConflict(locks') <==> GrantOk(done, r))
  {
    assert (done + [r])[..|done + [r]| - 1] == done;
    if r.SetLk? && r.granted {
      forall o, x ensures KindAt(locks', o, x) == KindRun(done + [r], o, x) {
        assert KindAt(locks', o, x) == Overlaid(locks, r.lock, o, x);
      }
      if NoConflict(locks) {
        OpenIff(locks, done, r.lock);
        GrantKeepsNoConflict(locks, r.lock, locks');
      }
    }
  }

  ghost predicate HoldsAt(trace: seq<seq<Lock>>, requests: seq<LockRequest>, i: nat)
    requires i < |trace| && i <= |requests|
  {
    Holds(trace[i], requests[..i])
  }

  ghost predicate AnsweredAt(requests: seq<LockRequest>, answers: seq<Option<Lock>>, i: nat)
    requires i < |requests| && i < |answers|
  {
    Answered(requests[..i], requests[i], answers[i])
  }

  ghost predicate NoConflictUpTo(trace: seq<seq<Lock>>, n: nat)
    requires n < |trace|
  {
    forall m | 0 <= m <= n :: NoConflict(trace[m])
  }

  ghost predicate GrantsOk(requests: seq<LockRequest>, n: nat)
    requires n <= |requests|
  {
    forall m: nat | m < n :: GrantOk(requests[..m], requests[m])
  }

  /** The lists that a run of requests goes through, with its answers: owners share no byte that one of them has locked
      for writing for as long as the file system grants only what does not clash. */
  ghost predicate LockRun(trace: seq<seq<Lock>>, requests: seq<LockRequest>, answers: seq<Option<Lock>>, n: nat)
    requires n <= |requests|
  {
    && |trace| == n + 1 && |answers| == n
    && (forall i: nat {:trigger HoldsAt(trace, requests, i)} :: i <= n ==> HoldsAt(trace, requests, i))
    && (forall i: nat {:trigger AnsweredAt(requests, answers, i)} :: i < n ==> AnsweredAt(requests, answers, i))
    && (forall i: nat {:trigger NoConflictUpTo(trace, i)} :: i <= n ==>
          (NoConflictUpTo(trace, i) <==> GrantsOk(requests, i)))
  }

  lemma LockRunSnoc(trace: seq<seq<Lock>>, requests: seq<LockRequest>, answers: seq<Option<Lock>>, n: nat,
                    answer: Option<Lock>, locks: seq<Lock>)
    requires n < |requests| && LockRun(trace, requests, answers, n) && InRange(requests[n].lock)
    requires Answered(requests[..n], requests[n], answer)
    requires var r := requests[n];
             if r.SetLk? && r.granted then Set(trace[n], r.lock, locks) else locks == trace[n]
    ensures LockRun(trace + [locks], requests, answers + [answer], n + 1)
  {
    var trace', answers', r := trace + [locks], answers + [answer], requests[n];
    assert HoldsAt(trace, requests, n);
    RequestHolds(trace[n], requests[..n], r, locks);
    assert requests[..n + 1] == requests[..n] + [r];
    forall i: nat | i <= n + 1 ensures HoldsAt(trace', requests, i) {
      assert i <= n ==> HoldsAt(trace, requests, i);
    }
    forall i: nat | i < n + 1 ensures AnsweredAt(requests, answers', i) {
      assert i < n ==> AnsweredAt(requests, answers, i);
    }
    forall i: nat | i <= n + 1 ensures NoConflictUpTo(trace', i) <==> GrantsOk(requests, i) {
      UpToNext(trace, requests, n, locks);
      if i <= n {
        assert NoConflictUpTo(trace', i) <==> NoConflictUpTo(trace, i);
      }
    }
  }

  lemma UpToNext(trace: seq<seq<Lock>>, requests: seq<LockRequest>, n: nat, locks: seq<Lock>)
    requires n < |requests| && |trace| == n + 1 && (NoConflictUpTo(trace, n) <==> GrantsOk(requests, n))
    requires NoConflict(trace[n]) ==> (NoConflict(locks) <==> GrantOk(requests[..n], requests[n]))
    ensures NoConflictUpTo(trace + [locks], n + 1) <==> GrantsOk(requests, n + 1)
    ensures forall i: nat {:trigger NoConflictUpTo(trace, i)} :: i <= n ==>
              (NoConflictUpTo(trace + [locks], i) <==> NoConflictUpTo(trace, i))
  {
    var trace' := trace + [locks];
    forall i: nat | i <= n ensures NoConflictUpTo(trace', i) <==> NoConflictUpTo(trace, i) {
      assert forall m | 0 <= m <= i :: trace'[m] == trace[m];
    }
    assert NoConflictUpTo(trace', n + 1) <==> NoConflictUpTo(trace', n) && NoConflict(trace'[n + 1]);
    assert GrantsOk(requests, n + 1) <==> GrantsOk(requests, n) && GrantOk(requests[..n], requests[n]);
  }

  /** `fuse_lib_setlk` sets a lock on the file system's word; `fuse_lib_getlk` asks the list. */
  method Request(list: LockList, r: LockRequest, ghost done: seq<LockRequest>) returns (answer: Option<Lock>)
    requires list.Valid() && Holds(list.locks, done) && InRange(r.lock)
    modifies list
    ensures list.Valid() && Answered(done, r, answer)
    ensures if r.SetLk? && r.granted then Set(old(list.locks), r.lock, list.locks)
            else list.locks == old(list.locks)
  {
    answer := None;
    match r
    case GetLk(lock) =>
      answer := list.Conflict(lock);
      OpenIff(list.locks, done, lock);
      if answer.Some? {
        forall x | answer.value.start <= x <= answer.value.end
          ensures KindRun(done, answer.value.owner, x) == answer.value.kind
        {
          ghost var i :| 0 <= i < |list.locks| && list.locks[i] == answer.value;
          KindAtCovered(list.locks, i, answer.value.owner, x);
        }
      }
    case SetLk(lock, granted) =>
      if granted {
        list.Insert(lock);
      }
  }

  /** Any run of requests. */
  method RunLocks(requests: seq<LockRequest>)
    returns (locks: seq<Lock>, answers: seq<Option<Lock>>, ghost trace: seq<seq<Lock>>)
    requires forall i :: 0 <= i < |requests| ==> InRange(requests[i].lock)
    ensures LockRun(trace, requests, answers, |requests|) && trace[0] == [] && trace[|requests|] == locks
    ensures Holds(locks, requests) && (GrantsOk(requests, |requests|) ==> NoConflict(locks))
    ensures |answers| == |requests|
    ensures forall i: nat | i < |requests| && requests[i].GetLk? ::
              answers[i].None? <==> IsOpen(requests[..i], requests[i].lock)
  {
    var list := new LockList();
    answers, trace := [], [list.locks];
    assert HoldsAt(trace, requests, 0);
    assert NoConflict(trace[0]);
    for i := 0 to |requests|
      invariant fresh(list) && list.Valid() && LockRun(trace, requests, answers, i)
      invariant trace[0] == [] && trace[i] == list.locks
    {
      assert HoldsAt(trace, requests, i);
      var answer := Request(list, requests[i], requests[..i]);
      LockRunSnoc(trace, requests, answers, i, answer, list.locks);
      answers, trace := answers + [answer], trace + [list.locks];
    }
    locks := list.locks;
    assert HoldsAt(trace, requests, |requests|) && requests[..|requests|] == requests;
    assert GrantsOk(requests, |requests|) ==> NoConflictUpTo(trace, |requests|);
    forall i: nat | i < |requests| && requests[i].GetLk?
      ensures answers[i].None? <==> IsOpen(requests[..i], requests[i].lock)
    {
      assert AnsweredAt(requests, answers, i);
    }
  }

  /** The process that a lock is reported to belong to need not have asked for the bytes in question: locks of one owner
      and kind that touch are merged, and the last request gives its process to all. */
  method PidOfNeighbour() returns (pid: int)
    ensures pid == 2
  {
    var first, second := Lock(Write, 0, 9, 1, 1), Lock(Write, 10, 19, 2, 1);
    var list := new LockList();
    list.Insert(first);
    ghost var before := list.locks;
    list.Insert(second);
    MergedNeighbour(before, first, list.locks, second);
    var found := list.Conflict(Lock(Write, 0, 0, 3, 2));
    pid := if found.Some? then found.value.pid else 0;
  }

  lemma CoveredIsLocked(locks: seq<Lock>, i: nat, o: int, x: int)
    requires Sorted(locks) && i < |locks|
    ensures Covers(locks[i], o, x) ==> KindAt(locks, o, x) == locks[i].kind && !locks[i].kind.Unlock?
  {
    if Covers(locks[i], o, x) {
      KindAtCovered(locks, i, o, x);
    }
  }

  /** No lock of the same owner and kind ends just where another begins. */
  lemma GapBefore(locks: seq<Lock>, i: nat)
    requires Sorted(locks) && i < |locks|
    ensures KindAt(locks, locks[i].owner, locks[i].start - 1) != locks[i].kind
  {
    if !KindAt(locks, locks[i].owner, locks[i].start - 1).Unlock? {
      var j := KindAtInside(locks, locks[i].owner, locks[i].start - 1);
      assert j < i ==> Before(locks[j], locks[i]);
      assert i < j ==> Before(locks[i], locks[j]);
    }
  }

  lemma CoversOnce(locks: seq<Lock>, i: nat, j: nat, o: int, x: int)
    requires Sorted(locks) && i < |locks| && j < |locks| && Covers(locks[i], o, x) && Covers(locks[j], o, x)
    ensures i == j
  {
  }

  /** After two such requests there is one lock, with the second's process. */
  lemma MergedNeighbour(locks: seq<Lock>, first: Lock, locks': seq<Lock>, second: Lock)
    requires first == Lock(Write, 0, 9, 1, 1) && second == Lock(Write, 10, 19, 2, 1)
    requires Set([], first, locks) && Set(locks, second, locks')
    requires if IsHeld(locks, second) then locks' == locks else IsSet(locks', second)
    ensures |locks'| > 0 && forall i :: 0 <= i < |locks'| ==> locks'[i] == Lock(Write, 0, 19, 2, 1)
  {
    assert KindAt(locks, 1, 10) == Overlaid([], first, 1, 10) == Unlock;
    forall i | 0 <= i < |locks| ensures !Contains(locks[i], second) {
      CoveredIsLocked(locks, i, 1, 10);
    }
    var i :| 0 <= i < |locks'| && Contains(locks'[i], second) && locks'[i].pid == 2;
    forall o, x ensures KindAt(locks', o, x) == if o == 1 && 0 <= x <= 19 then Write else Unlock {
      assert KindAt(locks', o, x) == Overlaid(locks, second, o, x);
      assert KindAt(locks, o, x) == Overlaid([], first, o, x);
    }
    GapBefore(locks', i);
    CoveredIsLocked(locks', i, 1, locks'[i].start);
    CoveredIsLocked(locks', i, 1, locks'[i].end);
    forall j | 0 <= j < |locks'| ensures locks'[j] == Lock(Write, 0, 19, 2, 1) {
      CoveredIsLocked(locks', j, locks'[j].owner, locks'[j].start);
      CoversOnce(locks', i, j, 1, locks'[j].start);
    }
  }
}
