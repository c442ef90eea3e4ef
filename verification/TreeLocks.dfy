/** Path locks on the inode tree of fuse-3/lib/fuse.c: one integer for each node counts its readers,
    marks a writer, or notes that a writer is waiting. */
module TreeLocks {
  import opened Options
  import opened Forest
  import opened NodeTree

  const TREELOCK_WRITE: int := -1
  const WAIT_OFFSET: int := -0x8000_0000

  /** One request's hold on a path: the nodes locked from `node` up to the root, the node locked for
      writing, and the path it was told. */
  datatype Hold = Hold(node: Id, chain: seq<Id>, wnode: Option<Id>, name: Option<string>, path: string)

  type Links = map<Id, Option<Link>>

  ghost function Readers(holds: seq<Hold>, n: Id): nat {
    if holds == [] then 0
    else Readers(holds[..|holds| - 1], n) + multiset(holds[|holds| - 1].chain)[n]
  }

  ghost function Writes(w: Option<Id>, n: Id): nat {
    if w == Some(n) then 1 else 0
  }

  ghost function Writers(holds: seq<Hold>, n: Id): nat {
    if holds == [] then 0
    else Writers(holds[..|holds| - 1], n) + Writes(holds[|holds| - 1].wnode, n)
  }

  /** What a lock word says: some readers, marked if a writer waits for them, or one writer. */
  ghost predicate Encodes(lock: int, readers: nat, writers: nat, waits: bool) {
    || (writers == 0 && !waits && lock == readers)
    || (writers == 0 && waits && readers > 0 && lock == WAIT_OFFSET + readers)
    || (writers == 1 && !waits && readers == 0 && lock == TREELOCK_WRITE)
  }

  /** Every lock word tells of the holds, of a request that so far has `chain` and `w`, and of the nodes that writers
      wait for. */
  ghost predicate Encoded(treelock: map<Id, int>, waiting: set<Id>, holds: seq<Hold>, chain: seq<Id>, w: Option<Id>) {
    forall n {:trigger EncodesAt(treelock, waiting, holds, chain, w, n)} ::
      n in treelock ==> EncodesAt(treelock, waiting, holds, chain, w, n)
  }

  ghost predicate EncodesAt(treelock: map<Id, int>, waiting: set<Id>, holds: seq<Hold>, chain: seq<Id>, w: Option<Id>,
                            n: Id)
    requires n in treelock
  {
    Encodes(treelock[n], Readers(holds, n) + multiset(chain)[n], Writers(holds, n) + Writes(w, n), n in waiting)
  }

  /** No node is locked twice by one request. */
  ghost predicate Simple(chain: seq<Id>) {
    forall i, j :: 0 <= i < j < |chain| ==> chain[i] != chain[j]
  }

  lemma {:induction false} SimpleCount(chain: seq<Id>, n: Id)
    requires Simple(chain)
    ensures multiset(chain)[n] <= 1
  {
    if chain != [] {
      var last := |chain| - 1;
      SimpleCount(chain[..last], n);
      assert chain == chain[..last] + [chain[last]];
      if chain[last] == n {
        assert n !in chain[..last];
      }
    }
  }

  lemma {:induction false} ReadersBounded(holds: seq<Hold>, n: Id)
    requires forall i :: 0 <= i < |holds| ==> Simple(holds[i].chain)
    ensures Readers(holds, n) <= |holds|
  {
    if holds != [] {
      ReadersBounded(holds[..|holds| - 1], n);
      SimpleCount(holds[|holds| - 1].chain, n);
    }
  }

  lemma {:induction false} HoldsConcat(a: seq<Hold>, b: seq<Hold>, n: Id)
    ensures Readers(a + b, n) == Readers(a, n) + Readers(b, n)
    ensures Writers(a + b, n) == Writers(a, n) + Writers(b, n)
  {
    if b == [] {
      assert a + b == a;
    } else {
      assert (a + b)[..|a + b| - 1] == a + b[..|b| - 1];
      HoldsConcat(a, b[..|b| - 1], n);
    }
  }

  /** A hold can be set apart from the rest. */
  lemma ApartFrom(treelock: map<Id, int>, waiting: set<Id>, a: seq<Hold>, h: Hold, b: seq<Hold>)
    ensures Encoded(treelock, waiting, a + [h] + b, [], None) <==> Encoded(treelock, waiting, a + b, h.chain, h.wnode)
  {
    forall n ensures Readers(a + [h] + b, n) == Readers(a + b, n) + multiset(h.chain)[n]
                     && Writers(a + [h] + b, n) == Writers(a + b, n) + Writes(h.wnode, n)
    {
      HoldsConcat(a + [h], b, n);
      HoldsConcat(a, [h], n);
      HoldsConcat(a, b, n);
      assert [h][..0] == [];
      assert Readers([h], n) == multiset(h.chain)[n];
      assert Writers([h], n) == Writes(h.wnode, n);
    }
    var all, rest := a + [h] + b, a + b;
    assert forall n <- treelock ::
        EncodesAt(treelock, waiting, all, [], None, n) <==> EncodesAt(treelock, waiting, rest, h.chain, h.wnode, n);
  }

  /** The nodes from `n` up to, and without, `end`. */
  ghost predicate Segment(links: Links, n: Id, chain: seq<Id>, end: Id)
    decreases |chain|
  {
    if chain == [] then n == end
    else
      && chain[0] == n && n != ROOT_ID && n in links && links[n].Some?
      && Segment(links, links[n].value.parent, chain[1..], end)
  }

  lemma {:induction false} SegmentGrows(links: Links, n: Id, chain: seq<Id>, end: Id)
    requires Segment(links, n, chain, end) && end != ROOT_ID && end in links && links[end].Some?
    ensures Segment(links, n, chain + [end], links[end].value.parent)
    decreases |chain|
  {
    if chain == [] {
      assert [end][1..] == [];
    } else {
      SegmentGrows(links, links[n].value.parent, chain[1..], end);
      assert (chain + [end])[1..] == chain[1..] + [end];
    }
  }

  /** Only one chain leads from a node to the root. */
  lemma {:induction false} SegmentUnique(links: Links, n: Id, c1: seq<Id>, c2: seq<Id>)
    requires Segment(links, n, c1, ROOT_ID) && Segment(links, n, c2, ROOT_ID)
    ensures c1 == c2
    decreases |c1|
  {
    if c1 != [] && c2 != [] {
      SegmentUnique(links, links[n].value.parent, c1[1..], c2[1..]);
      assert c1 == [n] + c1[1..] && c2 == [n] + c2[1..];
    }
  }

  /** A chain stays what it is as long as its nodes keep their links. */
  lemma {:induction false} SegmentFrame(links: Links, links': Links, n: Id, chain: seq<Id>, end: Id)
    requires Segment(links, n, chain, end)
    requires forall x :: x in chain && x in links ==> x in links' && links'[x] == links[x]
    ensures Segment(links', n, chain, end) && PathOf(links', chain) == PathOf(links, chain)
    decreases |chain|
  {
    if chain != [] {
      assert chain[0] in chain;
      SegmentFrame(links, links', links[n].value.parent, chain[1..], end);
    }
  }

  /** The path that leads down a chain. */
  ghost function PathOf(links: Links, chain: seq<Id>): string
    decreases |chain|
  {
    if chain == [] || chain[0] !in links || links[chain[0]].None? then ""
    else PathOf(links, chain[1..]) + "/" + links[chain[0]].value.name
  }

  lemma {:induction false} PathGrows(links: Links, n: Id, chain: seq<Id>, end: Id)
    requires Segment(links, n, chain, end) && end in links && links[end].Some?
    ensures PathOf(links, chain + [end]) == "/" + links[end].value.name + PathOf(links, chain)
    decreases |chain|
  {
    if chain == [] {
      assert [end][1..] == [];
    } else {
      PathGrows(links, links[n].value.parent, chain[1..], end);
      assert (chain + [end])[1..] == chain[1..] + [end];
      assert (chain + [end])[0] == chain[0];
    }
  }

  function Suffix(name: Option<string>): string {
    if name.Some? then "/" + name.value else ""
  }

  function OrRoot(s: string): string {
    if s == "" then "/" else s
  }

  /** The names that lead down a chain to its first node. */
  ghost function NamesDown(links: Links, chain: seq<Id>): seq<string>
    decreases |chain|
  {
    if chain == [] || chain[0] !in links || links[chain[0]].None? then []
    else NamesDown(links, chain[1..]) + [links[chain[0]].value.name]
  }

  /** And on to a child. */
  ghost function AndChild(names: seq<string>, child: Option<string>): seq<string> {
    if child.Some? then names + [child.value] else names
  }

  ghost function Spell(names: seq<string>): string {
    if names == [] then "" else Spell(names[..|names| - 1]) + "/" + names[|names| - 1]
  }

  /** The path that names make: each after a slash, and a slash alone if there are none. */
  ghost function PathFor(names: seq<string>): string {
    if names == [] then "/" else Spell(names)
  }

  lemma SpellMore(names: seq<string>, name: string)
    ensures Spell(names + [name]) == Spell(names) + "/" + name
  {
    assert (names + [name])[..|names + [name]| - 1] == names;
  }

  lemma {:induction false} PathIsSpelled(links: Links, chain: seq<Id>)
    ensures PathOf(links, chain) == Spell(NamesDown(links, chain))
    decreases |chain|
  {
    if chain != [] && chain[0] in links && links[chain[0]].Some? {
      PathIsSpelled(links, chain[1..]);
      SpellMore(NamesDown(links, chain[1..]), links[chain[0]].value.name);
    }
  }

  /** What a holder is told is the path for the names that lead to its node, and on to the child it asked about. */
  lemma ToldIsPath(links: Links, chain: seq<Id>, child: Option<string>)
    ensures OrRoot(PathOf(links, chain) + Suffix(child)) == PathFor(AndChild(NamesDown(links, chain), child))
  {
    var names := NamesDown(links, chain);
    PathIsSpelled(links, chain);
    assert Spell(names) + "" == Spell(names);
    if child.Some? {
      SpellMore(names, child.value);
      assert Spell(names) + ("/" + child.value) == Spell(names) + "/" + child.value;
    }
  }

  /** A hold is what its holder was told: a chain to the root, and the path it spells. */
  ghost predicate HoldOk(links: Links, h: Hold) {
    && Segment(links, h.node, h.chain, ROOT_ID)
    && h.path == OrRoot(PathOf(links, h.chain) + Suffix(h.name))
    && (h.wnode.Some? ==> h.wnode.value in links)
  }

  ghost predicate HoldsOk(links: Links, holds: seq<Hold>) {
    forall i :: 0 <= i < |holds| ==> HoldOk(links, holds[i])
  }

  /** Whatever way leads from a held node to the root, its names make the path that the holder was told. */
  lemma HoldTells(links: Links, h: Hold)
    requires HoldOk(links, h)
    ensures forall chain | Segment(links, h.node, chain, ROOT_ID) ::
              h.path == PathFor(AndChild(NamesDown(links, chain), h.name))
  {
    ToldIsPath(links, h.chain, h.name);
    forall chain | Segment(links, h.node, chain, ROOT_ID) ensures chain == h.chain {
      SegmentUnique(links, h.node, chain, h.chain);
    }
  }

  /** With this many holds or fewer a lock word is never ambiguous. */
  const MAX_HOLDS: nat := 0x7fff_fffe

  /** The readers of a node, a request under way among them, are few enough. */
  lemma FewReaders(holds: seq<Hold>, chain: seq<Id>, n: Id)
    requires (forall i :: 0 <= i < |holds| ==> Simple(holds[i].chain)) && Simple(chain) && |holds| < MAX_HOLDS
    ensures Readers(holds, n) + multiset(chain)[n] <= MAX_HOLDS
  {
    ReadersBounded(holds, n);
    SimpleCount(chain, n);
  }

  ghost predicate AllSimple(holds: seq<Hold>) {
    |holds| < MAX_HOLDS && forall i :: 0 <= i < |holds| ==> Simple(holds[i].chain)
  }

  /** One lock word changes, and with it what is held on that node. */
  lemma OneWord(treelock: map<Id, int>, waiting: set<Id>, holds: seq<Hold>, chain: seq<Id>, w: Option<Id>, e: Id,
                lock: int, waiting': set<Id>, chain': seq<Id>, w': Option<Id>)
    requires Encoded(treelock, waiting, holds, chain, w) && e in treelock
    requires forall n :: n != e ==> multiset(chain)[n] == multiset(chain')[n] && Writes(w, n) == Writes(w', n)
    requires forall n :: n != e ==> (n in waiting <==> n in waiting')
    requires Encodes(lock, Readers(holds, e) + multiset(chain')[e], Writers(holds, e) + Writes(w', e), e in waiting')
    ensures Encoded(treelock[e := lock], waiting', holds, chain', w')
  {
    forall n | n in treelock ensures EncodesAt(treelock[e := lock], waiting', holds, chain', w', n) {
      assert n != e ==> EncodesAt(treelock, waiting, holds, chain, w, n);
    }
  }

  /** One more node is locked for reading. */
  lemma ReadLockStep(treelock: map<Id, int>, waiting: set<Id>, holds: seq<Hold>, chain: seq<Id>, w: Option<Id>, e: Id)
    requires Encoded(treelock, waiting, holds, chain, w) && AllSimple(holds) && Simple(chain)
    requires e in treelock && treelock[e] >= 0
    ensures Encoded(treelock[e := treelock[e] + 1], waiting, holds, chain + [e], w)
  {
    FewReaders(holds, chain, e);
    assert EncodesAt(treelock, waiting, holds, chain, w, e);
    OneWord(treelock, waiting, holds, chain, w, e, treelock[e] + 1, waiting, chain + [e], w);
  }

  lemma HeadCount(chain: seq<Id>)
    requires chain != []
    ensures forall n :: multiset(chain)[n] == multiset(chain[1..])[n] + if n == chain[0] then 1 else 0
  {
    assert chain == [chain[0]] + chain[1..];
  }

  /** The lock word after a reader has left. */
  function ReadUnlocked(lock: int): int {
    if lock - 1 == WAIT_OFFSET then 0 else lock - 1
  }

  /** The nodes of `waiting` that still have readers. */
  ghost function StillRead(waiting: set<Id>, holds: seq<Hold>, chain: seq<Id>): set<Id> {
    set n | n in waiting && Readers(holds, n) + multiset(chain)[n] > 0
  }

  /** Writers wait only for readers. */
  lemma WaitingAreRead(treelock: map<Id, int>, waiting: set<Id>, holds: seq<Hold>, chain: seq<Id>, w: Option<Id>)
    requires Encoded(treelock, waiting, holds, chain, w) && waiting <= treelock.Keys
    ensures StillRead(waiting, holds, chain) == waiting && (chain == [] ==> AllRead(waiting, holds))
  {
    forall n | n in waiting ensures Readers(holds, n) + multiset(chain)[n] > 0 {
      assert EncodesAt(treelock, waiting, holds, chain, w, n);
    }
  }

  ghost predicate AllRead(waiting: set<Id>, holds: seq<Hold>) {
    forall n <- waiting :: Readers(holds, n) > 0
  }

  lemma AllReadStay(waiting: set<Id>, holds: seq<Hold>)
    requires AllRead(waiting, holds)
    ensures StillRead(waiting, holds, []) == waiting
  {
  }

  /** A reader leaves; the assertions of the source hold. The mark goes with the last reader, and not before. */
  lemma ReadUnlockStep(treelock: map<Id, int>, waiting: set<Id>, holds: seq<Hold>, chain: seq<Id>, w: Option<Id>)
    requires Encoded(treelock, waiting, holds, chain, w) && AllSimple(holds) && Simple(chain)
    requires chain != [] && chain[0] in treelock && waiting <= treelock.Keys
    ensures treelock[chain[0]] != 0 && treelock[chain[0]] != WAIT_OFFSET && treelock[chain[0]] != TREELOCK_WRITE
    ensures Encoded(treelock[chain[0] := ReadUnlocked(treelock[chain[0]])], StillRead(waiting, holds, chain[1..]),
                    holds, chain[1..], w)
  {
    var e, waiting' := chain[0], StillRead(waiting, holds, chain[1..]);
    FewReaders(holds, chain, e);
    HeadCount(chain);
    WaitingAreRead(treelock, waiting, holds, chain, w);
    forall n | n != e ensures n in waiting <==> n in waiting' {
      assert n in waiting ==> n in StillRead(waiting, holds, chain);
    }
    assert EncodesAt(treelock, waiting, holds, chain, w, e);
    OneWord(treelock, waiting, holds, chain, w, e, ReadUnlocked(treelock[e]), waiting', chain[1..], w);
  }

  lemma WriteLockStep(treelock: map<Id, int>, waiting: set<Id>, holds: seq<Hold>, e: Id)
    requires Encoded(treelock, waiting, holds, [], None) && AllSimple(holds) && e in treelock && treelock[e] == 0
    ensures Encoded(treelock[e := TREELOCK_WRITE], waiting, holds, [], Some(e))
  {
    FewReaders(holds, [], e);
    assert EncodesAt(treelock, waiting, holds, [], None, e);
    OneWord(treelock, waiting, holds, [], None, e, TREELOCK_WRITE, waiting, [], Some(e));
  }

  lemma WriteUnlockStep(treelock: map<Id, int>, waiting: set<Id>, holds: seq<Hold>, chain: seq<Id>, e: Id)
    requires Encoded(treelock, waiting, holds, chain, Some(e)) && e in treelock
    ensures treelock[e] == TREELOCK_WRITE && Encoded(treelock[e := 0], waiting, holds, chain, None)
  {
    assert EncodesAt(treelock, waiting, holds, chain, Some(e), e);
    OneWord(treelock, waiting, holds, chain, Some(e), e, 0, waiting, chain, None);
  }

  /** A writer that finds readers leaves a mark. */
  lemma WaitStep(treelock: map<Id, int>, waiting: set<Id>, holds: seq<Hold>, e: Id)
    requires Encoded(treelock, waiting, holds, [], None) && e in treelock && treelock[e] > 0 && AllSimple(holds)
    ensures Encoded(treelock[e := treelock[e] + WAIT_OFFSET], waiting + {e}, holds, [], None)
  {
    FewReaders(holds, [], e);
    assert EncodesAt(treelock, waiting, holds, [], None, e);
    OneWord(treelock, waiting, holds, [], None, e, treelock[e] + WAIT_OFFSET, waiting + {e}, [], None);
  }

  /** A node locked for writing is on nobody's path, and no one else's to write. */
  lemma WriterIsAlone(treelock: map<Id, int>, waiting: set<Id>, holds: seq<Hold>, i: nat, w: Id)
    requires Encoded(treelock, waiting, holds, [], None) && i < |holds| && holds[i].wnode == Some(w) && w in treelock
    ensures Readers(holds, w) == 0 && Writers(holds, w) == 1
    ensures forall j :: 0 <= j < |holds| ==> w !in holds[j].chain
    ensures forall j :: 0 <= j < |holds| && j != i ==> holds[j].wnode != Some(w)
  {
    assert EncodesAt(treelock, waiting, holds, [], None, w);
    HoldCounts(holds, i, w);
    forall j | 0 <= j < |holds| ensures w !in holds[j].chain {
      HoldCounts(holds, j, w);
    }
    forall j | 0 <= j < |holds| && j != i ensures holds[j].wnode != Some(w) {
      TwoHoldCounts(holds, i, j, w);
    }
  }

  lemma {:induction false} HoldCounts(holds: seq<Hold>, i: nat, n: Id)
    requires i < |holds|
    ensures Readers(holds, n) >= multiset(holds[i].chain)[n] && Writers(holds, n) >= Writes(holds[i].wnode, n)
    ensures n in holds[i].chain ==> Readers(holds, n) > 0
  {
    if i < |holds| - 1 {
      HoldCounts(holds[..|holds| - 1], i, n);
    }
    assert n in holds[i].chain ==> multiset(holds[i].chain)[n] > 0;
  }

  lemma {:induction false} TwoHoldCounts(holds: seq<Hold>, i: nat, j: nat, n: Id)
    requires i < |holds| && j < |holds| && i != j
    ensures Writers(holds, n) >= Writes(holds[i].wnode, n) + Writes(holds[j].wnode, n)
  {
    var last := |holds| - 1;
    if i == last {
      HoldCounts(holds[..last], j, n);
    } else if j == last {
      HoldCounts(holds[..last], i, n);
    } else {
      TwoHoldCounts(holds[..last], i, j, n);
    }
  }

  /** A node with a free lock is on nobody's path either. */
  lemma FreeIsAlone(treelock: map<Id, int>, waiting: set<Id>, holds: seq<Hold>, n: Id)
    requires Encoded(treelock, waiting, holds, [], None) && AllSimple(holds) && n in treelock && treelock[n] == 0
    ensures n !in waiting
    ensures forall j :: 0 <= j < |holds| ==> n !in holds[j].chain && holds[j].wnode != Some(n)
  {
    FewReaders(holds, [], n);
    assert EncodesAt(treelock, waiting, holds, [], None, n);
    forall j | 0 <= j < |holds| ensures n !in holds[j].chain && holds[j].wnode != Some(n) {
      HoldCounts(holds, j, n);
    }
  }

  ghost function ParentsOf(links: Links): map<Id, Id> {
    map c | c in links && links[c].Some? :: links[c].value.parent
  }

  /** Holds outlast a change of links off their paths. */
  lemma HoldsKeep(links: Links, links': Links, holds: seq<Hold>)
    requires HoldsOk(links, holds)
    requires forall j, x ::
               0 <= j < |holds| && x in holds[j].chain && x in links ==> x in links' && links'[x] == links[x]
    requires forall j :: 0 <= j < |holds| && holds[j].wnode.Some? ==> holds[j].wnode.value in links'
    ensures HoldsOk(links', holds)
  {
    forall j | 0 <= j < |holds| ensures HoldOk(links', holds[j]) {
      SegmentFrame(links, links', holds[j].node, holds[j].chain, ROOT_ID);
    }
  }

  /** A chain does not survive a change of parent of one of its nodes. */
  lemma {:induction false} SegmentBreaks(links: Links, x: Id, chain: seq<Id>, n: Id, link: Option<Link>)
    requires Segment(links, x, chain, ROOT_ID) && n in chain && n in links && links[n].Some?
    requires link.None? || link.value.parent != links[n].value.parent
    ensures !Segment(links[n := link], x, chain, ROOT_ID)
    decreases |chain|
  {
    if x == n {
      if chain[1..] != [] && link.Some? {
        assert chain[1..][0] == links[n].value.parent;
      }
    } else {
      SegmentBreaks(links, links[x].value.parent, chain[1..], n, link);
    }
  }

  /** Nor does the path it spells survive a change of name. */
  lemma {:induction false} PathBreaks(links: Links, x: Id, chain: seq<Id>, end: Id, n: Id, link: Link)
    requires Segment(links, x, chain, end) && Simple(chain) && n in chain && n in links && links[n].Some?
    requires link.parent == links[n].value.parent && link.name != links[n].value.name
    ensures PathOf(links[n := Some(link)], chain) != PathOf(links, chain)
    decreases |chain|
  {
    var links', rest := links[n := Some(link)], chain[1..];
    if x == n {
      assert forall y :: y in rest ==> y != n;
      SegmentFrame(links, links', links[n].value.parent, rest, end);
      Cancel(PathOf(links, rest) + "/", link.name, PathOf(links, rest) + "/", links[n].value.name);
    } else {
      assert n in rest && Simple(rest);
      PathBreaks(links, links[x].value.parent, rest, end, n, link);
      assert links'[x] == links[x];
      CancelEnd(PathOf(links', rest), PathOf(links, rest), "/" + links[x].value.name);
      assert PathOf(links', chain) == PathOf(links', rest) + ("/" + links[x].value.name);
      assert PathOf(links, chain) == PathOf(links, rest) + ("/" + links[x].value.name);
    }
  }

  lemma Cancel(a: string, x: string, b: string, y: string)
    requires a == b && x != y
    ensures a + x != b + y
  {
    assert (a + x)[|a|..] == x && (b + y)[|b|..] == y;
  }

  lemma CancelEnd(a: string, b: string, x: string)
    requires a != b
    ensures a + x != b + x
  {
    assert (a + x)[..|a|] == a && (b + x)[..|b|] == b && |a + x| == |a| + |x| && |b + x| == |b| + |x|;
  }

  lemma PathNotEmpty(links: Links, x: Id, chain: seq<Id>, end: Id)
    requires Segment(links, x, chain, end) && chain != []
    ensures PathOf(links, chain) != ""
  {
  }

  /** A node may change its link under the holds exactly when it is on no held path. */
  lemma MoveKeepsHoldsIff(links: Links, holds: seq<Hold>, n: Id, link: Option<Link>)
    requires HoldsOk(links, holds) && AllSimple(holds) && n in links && links[n].Some? && link != links[n]
    ensures HoldsOk(links[n := link], holds) <==> forall j :: 0 <= j < |holds| ==> n !in holds[j].chain
  {
    var links' := links[n := link];
    if j :| 0 <= j < |holds| && n in holds[j].chain {
      var h := holds[j];
      assert HoldOk(links, h);
      if link.None? || link.value.parent != links[n].value.parent {
        SegmentBreaks(links, h.node, h.chain, n, link);
      } else {
        PathBreaks(links, h.node, h.chain, ROOT_ID, n, link.value);
        CancelEnd(PathOf(links', h.chain), PathOf(links, h.chain), Suffix(h.name));
        PathNotEmpty(links, h.node, h.chain, ROOT_ID);
        if HoldOk(links', h) {
          PathNotEmpty(links', h.node, h.chain, ROOT_ID);
        }
      }
      assert !HoldOk(links', h);
    } else {
      HoldsKeep(links, links', holds);
    }
  }

  /** The links after a rename: a node that has the new name loses its own. */
  function RenamedLinks(links: Links, names: map<Link, Id>, w: Id, k: Link): Links {
    (if k in names then links[names[k] := None] else links)[w := Some(k)]
  }

  /** Neither the node to be renamed nor the one that has the new name is on a held path. */
  ghost predicate Clear(holds: seq<Hold>, w: Id, names: map<Link, Id>, k: Link) {
    forall j :: 0 <= j < |holds| ==> w !in holds[j].chain && (k in names ==> names[k] !in holds[j].chain)
  }

  lemma {:induction false} SegmentLinked(links: Links, x: Id, chain: seq<Id>, n: Id)
    requires Segment(links, x, chain, ROOT_ID) && n in chain
    ensures n in links && links[n].Some?
    decreases |chain|
  {
    if n != x {
      assert n in chain[1..];
      SegmentLinked(links, links[x].value.parent, chain[1..], n);
    }
  }

  /** A rename leaves the holds what they are exactly when it changes nothing or neither node is on a held path. */
  lemma RenameKeepsHoldsIff(links: Links, names: map<Link, Id>, holds: seq<Hold>, w: Id, k: Link)
    requires Shape(links, names) && HoldsOk(links, holds) && AllSimple(holds) && w in links && links[w].Some?
    ensures HoldsOk(RenamedLinks(links, names, w, k), holds) <==> links[w] == Some(k) || Clear(holds, w, names, k)
  {
    assert IsNamed(links, names, w);
    var links' := RenamedLinks(links, names, w, k);
    if links[w] == Some(k) {
      assert links' == links;
    } else if k !in names {
      MoveKeepsHoldsIff(links, holds, w, Some(k));
    } else if j :| 0 <= j < |holds| && names[k] in holds[j].chain {
      var h := holds[j];
      if Segment(links', h.node, h.chain, ROOT_ID) {
        SegmentLinked(links', h.node, h.chain, names[k]);
      }
      assert !HoldOk(links', h);
    } else {
      MoveKeepsHoldsIff(links, holds, names[k], None);
      MoveKeepsHoldsIff(links[names[k] := None], holds, w, Some(k));
    }
  }

  lemma RenamedShape(links: Links, names: map<Link, Id>, w: Id, k: Link)
    requires Shape(links, names) && w in links && w != ROOT_ID && links[w].Some?
    requires k.parent in links && !IsBelow(ParentsOf(links), k.parent, w)
    ensures Shape(RenamedLinks(links, names, w, k), (names - {links[w].value})[k := w])
  {
    assert IsNamed(links, names, w);
    if links[w] == Some(k) {
      assert RenamedLinks(links, names, w, k) == links && (names - {k})[k := w] == names;
    } else if k in names {
      var newnode := names[k];
      var loose := links[newnode := None];
      UnlinkShape(links, names, newnode);
      BelowInFewer(ParentsOf(links), ParentsOf(loose), k.parent, w);
      MoveShape(loose, names - {k}, w, k);
      assert (names - {k} - {links[w].value})[k := w] == (names - {links[w].value})[k := w];
    } else {
      MoveShape(links, names, w, k);
    }
  }

  /** Nothing on a path to the root is below a node off that path. */
  lemma {:induction false} NotBelow(links: Links, n: Id, chain: seq<Id>, w: Id)
    requires Segment(links, n, chain, ROOT_ID) && w !in chain && w != ROOT_ID
    requires ROOT_ID in links ==> links[ROOT_ID].None?
    ensures !IsBelow(ParentsOf(links), n, w)
    decreases |chain|
  {
    if chain == [] {
      BelowTop(ParentsOf(links), n, w);
    } else {
      assert chain[0] in chain;
      NotBelow(links, links[n].value.parent, chain[1..], w);
      BelowStep(ParentsOf(links), n, w);
    }
  }

  /** Moving a node below a directory that is not below it keeps the tree a tree. */
  lemma MoveAcyclic(links: Links, w: Id, k: Link)
    requires Acyclic(ParentsOf(links)) && w in links && !IsBelow(ParentsOf(links), k.parent, w)
    ensures Acyclic(ParentsOf(links[w := Some(k)]))
  {
    var loose := ParentsOf(links) - {w};
    SubForest(ParentsOf(links), loose);
    BelowInFewer(ParentsOf(links), loose, k.parent, w);
    AttachAcyclicIff(loose, w, k.parent);
    assert ParentsOf(links[w := Some(k)]) == loose[w := k.parent];
  }

  lemma UnlinkAcyclic(links: Links, w: Id)
    requires Acyclic(ParentsOf(links)) && w in links
    ensures Acyclic(ParentsOf(links[w := None])) && Acyclic(ParentsOf(links - {w}))
  {
    SubForest(ParentsOf(links), ParentsOf(links[w := None]));
    SubForest(ParentsOf(links), ParentsOf(links - {w}));
  }

  /** On the way from `nodeid` to the root: `chain` is behind, `node` is next, `s` spells the chain. */
  ghost predicate Climbing(links: Links, nodeid: Id, chain: seq<Id>, node: Id, rank: Id -> nat, s: string,
                           name: Option<string>) {
    && node in links && Segment(links, nodeid, chain, node)
    && Simple(chain) && (forall x :: x in chain ==> rank(x) > rank(node))
    && s == PathOf(links, chain) + Suffix(name)
  }

  lemma ClimbOn(links: Links, nodeid: Id, chain: seq<Id>, node: Id, rank: Id -> nat, s: string, name: Option<string>)
    requires Climbing(links, nodeid, chain, node, rank, s, name) && Ranks(ParentsOf(links), rank)
    requires node != ROOT_ID && links[node].Some? && links[node].value.parent in links
    ensures Climbing(links, nodeid, chain + [node], links[node].value.parent, rank, "/" + links[node].value.name + s,
                     name)
    ensures rank(links[node].value.parent) < rank(node)
  {
    SegmentGrows(links, nodeid, chain, node);
    PathGrows(links, nodeid, chain, node);
    assert node in ParentsOf(links);
    assert "/" + links[node].value.name + s == PathOf(links, chain + [node]) + Suffix(name);
  }

  /** There is no way to the root past an unlinked node. */
  lemma {:induction false} NoWay(links: Links, n: Id, chain: seq<Id>, end: Id, other: seq<Id>)
    requires Segment(links, n, chain, end) && end != ROOT_ID && end in links && links[end].None?
    ensures !Segment(links, n, other, ROOT_ID)
    decreases |chain|
  {
    if chain != [] && other != [] {
      NoWay(links, links[n].value.parent, chain[1..], end, other[1..]);
    }
  }

  lemma NoWayAtAll(links: Links, n: Id, chain: seq<Id>, end: Id)
    requires Segment(links, n, chain, end) && end != ROOT_ID && end in links && links[end].None?
    ensures forall other :: !Segment(links, n, other, ROOT_ID)
  {
    forall other ensures !Segment(links, n, other, ROOT_ID) {
      NoWay(links, n, chain, end, other);
    }
  }

  /** The request under way becomes a hold. */
  lemma BecomesHold(links: Links, treelock: map<Id, int>, waiting: set<Id>, holds: seq<Hold>, nodeid: Id,
                    chain: seq<Id>, wnode: Option<Id>, rank: Id -> nat, s: string, name: Option<string>, h: Hold)
    requires Climbing(links, nodeid, chain, ROOT_ID, rank, s, name) && HoldsOk(links, holds)
    requires Encoded(treelock, waiting, holds, chain, wnode) && (wnode.Some? ==> wnode.value in links)
    requires h == Hold(nodeid, chain, wnode, name, OrRoot(s))
    ensures HoldsOk(links, holds + [h]) && Encoded(treelock, waiting, holds + [h], [], None)
  {
    assert holds + [h] + [] == holds + [h] && holds + [] == holds;
    ApartFrom(treelock, waiting, holds, h, []);
  }

  /** A hold as its holder was told of it. */
  ghost predicate IsHold(h: Hold, node: Id, name: Option<string>, r: Outcome) {
    r.Got? && h.node == node && h.wnode == r.wnode && h.name == name && h.path == r.path
  }

  /** There is one hold more, that of a request which was answered `r`. */
  ghost predicate OneMore(holds: seq<Hold>, holds': seq<Hold>, node: Id, name: Option<string>, r: Outcome) {
    |holds'| == |holds| + 1 && holds'[..|holds|] == holds && IsHold(holds'[|holds|], node, name, r)
  }

  datatype Outcome = Got(path: string, wnode: Option<Id>) | NoEntry | Again

  ghost predicate ParentLive(links: Links, c: Id) {
    c in links && (links[c].Some? ==> links[c].value.parent in links)
  }

  /** A tree of live nodes under the root, with the names of its nodes. */
  ghost predicate Shape(links: Links, names: map<Link, Id>) {
    && ROOT_ID in links && links[ROOT_ID].None? && Acyclic(ParentsOf(links))
    && (forall c {:trigger ParentLive(links, c)} :: c in links ==> ParentLive(links, c))
    && (forall k :: k in names ==> names[k] in links && links[names[k]] == Some(k))
    && (forall c {:trigger IsNamed(links, names, c)} :: c in links ==> IsNamed(links, names, c))
  }

  ghost predicate IsNamed(links: Links, names: map<Link, Id>, c: Id) {
    c in links && (links[c].Some? ==> links[c].value in names && names[links[c].value] == c)
  }

  datatype LockState = LockState(links: Links, names: map<Link, Id>, treelock: map<Id, int>, holds: seq<Hold>,
                                 waiting: set<Id>)

  /** A request for a path is granted exactly when it can be; a refusal has its reason, and leaves its mark on a child
      that is read. */
  ghost predicate Acquires(s: LockState, node: Id, name: Option<string>, wr: bool, r: Outcome, s': LockState) {
    var child := WantedChild(s.names, node, name, wr);
    && s'.links == s.links && s'.names == s.names
    && (r.Got? <==> MayLock(s.links, s.names, s.treelock, node, name, wr))
    && (r.Got? ==>
          && r.wnode == child && OneMore(s.holds, s'.holds, node, name, r)
          && NowLocked(s.treelock, s'.treelock, s'.holds[|s.holds|].chain, child))
    && (!r.Got? ==> s'.holds == s.holds)
    && (r.NoEntry? ==> !HasWay(s.links, node))
    && (r.Again? ==> Hindered(s.links, s.treelock, node, child))
    && s'.waiting == s.waiting + MetReaders(s.treelock, child)
  }

  /** A request for two paths is granted exactly when each could be and they do not clash. */
  ghost predicate AcquiresBoth(s: LockState, node1: Id, name1: Option<string>, wr1: bool, node2: Id,
                               name2: Option<string>, wr2: bool, r1: Outcome, r2: Outcome, s': LockState) {
    var child1, child2 := WantedChild(s.names, node1, name1, wr1), WantedChild(s.names, node2, name2, wr2);
    && s'.links == s.links && s'.names == s.names
    && (r2.Got? <==>
        && MayLock(s.links, s.names, s.treelock, node1, name1, wr1)
        && MayLock(s.links, s.names, s.treelock, node2, name2, wr2)
        && !Clash(s.links, node1, child1, node2, child2))
    && (r2.Got? ==>
          && r1.Got? && r1.wnode == child1 && r2.wnode == child2 && |s'.holds| == |s.holds| + 2
          && OneMore(s.holds, s'.holds[..|s.holds| + 1], node1, name1, r1)
          && OneMore(s'.holds[..|s.holds| + 1], s'.holds, node2, name2, r2))
    && (!r2.Got? ==> s'.holds == s.holds)
    && (r2.NoEntry? ==> !HasWay(s.links, node1) || !HasWay(s.links, node2))
    && (r2.Again? ==> || Hindered(s.links, s.treelock, node1, child1) || Hindered(s.links, s.treelock, node2, child2)
                      || Clash(s.links, node1, child1, node2, child2))
    && s'.waiting == s.waiting + MetReaders2(s.links, s.names, s.treelock, node1, name1, wr1, node2, name2, wr2)
  }

  class LockedTree {
    var links: Links
    var names: map<Link, Id>
    var treelock: map<Id, int>
    ghost var holds: seq<Hold>
    /** The nodes whose readers a request for writing has met and not seen off. */
    ghost var waiting: set<Id>

    /** Every lock word tells exactly who holds the node, and every holder's path is as it was told. */
    ghost predicate Valid() reads this {
      && Shape(links, names) && treelock.Keys == links.Keys && waiting <= treelock.Keys
      && AllSimple(holds) && HoldsOk(links, holds) && Encoded(treelock, waiting, holds, [], None)
    }

    ghost function State(): LockState reads this {
      LockState(links, names, treelock, holds, waiting)
    }

    constructor ()
      ensures Valid() && State() == LockState(map[ROOT_ID := None], map[], map[ROOT_ID := 0], [], {})
    {
      links, names, treelock, holds, waiting := map[ROOT_ID := None], map[], map[ROOT_ID := 0], [], {};
      new;
      assert Ranks(ParentsOf(links), x => 0);
      assert forall c :: c in links ==> ParentLive(links, c) && IsNamed(links, names, c);
    }

    /** `unlock_path`: undoes the locks of `chain`, the nodes from `nodeid` up to `stop`. */
    method UnlockPath(nodeid: Id, wnode: Option<Id>, end: Option<Id>, ghost chain: seq<Id>, ghost stop: Id)
      requires Segment(links, nodeid, chain, stop) && Simple(chain) && stop !in chain
      requires end == Some(stop) || (end.None? && stop == ROOT_ID)
      requires treelock.Keys == links.Keys && waiting <= treelock.Keys && (wnode.Some? ==> wnode.value in treelock)
      requires AllSimple(holds) && Encoded(treelock, waiting, holds, chain, wnode)
      modifies this`treelock, this`waiting
      ensures treelock.Keys == links.Keys && waiting <= treelock.Keys && Encoded(treelock, waiting, holds, [], None)
      ensures waiting == StillRead(old(waiting), holds, [])
    {
      if wnode.Some? {
        WriteUnlockStep(treelock, waiting, holds, chain, wnode.value);
        assert treelock[wnode.value] == TREELOCK_WRITE;
        treelock := treelock[wnode.value := 0];
      }
      var node := nodeid;
      ghost var rest := chain;
      WaitingAreRead(treelock, waiting, holds, chain, None);
      while end != Some(node) && node != ROOT_ID
        invariant Segment(links, node, rest, stop) && Simple(rest) && stop !in rest
        invariant treelock.Keys == links.Keys && Encoded(treelock, waiting, holds, rest, None)
        invariant waiting == StillRead(old(waiting), holds, rest)
        decreases |rest|
      {
        ReadUnlockStep(treelock, waiting, holds, rest, None);
        FewerRead(old(waiting), holds, rest);
        assert treelock[node] != 0 && treelock[node] != WAIT_OFFSET && treelock[node] != TREELOCK_WRITE;
        treelock := treelock[node := ReadUnlocked(treelock[node])];
        waiting := StillRead(waiting, holds, rest[1..]);
        node := links[node].value.parent;
        rest := rest[1..];
      }
      assert rest == [];
    }

    /** `try_get_path` with locking; `wr` asks for the named child to be locked for writing. It succeeds exactly when
        there is a way to the root with no lock in it that keeps readers out, and the child is free. */
    method TryGetPath(nodeid: Id, name: Option<string>, wr: bool) returns (r: Outcome)
      requires Valid() && nodeid in links && (wr ==> name.Some?) && |holds| + 1 < MAX_HOLDS
      modifies this`treelock, this`holds, this`waiting
      ensures Valid() && Acquires(old(State()), nodeid, name, wr, r, State())
    {
      var wnode := None;
      WaitingAreRead(treelock, waiting, holds, [], None);
      if wr && Link(nodeid, name.value) in names {
        var w := names[Link(nodeid, name.value)];
        var locked := LockWriter(w);
        if !locked {
          return Again;
        }
        wnode := Some(w);
      }
      ghost var marked := treelock;
      r := Climb(nodeid, name, wnode);
      if wnode.Some? {
        ChildDoesNotBlock(links, old(treelock), nodeid, wnode.value);
        if r.Got? {
          assert HoldOk(links, holds[|old(holds)|]);
          ChildOffChain(links, nodeid, holds[|old(holds)|].chain, wnode.value);
          assert NowLocked(marked, treelock, holds[|old(holds)|].chain, None);
        }
      }
    }

    /** The named child is locked for writing if it is free; readers found there are told that a writer waits. */
    method LockWriter(w: Id) returns (locked: bool)
      requires Valid() && w in links && |holds| + 1 < MAX_HOLDS
      modifies this`treelock, this`waiting
      ensures locked <==> old(treelock)[w] == 0
      ensures if locked then Underway([], Some(w)) && treelock == old(treelock)[w := TREELOCK_WRITE] else Valid()
      ensures waiting == old(waiting) + MetReaders(old(treelock), Some(w))
    {
      locked := treelock[w] == 0;
      WaitingAreRead(treelock, waiting, holds, [], None);
      if locked {
        WriteLockStep(treelock, waiting, holds, w);
        treelock := treelock[w := TREELOCK_WRITE];
      } else if treelock[w] > 0 {
        WaitStep(treelock, waiting, holds, w);
        treelock := treelock[w := treelock[w] + WAIT_OFFSET];
        waiting := waiting + {w};
      }
    }

    /** A request under way has locked `chain` and `w` on top of the holds. */
    ghost predicate Underway(chain: seq<Id>, w: Option<Id>) reads this {
      && Shape(links, names) && treelock.Keys == links.Keys && (w.Some? ==> w.value in links)
      && waiting <= treelock.Keys && AllRead(waiting, holds)
      && |holds| + 1 < MAX_HOLDS && AllSimple(holds) && HoldsOk(links, holds)
      && Encoded(treelock, waiting, holds, chain, w)
    }

    /** The walk to the root, locking the nodes on the way; on failure nothing stays locked. */
    method Climb(nodeid: Id, name: Option<string>, wnode: Option<Id>) returns (r: Outcome)
      requires Underway([], wnode) && nodeid in links
      modifies this`treelock, this`holds, this`waiting
      ensures Valid() && waiting == old(waiting)
      ensures !r.Got? ==> holds == old(holds)
      ensures r.Got? ==>
                && r.wnode == wnode && OneMore(old(holds), holds, nodeid, name, r)
                && NowLocked(old(treelock), treelock, holds[|old(holds)|].chain, None)
      ensures r.Got? <==> HasWay(links, nodeid) && !Blocked(links, old(treelock), nodeid)
      ensures r.NoEntry? ==> !HasWay(links, nodeid)
      ensures r.Again? ==> Blocked(links, old(treelock), nodeid)
    {
      ghost var rank: Id -> nat :| Ranks(ParentsOf(links), rank);
      ghost var chain: seq<Id> := [];
      var s, node := Suffix(name), nodeid;
      while node != ROOT_ID
        invariant Climbing(links, nodeid, chain, node, rank, s, name) && Underway(chain, wnode)
        invariant holds == old(holds) && waiting == old(waiting) && NowLocked(old(treelock), treelock, chain, None)
        decreases rank(node)
      {
        if links[node].None? || treelock[node] < 0 {
          assert treelock[node] == old(treelock)[node] && OnWay(links, nodeid, node);
          GiveUp(nodeid, wnode, node, chain);
          if links[node].None? {
            NoWayAtAll(links, nodeid, chain, node);
            return NoEntry;
          }
          return Again;
        }
        s := Pass(nodeid, node, s, chain, wnode, name, rank, old(treelock));
        chain := chain + [node];
        node := links[node].value.parent;
      }
      r := Got(OrRoot(s), wnode);
      OpenWay(links, old(treelock), treelock, nodeid, chain);
      Record(nodeid, wnode, name, chain, rank, s);
    }

    /** One node is locked for reading and its name put in front of the path. */
    method Pass(ghost nodeid: Id, node: Id, s: string, ghost chain: seq<Id>, ghost wnode: Option<Id>,
                ghost name: Option<string>, ghost rank: Id -> nat, ghost treelock0: map<Id, int>)
      returns (s': string)
      requires Climbing(links, nodeid, chain, node, rank, s, name) && Ranks(ParentsOf(links), rank)
      requires Underway(chain, wnode) && NowLocked(treelock0, treelock, chain, None)
      requires node != ROOT_ID && links[node].Some? && treelock[node] >= 0
      modifies this`treelock
      ensures Underway(chain + [node], wnode) && NowLocked(treelock0, treelock, chain + [node], None)
      ensures Climbing(links, nodeid, chain + [node], links[node].value.parent, rank, s', name)
      ensures rank(links[node].value.parent) < rank(node)
    {
      assert node !in chain;
      LockNode(node, chain, wnode);
      assert ParentLive(links, node);
      ClimbOn(links, nodeid, chain, node, rank, s, name);
      s' := "/" + links[node].value.name + s;
    }

    method GiveUp(nodeid: Id, wnode: Option<Id>, node: Id, ghost chain: seq<Id>)
      requires Underway(chain, wnode) && Segment(links, nodeid, chain, node) && Simple(chain) && node !in chain
      modifies this`treelock, this`waiting
      ensures Valid() && waiting == old(waiting)
    {
      AllReadStay(waiting, holds);
      UnlockPath(nodeid, wnode, Some(node), chain, node);
    }

    method LockNode(node: Id, ghost chain: seq<Id>, ghost wnode: Option<Id>)
      requires Underway(chain, wnode) && Simple(chain) && node in treelock && treelock[node] >= 0
      modifies this`treelock
      ensures Underway(chain + [node], wnode) && treelock == old(treelock)[node := old(treelock)[node] + 1]
    {
      ReadLockStep(treelock, waiting, holds, chain, wnode, node);
      treelock := treelock[node := treelock[node] + 1];
    }

    ghost method Record(nodeid: Id, wnode: Option<Id>, name: Option<string>, chain: seq<Id>, rank: Id -> nat, s: string)
      requires Underway(chain, wnode) && Climbing(links, nodeid, chain, ROOT_ID, rank, s, name)
      modifies this`holds
      ensures Valid() && holds == old(holds) + [Hold(nodeid, chain, wnode, name, OrRoot(s))]
    {
      var h := Hold(nodeid, chain, wnode, name, OrRoot(s));
      BecomesHold(links, treelock, waiting, holds, nodeid, chain, wnode, rank, s, name, h);
      holds := holds + [h];
    }

    /** `free_path`, `free_path_wrlock`: the hold `i` is given up. */
    method FreePath(nodeid: Id, wnode: Option<Id>, ghost i: nat)
      requires Valid() && i < |holds| && holds[i].node == nodeid && holds[i].wnode == wnode
      modifies this`treelock, this`holds, this`waiting
      ensures Valid() && holds == old(holds)[..i] + old(holds)[i + 1..]
      ensures waiting == StillRead(old(waiting), holds, [])
    {
      ghost var chain := SetApart(i);
      UnlockPath(nodeid, wnode, None, chain, ROOT_ID);
    }

    ghost method SetApart(i: nat) returns (chain: seq<Id>)
      requires Valid() && i < |holds|
      modifies this`holds
      ensures chain == old(holds[i].chain) && Simple(chain) && ROOT_ID !in chain
      ensures holds == old(holds)[..i] + old(holds)[i + 1..]
      ensures HoldsOk(links, holds) && AllSimple(holds)
      ensures Encoded(treelock, waiting, holds, chain, old(holds[i].wnode))
    {
      var a, h, b := holds[..i], holds[i], holds[i + 1..];
      assert holds == a + [h] + b;
      OneApart(links, treelock, waiting, a, h, b);
      chain := h.chain;
      holds := a + b;
    }

    /** `try_get_path2`: both paths are locked or neither is. Both are exactly when each could be locked alone and they
        do not clash. */
    method TryGetPath2(nodeid1: Id, name1: Option<string>, wr1: bool, nodeid2: Id, name2: Option<string>,
                       wr2: bool) returns (r1: Outcome, r2: Outcome)
      requires Valid() && |holds| + 2 < MAX_HOLDS && nodeid1 in links && nodeid2 in links
      requires (wr1 ==> name1.Some?) && (wr2 ==> name2.Some?)
      modifies this`treelock, this`holds, this`waiting
      ensures Valid() && AcquiresBoth(old(State()), nodeid1, name1, wr1, nodeid2, name2, wr2, r1, r2, State())
    {
      r1 := TryGetPath(nodeid1, name1, wr1);
      if !r1.Got? {
        return r1, r1;
      }
      ghost var first := holds;
      r2 := TrySecond(nodeid1, r1.wnode, nodeid2, name2, wr2, holds[|old(holds)|].chain, old(treelock), old(holds),
                      old(waiting));
      assert r2.Got? ==> holds[..|old(holds)| + 1] == first;
    }

    /** The second path; the first, which `chain` and `wnode` were locked for, is given up if it cannot be had. */
    method TrySecond(nodeid1: Id, wnode: Option<Id>, nodeid2: Id, name2: Option<string>, wr2: bool,
                     ghost chain: seq<Id>, ghost treelock0: map<Id, int>, ghost holds0: seq<Hold>,
                     ghost waiting0: set<Id>)
      returns (r: Outcome)
      requires Valid() && |holds| + 1 < MAX_HOLDS && nodeid2 in links && (wr2 ==> name2.Some?)
      requires |holds| == |holds0| + 1 && holds[..|holds0|] == holds0 && AllSimple(holds0)
      requires holds[|holds0|].node == nodeid1 && holds[|holds0|].chain == chain && holds[|holds0|].wnode == wnode
      requires waiting == waiting0 && NowLocked(treelock0, treelock, chain, wnode)
      requires Encoded(treelock0, waiting0, holds0, [], None) && (wnode.Some? ==> wnode.value != ROOT_ID)
      modifies this`treelock, this`holds, this`waiting
      ensures Valid()
      ensures r.Got? <==>
              && MayLock(links, names, treelock0, nodeid2, name2, wr2)
              && !Clash(links, nodeid1, wnode, nodeid2, WantedChild(names, nodeid2, name2, wr2))
      ensures r.Got? ==>
                r.wnode == WantedChild(names, nodeid2, name2, wr2) && OneMore(old(holds), holds, nodeid2, name2, r)
      ensures !r.Got? ==> holds == holds0
      ensures r.NoEntry? ==> !HasWay(links, nodeid2)
      ensures r.Again? ==> Hindered(links, treelock0, nodeid2, WantedChild(names, nodeid2, name2, wr2)) ||
                           Clash(links, nodeid1, wnode, nodeid2, WantedChild(names, nodeid2, name2, wr2))
      ensures waiting == waiting0 + MetReaders(treelock0, WantedChild(names, nodeid2, name2, wr2))
    {
      ghost var child, locked := WantedChild(names, nodeid2, name2, wr2), treelock;
      assert HoldOk(links, holds[|holds0|]);
      MayLockSecond(links, names, treelock0, treelock, nodeid1, chain, wnode, nodeid2, name2, wr2);
      r := TryGetPath(nodeid2, name2, wr2);
      if !r.Got? {
        FreePath(nodeid1, wnode, |holds0|);
        assert holds == holds0;
        MarksStay(treelock0, waiting0, holds0, locked, chain, wnode, child);
      }
    }

    /** A rename, whoever holds what; a node that has the new name loses it first. What holders were told stays right
        exactly when nothing changes or neither node is on anybody's path. */
    method Rename(w: Id, k: Link)
      requires Valid() && w in links && w != ROOT_ID && links[w].Some?
      requires k.parent in links && !IsBelow(ParentsOf(links), k.parent, w)
      modifies this`links, this`names
      ensures links == RenamedLinks(old(links), old(names), w, k)
      ensures names == (old(names) - {old(links[w].value)})[k := w]
      ensures Shape(links, names)
      ensures Valid() <==> old(links)[w] == Some(k) || Clear(holds, w, old(names), k)
    {
      RenamedShape(links, names, w, k);
      RenameKeepsHoldsIff(links, names, holds, w, k);
      Relink(w, k);
    }

    /** `rename_node`: the node in the way is unlinked, then the node is unhashed and hashed again. */
    method Relink(w: Id, k: Link)
      requires w in links && links[w].Some? && (k in names ==> names[k] in links && links[names[k]] == Some(k))
      modifies this`links, this`names
      ensures links == RenamedLinks(old(links), old(names), w, k)
      ensures names == (old(names) - {old(links[w].value)})[k := w]
    {
      var oldk := links[w].value;
      if k in names {
        links, names := links[names[k] := None], names - {k};
      }
      if links[w].Some? {
        names := names - {oldk};
      }
      links, names := links[w := Some(k)], names[k := w];
    }

    /** A rename by the holder of the write lock on `w` into a directory whose path is held, with the write lock on the
        node that has the new name, if there is one. */
    method Move(w: Id, k: Link, ghost i: nat, ghost j: nat)
      requires Valid() && i < |holds| && j < |holds| && holds[i].wnode == Some(w) && holds[j].node == k.parent
      requires w != ROOT_ID && links[w].Some? && (k in names ==> holds[j].wnode == Some(names[k]))
      modifies this`links, this`names
      ensures Valid() && links == RenamedLinks(old(links), old(names), w, k)
      ensures names == (old(names) - {old(links[w].value)})[k := w]
    {
      WriterIsAlone(treelock, waiting, holds, i, w);
      if k in names {
        WriterIsAlone(treelock, waiting, holds, j, names[k]);
      }
      assert HoldOk(links, holds[j]);
      NotBelow(links, k.parent, holds[j].chain, w);
      HeldIsLive(links, k.parent, holds[j].chain);
      Rename(w, k);
    }

    /** An unlink, whoever holds what. */
    method Remove(w: Id)
      requires Valid() && w in links && w != ROOT_ID && links[w].Some?
      modifies this`links, this`names
      ensures links == old(links)[w := None] && names == old(names) - {old(links[w].value)} && Shape(links, names)
      ensures Valid() <==> forall j :: 0 <= j < |holds| ==> w !in holds[j].chain
    {
      UnlinkShape(links, names, w);
      MoveKeepsHoldsIff(links, holds, w, None);
      names := names - {links[w].value};
      links := links[w := None];
    }

    /** An unlink by the holder of the write lock. */
    method Unlink(w: Id, ghost i: nat)
      requires Valid() && i < |holds| && holds[i].wnode == Some(w) && w != ROOT_ID && links[w].Some?
      modifies this`links, this`names
      ensures Valid() && links == old(links)[w := None] && names == old(names) - {old(links[w].value)}
    {
      WriterIsAlone(treelock, waiting, holds, i, w);
      Remove(w);
    }

    /** A new node hangs below a live one. */
    method AddNode(id: Id, k: Link)
      requires Valid() && id !in links && k.parent in links && k !in names
      modifies this`links, this`names, this`treelock
      ensures Valid() && links == old(links)[id := Some(k)] && names == old(names)[k := id]
      ensures treelock == old(treelock)[id := 0]
    {
      AddShape(links, names, id, k);
      HoldsKeep(links, links[id := Some(k)], holds);
      AddEncoded(links, treelock, waiting, holds, id);
      links, names, treelock := links[id := Some(k)], names[k := id], treelock[id := 0];
    }

    /** A node is deleted: it has no children, and the source's assertion says it is not locked. */
    method DeleteNode(id: Id)
      requires Valid() && id in links && id != ROOT_ID && id !in ParentsOf(links).Values && treelock[id] == 0
      modifies this`links, this`names, this`treelock
      ensures Valid() && links == old(links) - {id}
      ensures names == if old(links[id].Some?) then old(names) - {old(links[id].value)} else old(names)
    {
      FreeIsAlone(treelock, waiting, holds, id);
      DropShape(links, names, id);
      HoldsKeep(links, links - {id}, holds);
      DropEncoded(treelock, waiting, holds, id);
      names := if links[id].Some? then names - {links[id].value} else names;
      links, treelock := links - {id}, treelock - {id};
    }
  }

  /** The named child that is to be locked for writing, if there is one. */
  function WantedChild(names: map<Link, Id>, nodeid: Id, name: Option<string>, wr: bool): Option<Id> {
    if wr && name.Some? && Link(nodeid, name.value) in names then Some(names[Link(nodeid, name.value)]) else None
  }

  /** There is a way from a node up to the root. */
  ghost predicate HasWay(links: Links, nodeid: Id) {
    exists chain :: Segment(links, nodeid, chain, ROOT_ID)
  }

  /** A node, the root apart, is passed on the way up from another. */
  ghost predicate OnWay(links: Links, nodeid: Id, x: Id) {
    x != ROOT_ID && exists chain :: Segment(links, nodeid, chain, x)
  }

  /** Somewhere on the way up from a node stands a lock that keeps readers out. */
  ghost predicate Blocked(links: Links, treelock: map<Id, int>, nodeid: Id) {
    exists x {:trigger OnWay(links, nodeid, x)} :: OnWay(links, nodeid, x) && x in treelock && treelock[x] < 0
  }

  /** The child to be locked for writing is locked. */
  predicate IsTaken(treelock: map<Id, int>, child: Option<Id>) {
    child.Some? && child.value in treelock && treelock[child.value] != 0
  }

  /** The child, if it has readers and no mark yet. */
  function MetReaders(treelock: map<Id, int>, child: Option<Id>): set<Id> {
    if child.Some? && child.value in treelock && treelock[child.value] > 0 then {child.value} else {}
  }

  /** A lock is in the way of a request for a path. */
  ghost predicate Hindered(links: Links, treelock: map<Id, int>, nodeid: Id, child: Option<Id>) {
    IsTaken(treelock, child) || Blocked(links, treelock, nodeid)
  }

  /** A request for a path can be granted. */
  ghost predicate MayLock(links: Links, names: map<Link, Id>, treelock: map<Id, int>, nodeid: Id, name: Option<string>,
                          wr: bool) {
    HasWay(links, nodeid) && !Hindered(links, treelock, nodeid, WantedChild(names, nodeid, name, wr))
  }

  /** One of two requests wants to write what the other passes, or both want to write the same. */
  ghost predicate Clash(links: Links, nodeid1: Id, child1: Option<Id>, nodeid2: Id, child2: Option<Id>) {
    || (child1.Some? && OnWay(links, nodeid2, child1.value))
    || (child2.Some? && OnWay(links, nodeid1, child2.value))
    || (child1.Some? && child1 == child2)
  }

  /** What locking a chain, and perhaps a child, has done to the lock words. */
  ghost predicate NowLocked(treelock: map<Id, int>, treelock': map<Id, int>, chain: seq<Id>, w: Option<Id>) {
    && treelock'.Keys == treelock.Keys
    && (forall x <- treelock :: treelock'[x] == if w == Some(x) then TREELOCK_WRITE
                                                else if x in chain then treelock[x] + 1 else treelock[x])
    && (forall x <- treelock :: x in chain ==> treelock[x] >= 0 && w != Some(x))
    && (w.Some? && w.value in treelock ==> treelock[w.value] == 0)
  }

  /** The nodes of a chain to the root are those on the way. */
  lemma {:induction false} ChainIsWay(links: Links, n: Id, chain: seq<Id>, x: Id)
    requires Segment(links, n, chain, ROOT_ID)
    ensures x in chain <==> OnWay(links, n, x)
    decreases |chain|
  {
    if chain == [] {
      forall other | Segment(links, n, other, x) ensures x == ROOT_ID {}
    } else {
      var up := links[n].value.parent;
      ChainIsWay(links, up, chain[1..], x);
      assert chain == [n] + chain[1..];
      if x == n {
        assert Segment(links, n, [], x);
      } else if x in chain[1..] {
        var other :| Segment(links, up, other, x);
        assert ([n] + other)[1..] == other;
        assert Segment(links, n, [n] + other, x);
      }
      forall other | Segment(links, n, other, x) && x != n ensures Segment(links, up, other[1..], x) {}
    }
  }

  /** A chain that could be locked for reading, up to the root, is an open way. */
  lemma OpenWay(links: Links, treelock: map<Id, int>, treelock': map<Id, int>, nodeid: Id, chain: seq<Id>)
    requires Segment(links, nodeid, chain, ROOT_ID) && NowLocked(treelock, treelock', chain, None)
    ensures HasWay(links, nodeid) && !Blocked(links, treelock, nodeid)
  {
    forall x | OnWay(links, nodeid, x) && x in treelock ensures treelock[x] >= 0 {
      ChainIsWay(links, nodeid, chain, x);
    }
  }

  lemma {:induction false} SegmentRank(links: Links, rank: Id -> nat, n: Id, chain: seq<Id>, end: Id)
    requires Segment(links, n, chain, end) && Ranks(ParentsOf(links), rank)
    ensures rank(end) <= rank(n)
    decreases |chain|
  {
    if chain != [] {
      assert n in ParentsOf(links);
      SegmentRank(links, rank, links[n].value.parent, chain[1..], end);
    }
  }

  /** A child is not on the way up from its parent. */
  lemma ChildNotOnWay(links: Links, nodeid: Id, w: Id)
    requires Acyclic(ParentsOf(links)) && w in links && links[w].Some? && links[w].value.parent == nodeid
    ensures !OnWay(links, nodeid, w)
  {
    var rank: Id -> nat :| Ranks(ParentsOf(links), rank);
    assert w in ParentsOf(links);
    forall chain | Segment(links, nodeid, chain, w) ensures false {
      SegmentRank(links, rank, nodeid, chain, w);
    }
  }

  /** The lock on the child does not stand in the way of its own parent's path. */
  lemma ChildDoesNotBlock(links: Links, treelock: map<Id, int>, nodeid: Id, w: Id)
    requires Acyclic(ParentsOf(links)) && w in links && links[w].Some? && links[w].value.parent == nodeid
    requires w in treelock
    ensures Blocked(links, treelock[w := TREELOCK_WRITE], nodeid) <==> Blocked(links, treelock, nodeid)
  {
    ChildNotOnWay(links, nodeid, w);
    assert forall x :: OnWay(links, nodeid, x) ==> x != w;
  }

  lemma ChildOffChain(links: Links, nodeid: Id, chain: seq<Id>, w: Id)
    requires Acyclic(ParentsOf(links)) && w in links && links[w].Some? && links[w].value.parent == nodeid
    requires Segment(links, nodeid, chain, ROOT_ID)
    ensures w !in chain
  {
    ChildNotOnWay(links, nodeid, w);
    ChainIsWay(links, nodeid, chain, w);
  }

  /** Once a first path is locked, a second can be exactly if it could before and the two do not clash. */
  lemma MayLockSecond(links: Links, names: map<Link, Id>, treelock: map<Id, int>, treelock': map<Id, int>, nodeid1: Id,
                      chain: seq<Id>, w: Option<Id>, nodeid2: Id, name2: Option<string>, wr2: bool)
    requires Shape(links, names) && treelock.Keys == links.Keys && Segment(links, nodeid1, chain, ROOT_ID)
    requires NowLocked(treelock, treelock', chain, w) && (w.Some? ==> w.value in links && w.value != ROOT_ID)
    ensures var child := WantedChild(names, nodeid2, name2, wr2);
            Hindered(links, treelock', nodeid2, child) <==>
            Hindered(links, treelock, nodeid2, child) || Clash(links, nodeid1, w, nodeid2, child)
    ensures MayLock(links, names, treelock', nodeid2, name2, wr2) <==>
            && MayLock(links, names, treelock, nodeid2, name2, wr2)
            && !Clash(links, nodeid1, w, nodeid2, WantedChild(names, nodeid2, name2, wr2))
  {
    var child := WantedChild(names, nodeid2, name2, wr2);
    if child.Some? {
      ChainIsWay(links, nodeid1, chain, child.value);
      assert IsTaken(treelock', child) <==> IsTaken(treelock, child) || child.value in chain || w == child;
    }
    BlockedSecond(links, treelock, treelock', chain, w, nodeid2);
  }

  lemma BlockedSecond(links: Links, treelock: map<Id, int>, treelock': map<Id, int>, chain: seq<Id>, w: Option<Id>,
                      nodeid: Id)
    requires NowLocked(treelock, treelock', chain, w) && (w.Some? ==> w.value in treelock && w.value != ROOT_ID)
    ensures Blocked(links, treelock', nodeid) <==>
            Blocked(links, treelock, nodeid) || (w.Some? && OnWay(links, nodeid, w.value))
  {
    forall x | x in treelock ensures treelock'[x] < 0 <==> treelock[x] < 0 || w == Some(x) {}
  }

  /** The child whose readers the second of two requests meets, or the first if that fails. */
  ghost function MetReaders2(links: Links, names: map<Link, Id>, treelock: map<Id, int>, nodeid1: Id,
                             name1: Option<string>, wr1: bool, nodeid2: Id, name2: Option<string>, wr2: bool): set<Id> {
    MetReaders(treelock, if MayLock(links, names, treelock, nodeid1, name1, wr1)
                         then WantedChild(names, nodeid2, name2, wr2) else WantedChild(names, nodeid1, name1, wr1))
  }

  /** When a first path is given up, a mark left for the sake of the second stays exactly if others read the node. */
  lemma MarksStay(treelock: map<Id, int>, waiting: set<Id>, holds: seq<Hold>, treelock': map<Id, int>, chain: seq<Id>,
                  w: Option<Id>, child: Option<Id>)
    requires Encoded(treelock, waiting, holds, [], None) && waiting <= treelock.Keys && AllSimple(holds)
    requires NowLocked(treelock, treelock', chain, w)
    ensures StillRead(waiting + MetReaders(treelock', child), holds, []) == waiting + MetReaders(treelock, child)
  {
    WaitingAreRead(treelock, waiting, holds, [], None);
    if child.Some? && child.value in treelock {
      FewReaders(holds, [], child.value);
      assert EncodesAt(treelock, waiting, holds, [], None, child.value);
    }
    forall n | n in waiting ensures n in StillRead(waiting, holds, []) {}
  }

  lemma FewerRead(waiting: set<Id>, holds: seq<Hold>, chain: seq<Id>)
    requires chain != []
    ensures StillRead(StillRead(waiting, holds, chain), holds, chain[1..]) == StillRead(waiting, holds, chain[1..])
  {
    HeadCount(chain);
  }

  lemma AddShape(links: Links, names: map<Link, Id>, id: Id, k: Link)
    requires Shape(links, names) && id !in links && k.parent in links && k !in names
    ensures Shape(links[id := Some(k)], names[k := id])
  {
    var parents, added := ParentsOf(links), links[id := Some(k)];
    forall c | c in parents ensures parents[c] != id {
      assert ParentLive(links, c);
    }
    AttachLeaf(parents, id, k.parent);
    assert ParentsOf(added) == parents[id := k.parent];
    forall c | c in added ensures ParentLive(added, c) && IsNamed(added, names[k := id], c) {
      assert c != id ==> ParentLive(links, c) && IsNamed(links, names, c);
    }
  }

  lemma {:induction false} NotHeld(links: Links, holds: seq<Hold>, id: Id)
    requires HoldsOk(links, holds) && id !in links
    ensures Readers(holds, id) == 0 && Writers(holds, id) == 0
  {
    if holds != [] {
      var h := holds[|holds| - 1];
      assert HoldOk(links, h);
      ChainInLinks(links, h.node, h.chain);
      NotHeld(links, holds[..|holds| - 1], id);
    }
  }

  lemma {:induction false} ChainInLinks(links: Links, n: Id, chain: seq<Id>)
    requires Segment(links, n, chain, ROOT_ID)
    ensures forall x :: x in chain ==> x in links
    decreases |chain|
  {
    if chain != [] {
      ChainInLinks(links, links[n].value.parent, chain[1..]);
      assert chain == [chain[0]] + chain[1..];
    }
  }

  lemma AddEncoded(links: Links, treelock: map<Id, int>, waiting: set<Id>, holds: seq<Hold>, id: Id)
    requires HoldsOk(links, holds) && id !in links && Encoded(treelock, waiting, holds, [], None)
    requires treelock.Keys == links.Keys && waiting <= treelock.Keys
    ensures Encoded(treelock[id := 0], waiting, holds, [], None)
  {
    NotHeld(links, holds, id);
    var added := treelock[id := 0];
    forall n | n in added ensures EncodesAt(added, waiting, holds, [], None, n) {
      assert n != id ==> EncodesAt(treelock, waiting, holds, [], None, n);
    }
  }

  lemma DropShape(links: Links, names: map<Link, Id>, id: Id)
    requires Shape(links, names) && id in links && id != ROOT_ID && id !in ParentsOf(links).Values
    ensures Shape(links - {id}, if links[id].Some? then names - {links[id].value} else names)
  {
    UnlinkAcyclic(links, id);
    var fewer, names' := links - {id}, if links[id].Some? then names - {links[id].value} else names;
    assert IsNamed(links, names, id);
    forall c | c in fewer ensures ParentLive(fewer, c) && IsNamed(fewer, names', c) {
      assert ParentLive(links, c) && IsNamed(links, names, c);
      if links[c].Some? {
        assert c in ParentsOf(links) && ParentsOf(links)[c] in ParentsOf(links).Values;
      }
    }
  }

  lemma DropEncoded(treelock: map<Id, int>, waiting: set<Id>, holds: seq<Hold>, id: Id)
    requires Encoded(treelock, waiting, holds, [], None)
    ensures Encoded(treelock - {id}, waiting, holds, [], None)
  {
    var fewer := treelock - {id};
    forall n | n in fewer ensures EncodesAt(fewer, waiting, holds, [], None, n) {
      assert EncodesAt(treelock, waiting, holds, [], None, n);
    }
  }

  lemma OneApart(links: Links, treelock: map<Id, int>, waiting: set<Id>, a: seq<Hold>, h: Hold, b: seq<Hold>)
    requires HoldsOk(links, a + [h] + b) && AllSimple(a + [h] + b) && Encoded(treelock, waiting, a + [h] + b, [], None)
    ensures HoldsOk(links, a + b) && AllSimple(a + b) && Encoded(treelock, waiting, a + b, h.chain, h.wnode)
    ensures Simple(h.chain) && ROOT_ID !in h.chain
  {
    var all := a + [h] + b;
    ApartFrom(treelock, waiting, a, h, b);
    assert all[|a|] == h;
    RootNotInChain(links, h.node, h.chain);
    forall j | 0 <= j < |a + b| ensures HoldOk(links, (a + b)[j]) && Simple((a + b)[j].chain) {
      assert (a + b)[j] == all[if j < |a| then j else j + 1];
    }
  }

  lemma {:induction false} RootNotInChain(links: Links, n: Id, chain: seq<Id>)
    requires Segment(links, n, chain, ROOT_ID)
    ensures ROOT_ID !in chain
    decreases |chain|
  {
    if chain != [] {
      RootNotInChain(links, links[n].value.parent, chain[1..]);
      assert chain == [chain[0]] + chain[1..];
    }
  }

  lemma HeldIsLive(links: Links, n: Id, chain: seq<Id>)
    requires Segment(links, n, chain, ROOT_ID) && ROOT_ID in links
    ensures n in links
  {
  }

  lemma MoveShape(links: Links, names: map<Link, Id>, w: Id, k: Link)
    requires Shape(links, names) && w in links && w != ROOT_ID && links[w].Some? && k !in names
    requires k.parent in links && !IsBelow(ParentsOf(links), k.parent, w)
    ensures Shape(links[w := Some(k)], (names - {links[w].value})[k := w])
  {
    MoveAcyclic(links, w, k);
    var moved, names' := links[w := Some(k)], (names - {links[w].value})[k := w];
    assert IsNamed(links, names, w);
    forall c | c in moved ensures ParentLive(moved, c) && IsNamed(moved, names', c) {
      assert ParentLive(links, c) && IsNamed(links, names, c);
    }
  }

  lemma UnlinkShape(links: Links, names: map<Link, Id>, w: Id)
    requires Shape(links, names) && w in links && w != ROOT_ID && links[w].Some?
    ensures Shape(links[w := None], names - {links[w].value})
  {
    UnlinkAcyclic(links, w);
    var unlinked, names' := links[w := None], names - {links[w].value};
    assert IsNamed(links, names, w);
    forall c | c in unlinked ensures ParentLive(unlinked, c) && IsNamed(unlinked, names', c) {
      assert ParentLive(links, c) && IsNamed(links, names, c);
    }
  }

  /** A node nobody holds has a free lock. */
  lemma UnheldIsFree(treelock: map<Id, int>, waiting: set<Id>, holds: seq<Hold>, n: Id)
    requires Encoded(treelock, waiting, holds, [], None) && n in treelock
    requires forall j :: 0 <= j < |holds| ==> n !in holds[j].chain && holds[j].wnode != Some(n)
    ensures treelock[n] == 0
  {
    UnheldCounts(holds, n);
    assert EncodesAt(treelock, waiting, holds, [], None, n);
  }

  lemma {:induction false} UnheldCounts(holds: seq<Hold>, n: Id)
    requires forall j :: 0 <= j < |holds| ==> n !in holds[j].chain && holds[j].wnode != Some(n)
    ensures Readers(holds, n) == 0 && Writers(holds, n) == 0
  {
    if holds != [] {
      var last := |holds| - 1;
      assert n !in holds[last].chain;
      UnheldCounts(holds[..last], n);
    }
  }

  /** The links of the nodes of the inode tree. */
  ghost function LinksOf(nodes: Nodes): Links {
    map id | id in nodes :: nodes[id].link
  }

  lemma {:induction false} ChainHasChild(nodes: Nodes, n: Id, chain: seq<Id>, x: Id) returns (c: Id)
    requires Segment(LinksOf(nodes), n, chain, ROOT_ID) && x in chain && x != n
    ensures IsChild(nodes, c, x)
    decreases |chain|
  {
    var p := nodes[n].link.value.parent;
    if p == x {
      c := n;
    } else {
      assert x in chain[1..];
      c := ChainHasChild(nodes, p, chain[1..], x);
    }
  }

  lemma HasChild(nodes: Nodes, c: Id, x: Id)
    requires IsChild(nodes, c, x)
    ensures |Children(nodes, x)| > 0
  {
    assert c in Children(nodes, x);
  }

  /** The assertion of `delete_node`, in the tree that has both counts and locks: as long as the kernel keeps
      looked up what its requests hold, a node whose count is zero is not locked. */
  lemma DeletedIsUnlocked(nodes: Nodes, pins: Pins, idle: set<Id>, treelock: map<Id, int>, waiting: set<Id>,
                          holds: seq<Hold>, x: Id)
    requires Counted(nodes, pins, idle) && HoldsOk(LinksOf(nodes), holds) && Encoded(treelock, waiting, holds, [], None)
    requires forall j :: 0 <= j < |holds| ==>
               LookedUpDir(nodes, holds[j].node) && (holds[j].wnode.Some? ==> LookedUpDir(nodes, holds[j].wnode.value))
    requires x in nodes && nodes[x].refctr == 0 && x in treelock
    ensures treelock[x] == 0
  {
    assert nodes[x].refctr == Refs(nodes, pins, x);
    forall j | 0 <= j < |holds| ensures x !in holds[j].chain && holds[j].wnode != Some(x) {
      if x in holds[j].chain && x != holds[j].node {
        assert HoldOk(LinksOf(nodes), holds[j]);
        var c := ChainHasChild(nodes, holds[j].node, holds[j].chain, x);
        HasChild(nodes, c, x);
      }
    }
    UnheldIsFree(treelock, waiting, holds, x);
  }

  /** From the root no lock stands in the way of the root itself. */
  lemma RootNotBlocked(links: Links, treelock: map<Id, int>)
    requires ROOT_ID in treelock && treelock[ROOT_ID] >= 0
    ensures !Blocked(links, treelock, ROOT_ID)
  {
    forall chain, end | Segment(links, ROOT_ID, chain, end) ensures chain == [] && end == ROOT_ID {}
  }

  lemma ChildNotBlocked(links: Links, treelock: map<Id, int>, n: Id)
    requires n in links && n != ROOT_ID && links[n].Some? && links[n].value.parent == ROOT_ID
    requires ROOT_ID in treelock && treelock[ROOT_ID] >= 0 && n in treelock && treelock[n] >= 0
    ensures !Blocked(links, treelock, n)
  {
    forall chain, end | Segment(links, n, chain, end) ensures end == n || end == ROOT_ID {
      if chain != [] {
        assert Segment(links, ROOT_ID, chain[1..], end);
      }
    }
  }

  /** A request locks a name that no node has yet, and a node appears under it. */
  method RaceBegins() returns (tree: LockedTree)
    ensures fresh(tree) && tree.Valid() && |tree.holds| == 1 && tree.holds[0].wnode == None
    ensures tree.links == map[ROOT_ID := None, 2 := Some(Link(ROOT_ID, "a"))]
    ensures tree.names == map[Link(ROOT_ID, "a") := 2]
    ensures tree.treelock[ROOT_ID] == 0 && tree.treelock[2] == 0
  {
    tree := new LockedTree();
    assert Segment(tree.links, ROOT_ID, [], ROOT_ID);
    RootNotBlocked(tree.links, tree.treelock);
    var first := tree.TryGetPath(ROOT_ID, Some("a"), true);
    ghost var h := tree.holds[0];
    assert HoldOk(tree.links, h) && h.chain == [] && h.wnode == None;
    UnheldIsFree(tree.treelock, tree.waiting, tree.holds, ROOT_ID);
    tree.AddNode(2, Link(ROOT_ID, "a"));
  }

  /** Another request is told the node's path. */
  method RaceGoesOn(tree: LockedTree) returns (told: string)
    requires tree.Valid() && |tree.holds| == 1
    requires tree.links == map[ROOT_ID := None, 2 := Some(Link(ROOT_ID, "a"))]
    requires tree.names == map[Link(ROOT_ID, "a") := 2]
    requires tree.treelock[ROOT_ID] == 0 && tree.treelock[2] == 0
    modifies tree`treelock, tree`holds, tree`waiting
    ensures tree.Valid() && told == "/a" && |tree.holds| == 2
    ensures tree.holds[1].path == told && tree.holds[1].node == 2 && tree.holds[1].chain == [2]
  {
    assert Segment(tree.links, 2, [2], ROOT_ID) by {
      assert [2][1..] == [];
    }
    ChildNotBlocked(tree.links, tree.treelock, 2);
    var second := tree.TryGetPath(2, None, false);
    told := second.path;
    ghost var g := tree.holds[1];
    assert HoldOk(tree.links, g);
    SegmentUnique(tree.links, 2, g.chain, [2]);
    assert [2][1..] == [];
  }

  /** The race that path locks leave open: a request locks a name that no node has yet, a node appears under it,
      another request is told the node's path, and the first renames the node. The second then holds a path that
      is no longer the node's. */
  method RenameRace() returns (tree: LockedTree, told: string)
    ensures told == "/a" && !tree.Valid() && |tree.holds| == 2 && tree.holds[1].path == told && tree.holds[1].node == 2
    ensures PathOf(tree.links, tree.holds[1].chain) == "/b"
  {
    tree := RaceBegins();
    told := RaceGoesOn(tree);
    BelowTop(ParentsOf(tree.links), ROOT_ID, 2);
    tree.Rename(2, Link(ROOT_ID, "b"));
    assert 2 in tree.holds[1].chain && [2][1..] == [];
  }
}
