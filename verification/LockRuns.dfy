/** Runs of the path locks of fuse-3/lib/fuse.c: any sequence of requests that lock and release paths, and of changes
    to the tree by those who hold it locked. */
module LockRuns {
  import opened Options
  import opened Forest
  import opened NodeTree
  import opened TreeLocks

  /** Holds are named by their place among those that are held. */
  datatype LockOp =
    | AcquireOp(node: Id, name: Option<string>, wr: bool)
    | AcquireBothOp(node: Id, name: Option<string>, wr: bool, node2: Id, name2: Option<string>, wr2: bool)
    | ReleaseOp(hold: nat)
    | RenameOp(hold: nat, newHold: nat, newk: Link)
    | UnlinkOp(hold: nat)
    | AddOp(id: Id, link: Link)
    | DeleteOp(id: Id)

  /** What a request for one path, or for two, is answered. */
  datatype Reply = Reply(first: Outcome, second: Outcome)

  /** Every lock word tells exactly who holds the node, and every holder's path is as it was told. */
  ghost predicate Right(s: LockState) {
    && Shape(s.links, s.names) && s.treelock.Keys == s.links.Keys && s.waiting <= s.treelock.Keys
    && AllSimple(s.holds) && HoldsOk(s.links, s.holds) && Encoded(s.treelock, s.waiting, s.holds, [], None)
  }

  /** What its holder knows of a hold. */
  datatype Ticket = Ticket(node: Id, wnode: Option<Id>)

  ghost predicate Matches(held: seq<Ticket>, holds: seq<Hold>) {
    |held| == |holds| && forall i :: 0 <= i < |held| ==> held[i] == Ticket(holds[i].node, holds[i].wnode)
  }

  /** The tree is changed only by those who hold what they change locked for writing, and the directory they
      rename into. */
  predicate Allowed(links: Links, names: map<Link, Id>, treelock: map<Id, int>, held: seq<Ticket>, op: LockOp) {
    match op
    case AcquireOp(node, name, wr) => node in links && (wr ==> name.Some?) && |held| + 1 < MAX_HOLDS
    case AcquireBothOp(node, name, wr, node2, name2, wr2) =>
      node in links && node2 in links && (wr ==> name.Some?) && (wr2 ==> name2.Some?) && |held| + 2 < MAX_HOLDS
    case ReleaseOp(i) => i < |held|
    case RenameOp(i, j, k) =>
      && i < |held| && j < |held| && held[i].wnode.Some? && held[j].node == k.parent
      && Linked(links, held[i].wnode.value) && (k in names ==> held[j].wnode == Some(names[k]))
    case UnlinkOp(i) => i < |held| && held[i].wnode.Some? && Linked(links, held[i].wnode.value)
    case AddOp(id, k) => id !in links && k.parent in links && k !in names
    case DeleteOp(id) =>
      id in links && id != ROOT_ID && (forall k <- names :: k.parent != id) && id in treelock && treelock[id] == 0
  }

  predicate Linked(links: Links, w: Id) {
    w in links && w != ROOT_ID && links[w].Some?
  }

  function Tickets(holds: seq<Hold>): seq<Ticket> {
    seq(|holds|, i requires 0 <= i < |holds| => Ticket(holds[i].node, holds[i].wnode))
  }

  ghost predicate MayDo(s: LockState, op: LockOp) {
    Allowed(s.links, s.names, s.treelock, Tickets(s.holds), op)
  }

  /** The node whose readers the step, a request for writing, has met. */
  ghost function Met(s: LockState, op: LockOp): set<Id> {
    match op
    case AcquireOp(node, name, wr) => MetReaders(s.treelock, WantedChild(s.names, node, name, wr))
    case AcquireBothOp(node, name, wr, node2, name2, wr2) =>
      MetReaders2(s.links, s.names, s.treelock, node, name, wr, node2, name2, wr2)
    case _ => {}
  }

  /** What a step does. Only requests for paths are answered. */
  ghost predicate Does(s: LockState, op: LockOp, r: Reply, s': LockState)
    requires MayDo(s, op)
  {
    s'.waiting == StillRead(s.waiting + Met(s, op), s'.holds, []) && DoesTo(s, op, r, s')
  }

  ghost predicate DoesTo(s: LockState, op: LockOp, r: Reply, s': LockState)
    requires MayDo(s, op)
  {
    match op
    case AcquireOp(node, name, wr) => Acquires(s, node, name, wr, r.first, s')
    case AcquireBothOp(node, name, wr, node2, name2, wr2) =>
      AcquiresBoth(s, node, name, wr, node2, name2, wr2, r.first, r.second, s')
    case ReleaseOp(i) =>
      s'.links == s.links && s'.names == s.names && s'.holds == s.holds[..i] + s.holds[i + 1..]
    case RenameOp(i, j, k) =>
      var w := s.holds[i].wnode.value;
      && s'.links == RenamedLinks(s.links, s.names, w, k) && s'.names == (s.names - {s.links[w].value})[k := w]
      && s'.holds == s.holds && s'.treelock == s.treelock
    case UnlinkOp(i) =>
      var w := s.holds[i].wnode.value;
      && s'.links == s.links[w := None] && s'.names == s.names - {s.links[w].value}
      && s'.holds == s.holds && s'.treelock == s.treelock
    case AddOp(id, k) =>
      && s'.links == s.links[id := Some(k)] && s'.names == s.names[k := id]
      && s'.treelock == s.treelock[id := 0] && s'.holds == s.holds
    case DeleteOp(id) =>
      && s'.links == s.links - {id} && s'.holds == s.holds
      && s'.names == if s.links[id].Some? then s.names - {s.links[id].value} else s.names
  }

  /** What is not allowed is passed over. */
  ghost predicate LockStep(s: LockState, op: LockOp, r: Reply, s': LockState) {
    if MayDo(s, op) then Does(s, op, r, s') else s' == s
  }

  lemma SameTickets(held: seq<Ticket>, holds: seq<Hold>)
    requires Matches(held, holds)
    ensures Tickets(holds) == held
  {
  }

  lemma MatchesMore(held: seq<Ticket>, holds: seq<Hold>, holds': seq<Hold>, node: Id, name: Option<string>, r: Outcome)
    requires Matches(held, holds) && OneMore(holds, holds', node, name, r)
    ensures Matches(held + [Ticket(node, r.wnode)], holds')
  {
    assert forall i :: 0 <= i < |holds| ==> holds'[i] == holds'[..|holds|][i];
  }

  lemma MatchesBoth(held: seq<Ticket>, holds: seq<Hold>, holds': seq<Hold>, node1: Id, name1: Option<string>,
                    r1: Outcome, node2: Id, name2: Option<string>, r2: Outcome)
    requires Matches(held, holds) && |holds'| == |holds| + 2
    requires OneMore(holds, holds'[..|holds| + 1], node1, name1, r1)
    requires OneMore(holds'[..|holds| + 1], holds', node2, name2, r2)
    ensures Matches(held + [Ticket(node1, r1.wnode)] + [Ticket(node2, r2.wnode)], holds')
  {
    MatchesMore(held, holds, holds'[..|holds| + 1], node1, name1, r1);
    MatchesMore(held + [Ticket(node1, r1.wnode)], holds'[..|holds| + 1], holds', node2, name2, r2);
  }

  lemma MatchesFewer(held: seq<Ticket>, holds: seq<Hold>, i: nat)
    requires Matches(held, holds) && i < |held|
    ensures Matches(held[..i] + held[i + 1..], holds[..i] + holds[i + 1..])
  {
  }

  lemma NoChild(links: Links, names: map<Link, Id>, id: Id)
    requires Shape(links, names) && forall k <- names :: k.parent != id
    ensures id !in ParentsOf(links).Values
  {
    forall c | c in ParentsOf(links) ensures ParentsOf(links)[c] != id {
      assert IsNamed(links, names, c);
    }
  }

  /** A mark stays as long as it has readers to tell. */
  lemma MarksAsMet(s: LockState, op: LockOp, s': LockState)
    requires Right(s') && s'.waiting == s.waiting + Met(s, op)
    ensures s'.waiting == StillRead(s.waiting + Met(s, op), s'.holds, [])
  {
    WaitingAreRead(s'.treelock, s'.waiting, s'.holds, [], None);
  }

  method DoAcquire(t: LockedTree, held: seq<Ticket>, op: LockOp) returns (r: Reply, held': seq<Ticket>)
    requires t.Valid() && Matches(held, t.holds) && op.AcquireOp? && MayDo(t.State(), op)
    modifies t
    ensures t.Valid() && Matches(held', t.holds) && Does(old(t.State()), op, r, t.State())
  {
    var r1 := t.TryGetPath(op.node, op.name, op.wr);
    r, held' := Reply(r1, r1), held;
    if r1.Got? {
      MatchesMore(held, old(t.holds), t.holds, op.node, op.name, r1);
      held' := held + [Ticket(op.node, r1.wnode)];
    }
    MarksAsMet(old(t.State()), op, t.State());
  }

  method DoAcquireBoth(t: LockedTree, held: seq<Ticket>, op: LockOp) returns (r: Reply, held': seq<Ticket>)
    requires t.Valid() && Matches(held, t.holds) && op.AcquireBothOp? && MayDo(t.State(), op)
    modifies t
    ensures t.Valid() && Matches(held', t.holds) && Does(old(t.State()), op, r, t.State())
  {
    var r1, r2 := t.TryGetPath2(op.node, op.name, op.wr, op.node2, op.name2, op.wr2);
    r := Reply(r1, r2);
    held' := WithBoth(held, op, r);
    BothDone(held, old(t.State()), op, r, t.State());
  }

  function WithBoth(held: seq<Ticket>, op: LockOp, r: Reply): seq<Ticket>
    requires op.AcquireBothOp?
  {
    if r.first.Got? && r.second.Got? then
      held + [Ticket(op.node, r.first.wnode)] + [Ticket(op.node2, r.second.wnode)]
    else held
  }

  lemma BothDone(held: seq<Ticket>, s: LockState, op: LockOp, r: Reply, s': LockState)
    requires Matches(held, s.holds) && op.AcquireBothOp? && MayDo(s, op) && Right(s')
    requires AcquiresBoth(s, op.node, op.name, op.wr, op.node2, op.name2, op.wr2, r.first, r.second, s')
    ensures Matches(WithBoth(held, op, r), s'.holds) && Does(s, op, r, s')
  {
    if r.second.Got? {
      MatchesBoth(held, s.holds, s'.holds, op.node, op.name, r.first, op.node2, op.name2, r.second);
    }
    MarksAsMet(s, op, s');
  }

  method DoRelease(t: LockedTree, held: seq<Ticket>, op: LockOp, ghost r: Reply) returns (held': seq<Ticket>)
    requires t.Valid() && Matches(held, t.holds) && op.ReleaseOp? && MayDo(t.State(), op)
    modifies t
    ensures t.Valid() && Matches(held', t.holds) && Does(old(t.State()), op, r, t.State())
  {
    var i := op.hold;
    t.FreePath(held[i].node, held[i].wnode, i);
    held' := held[..i] + held[i + 1..];
    MatchesFewer(held, old(t.holds), i);
    assert old(t.waiting) + old(Met(t.State(), op)) == old(t.waiting);
  }

  /** A change of the tree, which leaves all holds as they are. */
  method DoChange(t: LockedTree, held: seq<Ticket>, op: LockOp, ghost r: Reply)
    requires t.Valid() && Tickets(t.holds) == held && MayDo(t.State(), op)
    requires op.RenameOp? || op.UnlinkOp? || op.AddOp? || op.DeleteOp?
    modifies t`links, t`names, t`treelock
    ensures t.Valid() && Does(old(t.State()), op, r, t.State())
  {
    if op.RenameOp? || op.UnlinkOp? {
      DoRelink(t, held, op, r);
    } else {
      DoNode(t, op, r);
    }
    MarksAsMet(old(t.State()), op, t.State());
  }

  method DoRelink(t: LockedTree, held: seq<Ticket>, op: LockOp, ghost r: Reply)
    requires t.Valid() && Tickets(t.holds) == held && MayDo(t.State(), op) && (op.RenameOp? || op.UnlinkOp?)
    modifies t`links, t`names
    ensures t.Valid() && DoesTo(old(t.State()), op, r, t.State())
  {
    match op
    case RenameOp(i, j, k) => t.Move(held[i].wnode.value, k, i, j);
    case UnlinkOp(i) => t.Unlink(held[i].wnode.value, i);
  }

  method DoNode(t: LockedTree, op: LockOp, ghost r: Reply)
    requires t.Valid() && MayDo(t.State(), op) && (op.AddOp? || op.DeleteOp?)
    modifies t`links, t`names, t`treelock
    ensures t.Valid() && DoesTo(old(t.State()), op, r, t.State())
  {
    match op
    case AddOp(id, k) => t.AddNode(id, k);
    case DeleteOp(id) =>
      NoChild(t.links, t.names, id);
      t.DeleteNode(id);
  }

  method Do(t: LockedTree, held: seq<Ticket>, op: LockOp) returns (r: Reply, held': seq<Ticket>)
    requires t.Valid() && Matches(held, t.holds)
    modifies t
    ensures t.Valid() && Matches(held', t.holds) && LockStep(old(t.State()), op, r, t.State())
  {
    r, held' := Reply(NoEntry, NoEntry), held;
    SameTickets(held, t.holds);
    if Allowed(t.links, t.names, t.treelock, held, op) {
      match op
      case AcquireOp(_, _, _) => r, held' := DoAcquire(t, held, op);
      case AcquireBothOp(_, _, _, _, _, _) => r, held' := DoAcquireBoth(t, held, op);
      case ReleaseOp(_) => held' := DoRelease(t, held, op, r);
      case _ => DoChange(t, held, op, r);
    }
  }

  // ------------------------------------------------------------------ runs

  ghost predicate RunOf(trace: seq<LockState>, ops: seq<LockOp>, answers: seq<Reply>) {
    && |trace| == |ops| + 1 && |answers| == |ops|
    && (forall i: nat {:trigger StepAt(trace, ops, answers, i)} :: i < |ops| ==> StepAt(trace, ops, answers, i))
    && (forall i: nat {:trigger RightAt(trace, i)} :: i < |trace| ==> RightAt(trace, i))
  }

  ghost predicate StepAt(trace: seq<LockState>, ops: seq<LockOp>, answers: seq<Reply>, i: nat)
    requires i < |ops| && i < |answers| && i + 1 < |trace|
  {
    LockStep(trace[i], ops[i], answers[i], trace[i + 1])
  }

  ghost predicate RightAt(trace: seq<LockState>, i: nat)
    requires i < |trace|
  {
    Right(trace[i])
  }

  lemma RunSnoc(trace: seq<LockState>, ops: seq<LockOp>, answers: seq<Reply>, op: LockOp, r: Reply, s: LockState)
    requires RunOf(trace, ops, answers) && LockStep(trace[|ops|], op, r, s) && Right(s)
    ensures RunOf(trace + [s], ops + [op], answers + [r])
  {
    var trace', ops', answers' := trace + [s], ops + [op], answers + [r];
    forall i: nat | i < |ops'| ensures StepAt(trace', ops', answers', i) {
      assert i < |ops| ==> StepAt(trace, ops, answers, i);
    }
    forall i: nat | i < |trace'| ensures RightAt(trace', i) {
      assert i < |trace| ==> RightAt(trace, i);
    }
  }

  /** Any run from an empty tree. */
  method RunPathLocks(ops: seq<LockOp>) returns (t: LockedTree, answers: seq<Reply>, ghost trace: seq<LockState>)
    ensures t.Valid() && RunOf(trace, ops, answers) && trace[|ops|] == t.State()
    ensures trace[0] == LockState(map[ROOT_ID := None], map[], map[ROOT_ID := 0], [], {})
  {
    t := new LockedTree();
    var held: seq<Ticket> := [];
    answers, trace := [], [t.State()];
    assert RightAt(trace, 0);
    for i := 0 to |ops|
      invariant t.Valid() && fresh(t) && Matches(held, t.holds)
      invariant RunOf(trace, ops[..i], answers) && trace[i] == t.State()
      invariant trace[0] == LockState(map[ROOT_ID := None], map[], map[ROOT_ID := 0], [], {})
    {
      var r;
      r, held := Do(t, held, ops[i]);
      RunSnoc(trace, ops[..i], answers, ops[i], r, t.State());
      assert ops[..i + 1] == ops[..i] + [ops[i]];
      answers, trace := answers + [r], trace + [t.State()];
    }
    assert ops[..|ops|] == ops;
  }

  // ------------------------------------------- what a holder may rely on

  /** The step does not release this hold. */
  ghost predicate Retains(s: LockState, op: LockOp, h: Hold) {
    op.ReleaseOp? && op.hold < |s.holds| ==> s.holds[op.hold] != h
  }

  lemma HoldRetained(s: LockState, op: LockOp, r: Reply, s': LockState, h: Hold)
    requires LockStep(s, op, r, s') && h in s.holds && Retains(s, op, h)
    ensures h in s'.holds
  {
    var p :| 0 <= p < |s.holds| && s.holds[p] == h;
    if MayDo(s, op) {
      match op
      case AcquireOp(_, _, _) =>
        assert r.first.Got? ==> s'.holds[p] == s'.holds[..|s.holds|][p];
      case AcquireBothOp(_, _, _, _, _, _) =>
        assert r.second.Got? ==>
            s'.holds[p] == s'.holds[..|s.holds| + 1][p] == s'.holds[..|s.holds| + 1][..|s.holds|][p];
      case ReleaseOp(i) =>
        assert s'.holds[if p < i then p else p - 1] == h;
      case _ =>
    }
  }

  lemma {:induction false} HoldStays(trace: seq<LockState>, ops: seq<LockOp>, answers: seq<Reply>, m: nat, n: nat,
                                     h: Hold)
    requires RunOf(trace, ops, answers) && m <= n <= |ops| && h in trace[m].holds
    requires forall k | m <= k < n :: Retains(trace[k], ops[k], h)
    ensures h in trace[n].holds
    decreases n
  {
    if m < n {
      HoldStays(trace, ops, answers, m, n - 1, h);
      assert StepAt(trace, ops, answers, n - 1);
      HoldRetained(trace[n - 1], ops[n - 1], answers[n - 1], trace[n], h);
    }
  }

  /** The step is a request that was told of this hold. */
  ghost predicate ToldOf(op: LockOp, r: Reply, h: Hold) {
    match op
    case AcquireOp(node, name, _) => IsHold(h, node, name, r.first)
    case AcquireBothOp(node, name, _, node2, name2, _) =>
      IsHold(h, node, name, r.first) || IsHold(h, node2, name2, r.second)
    case _ => false
  }

  /** A hold appears only with the request that is told of it. */
  lemma NewIsTold(s: LockState, op: LockOp, r: Reply, s': LockState, p: nat)
    requires LockStep(s, op, r, s') && |s.holds| <= p < |s'.holds|
    ensures ToldOf(op, r, s'.holds[p])
  {
  }

  /** From the request that was told of a hold to its release, whatever others lock, release, rename, unlink, add or
      delete meanwhile: the path it was told is the one that leads to the node, and the child that was locked for
      writing is on nobody's path and no one else's to write. */
  lemma PathStays(trace: seq<LockState>, ops: seq<LockOp>, answers: seq<Reply>, a: nat, n: nat, p: nat)
    requires RunOf(trace, ops, answers) && a < n <= |ops| && |trace[a].holds| <= p < |trace[a + 1].holds|
    requires forall k | a < k < n :: Retains(trace[k], ops[k], trace[a + 1].holds[p])
    ensures var h, s := trace[a + 1].holds[p], trace[n];
            && ToldOf(ops[a], answers[a], h) && h in s.holds && Segment(s.links, h.node, h.chain, ROOT_ID)
            && (forall chain | Segment(s.links, h.node, chain, ROOT_ID) ::
                  h.path == PathFor(AndChild(NamesDown(s.links, chain), h.name)))
            && (h.wnode.Some? ==> OnlyWriter(s, h.wnode.value, h))
  {
    var h, s := trace[a + 1].holds[p], trace[n];
    assert StepAt(trace, ops, answers, a);
    NewIsTold(trace[a], ops[a], answers[a], trace[a + 1], p);
    HoldStays(trace, ops, answers, a + 1, n, h);
    assert RightAt(trace, n);
    var q :| 0 <= q < |s.holds| && s.holds[q] == h;
    assert HoldOk(s.links, s.holds[q]);
    HoldTells(s.links, h);
    if h.wnode.Some? {
      WriterIsAlone(s.treelock, s.waiting, s.holds, q, h.wnode.value);
    }
  }

  /** A request for writing has met the node's readers, and it has had some ever since. */
  ghost predicate MetSince(trace: seq<LockState>, ops: seq<LockOp>, a: nat, n: nat, x: Id)
    requires a < n < |trace| && n <= |ops|
  {
    && MayDo(trace[a], ops[a]) && x in Met(trace[a], ops[a])
    && forall k | a < k <= n :: Readers(trace[k].holds, x) > 0
  }

  /** In any run that begins with no mark, a lock word is marked exactly from when a request for writing met the node's
      readers until the last of them leaves. */
  lemma {:induction false} MarkedIff(trace: seq<LockState>, ops: seq<LockOp>, answers: seq<Reply>, n: nat, x: Id)
    requires RunOf(trace, ops, answers) && n <= |ops| && trace[0].waiting == {} && x in trace[n].treelock
    ensures x in trace[n].waiting <==> exists a: nat :: a < n && MetSince(trace, ops, a, n, x)
    ensures x in trace[n].waiting ==> trace[n].treelock[x] == WAIT_OFFSET + Readers(trace[n].holds, x)
    ensures x !in trace[n].waiting && Writers(trace[n].holds, x) == 0 ==>
              trace[n].treelock[x] == Readers(trace[n].holds, x)
  {
    assert RightAt(trace, n);
    assert EncodesAt(trace[n].treelock, trace[n].waiting, trace[n].holds, [], None, x);
    MarkedSince(trace, ops, answers, n, x);
  }

  lemma MarkStep(s: LockState, op: LockOp, r: Reply, s': LockState, x: Id)
    requires LockStep(s, op, r, s') && Right(s')
    ensures x in s'.waiting <==>
            (x in s.waiting || (MayDo(s, op) && x in Met(s, op))) && Readers(s'.holds, x) > 0
  {
    WaitingAreRead(s'.treelock, s'.waiting, s'.holds, [], None);
    assert x in s'.waiting ==> x in StillRead(s'.waiting, s'.holds, []);
  }

  lemma {:induction false} MarkedSince(trace: seq<LockState>, ops: seq<LockOp>, answers: seq<Reply>, n: nat, x: Id)
    requires RunOf(trace, ops, answers) && n <= |ops| && trace[0].waiting == {}
    ensures x in trace[n].waiting <==> exists a: nat :: a < n && MetSince(trace, ops, a, n, x)
  {
    if n > 0 {
      var p := n - 1;
      MarkedSince(trace, ops, answers, p, x);
      assert StepAt(trace, ops, answers, p) && RightAt(trace, n);
      MarkStep(trace[p], ops[p], answers[p], trace[n], x);
      MetSinceNext(trace, ops, p, n, x);
    }
  }

  lemma MetSinceNext(trace: seq<LockState>, ops: seq<LockOp>, p: nat, n: nat, x: Id)
    requires n == p + 1 < |trace| && p < |ops|
    ensures (exists a: nat :: a < n && MetSince(trace, ops, a, n, x)) <==>
            && ((exists a: nat :: a < p && MetSince(trace, ops, a, p, x))
                || (MayDo(trace[p], ops[p]) && x in Met(trace[p], ops[p])))
            && Readers(trace[n].holds, x) > 0
  {
    if a: nat :| a < n && MetSince(trace, ops, a, n, x) {
      assert a < p ==> MetSince(trace, ops, a, p, x);
    }
    if Readers(trace[n].holds, x) > 0 {
      if a: nat :| a < p && MetSince(trace, ops, a, p, x) {
        assert MetSince(trace, ops, a, n, x);
      }
      if MayDo(trace[p], ops[p]) && x in Met(trace[p], ops[p]) {
        assert MetSince(trace, ops, p, n, x);
      }
    }
  }

  /** Of all holds, only this one writes the node, and none passes through it. */
  ghost predicate OnlyWriter(s: LockState, w: Id, h: Hold) {
    && (forall j :: 0 <= j < |s.holds| ==> w !in s.holds[j].chain)
    && (forall j :: 0 <= j < |s.holds| && s.holds[j].wnode == Some(w) ==> s.holds[j] == h)
    && Writers(s.holds, w) == 1
  }
}
