/** Runs of the inode tree of fuse-3/lib/fuse.c: any sequence of the kernel's lookups, forgets, removals,
    renames and pins. */
module TreeRuns {
  import opened Options
  import opened Forest
  import opened NodeTable
  import opened NodeTree
  import opened Inodes

  datatype NodeOp =
    | FindOp(parent: Id, name: string)
    | ForgetOp(id: Id, count: nat)
    | RemoveOp(link: Link)
    | RenameOp(oldk: Link, newk: Link)
    | PinOp(id: Id)
    | UnpinOp(id: Id)

  datatype TreeState = TreeState(nodes: Nodes, names: map<Link, Id>, pins: Pins, generation: nat, ctr: nat) {
    /** How far the counter of ids has come, round after round. */
    ghost function Tick(): nat {
      generation * ID_RANGE + ctr
    }
  }

  ghost function Now(t: InodeTree): TreeState
    reads t, t.names
  {
    TreeState(t.nodes, t.names.nodes, t.pins, t.generation, t.ctr)
  }

  /** What the kernel may ask: of live nodes, no more lookups back than it has, and to move a node between
      directories it has looked up and not below itself. */
  ghost predicate Allowed(remember: bool, s: TreeState, op: NodeOp) {
    match op
    case FindOp(parent, _) => parent in s.nodes && |s.nodes| < ID_RANGE - 2
    case ForgetOp(id, count) => id in s.nodes && 0 < s.nodes[id].nlookup && count <= s.nodes[id].nlookup
    case RemoveOp(k) => k in s.names && s.names[k] in s.nodes && (remember ==> s.nodes[s.names[k]].nlookup > 1)
    case RenameOp(oldk, newk) =>
      && oldk in s.names && LookedUpDir(s.nodes, oldk.parent) && LookedUpDir(s.nodes, newk.parent)
      && (remember && newk in s.names && s.names[newk] in s.nodes ==> s.nodes[s.names[newk]].nlookup > 1)
      && !IsBelow(Parents(s.nodes), newk.parent, s.names[oldk])
    case PinOp(id) => id in s.nodes
    case UnpinOp(id) => s.pins.held[id] > 0
  }

  /** The request adds a node. */
  ghost predicate Adds(remember: bool, s: TreeState, op: NodeOp) {
    op.FindOp? && Allowed(remember, s, op) && Link(op.parent, op.name) !in s.names
  }

  /** What a request does to the tree. */
  ghost predicate Does(remember: bool, s: TreeState, op: NodeOp, s': TreeState)
    requires Allowed(remember, s, op)
  {
    && (if Adds(remember, s, op) then NextFree(s.nodes, s.Tick(), s'.Tick(), s'.ctr)
        else s'.generation == s.generation && s'.ctr == s.ctr)
    && DoesTo(remember, s, op, s')
  }

  ghost predicate DoesTo(remember: bool, s: TreeState, op: NodeOp, s': TreeState)
    requires Allowed(remember, s, op)
  {
    match op
    case FindOp(parent, name) =>
      var k := Link(parent, name);
      && s'.pins == s.pins
      && if k in s.names then s.names[k] in s.nodes && s'.nodes == s.nodes[s.names[k] := LookedUp(s.nodes[s.names[k]])]
         else
           && s'.ctr !in s.nodes
           && s'.nodes == Added(s.nodes, s'.ctr, LookedUp(NewNode(remember, s'.generation)), k)
    case ForgetOp(id, count) =>
      && s'.pins == s.pins
      && if id == ROOT_ID then s'.nodes == s.nodes
         else Kept(s.nodes[id := Forgotten(s.nodes[id], count)], s'.nodes, s.pins)
    case RemoveOp(k) =>
      s'.pins == s.pins && Kept(WithoutLink(Unremembered(remember, s.nodes, s.names[k]), s.names[k]), s'.nodes, s.pins)
    case RenameOp(oldk, newk) =>
      s'.pins == s.pins && Relinked(s.nodes, s'.nodes, RenameLinks(s.names, oldk, newk),
                                    RenameGiven(remember, s.names, newk))
    case PinOp(id) => s'.nodes == Pinned(s.nodes, id) && s'.pins == s.pins.(held := s.pins.held + multiset{id})
    case UnpinOp(id) => s'.pins == s.pins.Released(id) && Kept(s.nodes, s'.nodes, s'.pins)
  }

  /** A request that is not allowed is passed over. */
  ghost predicate NodeStep(remember: bool, s: TreeState, op: NodeOp, s': TreeState) {
    if Allowed(remember, s, op) then Does(remember, s, op, s') else s' == s
  }

  /** Exact counts, a tree of live nodes, the names of its links, and no node that nothing uses. */
  ghost predicate Right(s: TreeState) {
    && Sane(s.nodes, s.pins, {}, s.names) && s.pins.owed.None? && Acyclic(Parents(s.nodes)) && s.ctr < ID_RANGE
    && forall id {:trigger IsUsed(s.nodes, s.pins, id)} :: id in s.nodes <==> IsUsed(s.nodes, s.pins, id)
  }

  lemma SettledIsRight(t: InodeTree)
    requires t.Settled()
    ensures Right(Now(t))
  {
    t.LiveIffUsed();
  }

  method DoLookup(t: InodeTree, parent: Id, name: string)
    requires t.Settled()
    modifies t, t.names, t.ids
    ensures t.Settled() && NodeStep(t.remember, old(Now(t)), FindOp(parent, name), Now(t))
  {
    if parent in t.nodes && |t.nodes| < ID_RANGE - 2 {
      var id := t.FindNode(parent, Some(name));
      assert t.pins == old(t.pins);
    }
  }

  method DoForget(t: InodeTree, id: Id, count: nat)
    requires t.Settled()
    modifies t, t.names, t.ids
    ensures t.Settled() && NodeStep(t.remember, old(Now(t)), ForgetOp(id, count), Now(t))
  {
    if id in t.nodes && 0 < t.nodes[id].nlookup && count <= t.nodes[id].nlookup {
      var sound := t.ForgetNode(id, count);
    }
  }

  method DoRemove(t: InodeTree, k: Link)
    requires t.Settled()
    modifies t, t.names, t.ids
    ensures t.Settled() && NodeStep(t.remember, old(Now(t)), RemoveOp(k), Now(t))
  {
    var c := t.names.Lookup(k);
    if c.Some? && (t.remember ==> t.nodes[c.value].nlookup > 1) {
      t.RemoveNode(k);
    }
  }

  /** The walk with which the code, where it checks for loops at all, looks for one node above another. */
  method IsAbove(t: InodeTree, x: Id, w: Id) returns (above: bool)
    requires t.Settled() && x in t.nodes
    ensures above <==> IsBelow(Parents(t.nodes), x, w)
  {
    ghost var parents := Parents(t.nodes);
    ghost var rank: Id -> nat :| Ranks(parents, rank);
    var y := x;
    while t.nodes[y].link.Some?
      invariant y in t.nodes && (IsBelow(parents, x, w) <==> IsBelow(parents, y, w))
      decreases rank(y)
    {
      BelowStep(parents, y, w);
      if y == w {
        return true;
      }
      assert IsLinked(t.nodes, y) && y in parents;
      y := t.nodes[y].link.value.parent;
    }
    BelowTop(parents, y, w);
    above := y == w;
  }

  method MayRenameNow(t: InodeTree, oldk: Link, newk: Link) returns (ok: bool)
    requires t.Settled()
    ensures ok <==> Allowed(t.remember, Now(t), RenameOp(oldk, newk))
  {
    var node := t.names.Lookup(oldk);
    var newnode := t.names.Lookup(newk);
    if node.None? || !LookedUpDir(t.nodes, oldk.parent) || !LookedUpDir(t.nodes, newk.parent) {
      return false;
    }
    if t.remember && newnode.Some? && t.nodes[newnode.value].nlookup <= 1 {
      return false;
    }
    var above := IsAbove(t, newk.parent, node.value);
    ok := !above;
  }

  method DoRename(t: InodeTree, oldk: Link, newk: Link)
    requires t.Settled()
    modifies t, t.names, t.ids
    ensures t.Settled() && NodeStep(t.remember, old(Now(t)), RenameOp(oldk, newk), Now(t))
  {
    var ok := MayRenameNow(t, oldk, newk);
    if ok {
      NotItself(t.nodes, newk.parent, t.names.nodes[oldk]);
      var r := t.RenameNode(oldk, newk, false);
    }
  }

  lemma NotItself(nodes: Nodes, x: Id, w: Id)
    requires !IsBelow(Parents(nodes), x, w)
    ensures x != w
  {
    assert Climb(Parents(nodes), x, 0) == Some(x);
  }

  method DoPin(t: InodeTree, id: Id)
    requires t.Settled()
    modifies t, t.names, t.ids
    ensures t.Settled() && NodeStep(t.remember, old(Now(t)), PinOp(id), Now(t))
  {
    if id in t.nodes {
      t.Pin(id);
    }
  }

  /** `held` is what the requests under way hold. */
  method DoUnpin(t: InodeTree, id: Id, held: multiset<Id>)
    requires t.Settled() && held == t.pins.held
    modifies t, t.names, t.ids
    ensures t.Settled() && NodeStep(t.remember, old(Now(t)), UnpinOp(id), Now(t))
  {
    if held[id] > 0 {
      t.Unpin(id);
    }
  }

  method Do(t: InodeTree, op: NodeOp, held: multiset<Id>) returns (held': multiset<Id>)
    requires t.Settled() && held == t.pins.held
    modifies t, t.names, t.ids
    ensures t.Settled() && NodeStep(t.remember, old(Now(t)), op, Now(t)) && held' == t.pins.held
  {
    held' := held;
    match op
    case FindOp(parent, name) => DoLookup(t, parent, name);
    case ForgetOp(id, count) => DoForget(t, id, count);
    case RemoveOp(k) => DoRemove(t, k);
    case RenameOp(oldk, newk) => DoRename(t, oldk, newk);
    case PinOp(id) =>
      if id in t.nodes {
        held' := held + multiset{id};
      }
      DoPin(t, id);
    case UnpinOp(id) =>
      if held[id] > 0 {
        held' := held - multiset{id};
      }
      DoUnpin(t, id, held);
  }

  /** The states a run of requests goes through: each follows from the one before, and each is right. */
  ghost predicate RunOf(remember: bool, start: TreeState, trace: seq<TreeState>, ops: seq<NodeOp>) {
    && |trace| == |ops| + 1 && trace[0] == start
    && (forall i: nat {:trigger StepAt(remember, trace, ops, i)} :: i < |ops| ==> StepAt(remember, trace, ops, i))
    && (forall i: nat {:trigger RightAt(trace, i)} :: i < |trace| ==> RightAt(trace, i))
  }

  ghost predicate StepAt(remember: bool, trace: seq<TreeState>, ops: seq<NodeOp>, i: nat)
    requires i < |ops| && i + 1 < |trace|
  {
    NodeStep(remember, trace[i], ops[i], trace[i + 1])
  }

  ghost predicate RightAt(trace: seq<TreeState>, i: nat)
    requires i < |trace|
  {
    Right(trace[i])
  }

  lemma {:induction false} TicksGrow(remember: bool, start: TreeState, trace: seq<TreeState>, ops: seq<NodeOp>, i: nat,
                                     j: nat)
    requires RunOf(remember, start, trace, ops) && i <= j < |trace|
    ensures trace[i].Tick() <= trace[j].Tick()
    decreases j
  {
    if i < j {
      TicksGrow(remember, start, trace, ops, i, j - 1);
      assert StepAt(remember, trace, ops, j - 1);
    }
  }

  /** In any run, no two nodes that are added get the same id with the same generation. */
  lemma NoPairTwice(remember: bool, start: TreeState, trace: seq<TreeState>, ops: seq<NodeOp>, i: nat, j: nat)
    requires RunOf(remember, start, trace, ops) && i < j < |ops|
    requires Adds(remember, trace[i], ops[i]) && Adds(remember, trace[j], ops[j])
    ensures var id, id', generation, generation' := trace[i + 1].ctr, trace[j + 1].ctr, trace[i + 1].generation,
                                                    trace[j + 1].generation;
            && id !in trace[i].nodes && id in trace[i + 1].nodes && trace[i + 1].nodes[id].generation == generation
            && id' !in trace[j].nodes && id' in trace[j + 1].nodes && trace[j + 1].nodes[id'].generation == generation'
            && (id != id' || generation != generation')
  {
    TicksGrow(remember, start, trace, ops, i + 1, j);
    assert StepAt(remember, trace, ops, i) && StepAt(remember, trace, ops, j);
  }

  // ------------------------------------------------- how many lookups a node has

  /** The request is a lookup that came to this node. */
  ghost predicate CameTo(remember: bool, s: TreeState, op: NodeOp, s': TreeState, id: Id) {
    && op.FindOp? && Allowed(remember, s, op)
    && var k := Link(op.parent, op.name); id == if k in s.names then s.names[k] else s'.ctr
  }

  /** The request took this node's name away: as the node removed, or as the one in the way of a rename. */
  ghost predicate LosesName(remember: bool, s: TreeState, op: NodeOp, id: Id) {
    && Allowed(remember, s, op)
    && match op
       case RemoveOp(k) => s.names[k] == id
       case RenameOp(_, newk) => newk in s.names && s.names[newk] == id
       case _ => false
  }

  /** The lookups that the request gave back. The root is never forgotten. */
  ghost function Returned(remember: bool, s: TreeState, op: NodeOp, id: Id): nat {
    if op.ForgetOp? && Allowed(remember, s, op) && op.id == id && id != ROOT_ID then op.count else 0
  }

  function One(b: bool): nat {
    if b then 1 else 0
  }

  /** What the kernel still has of a node after the requests from the `a`-th to the `n`-th: the lookups that came to it,
      without those it has given back. */
  ghost function Owed(remember: bool, trace: seq<TreeState>, ops: seq<NodeOp>, a: nat, n: nat, id: Id): int
    requires a <= n <= |ops| && n < |trace|
  {
    if a == n then 0
    else
      var s, op, s' := trace[n - 1], ops[n - 1], trace[n];
      Owed(remember, trace, ops, a, n - 1, id) + One(CameTo(remember, s, op, s', id)) - Returned(remember, s, op, id)
  }

  /** How often the node has lost its name since. */
  ghost function NamesLost(remember: bool, trace: seq<TreeState>, ops: seq<NodeOp>, a: nat, n: nat, id: Id): nat
    requires a <= n <= |ops| && n < |trace|
  {
    if a == n then 0
    else NamesLost(remember, trace, ops, a, n - 1, id) + One(LosesName(remember, trace[n - 1], ops[n - 1], id))
  }

  /** One request, for a node that is live before it: what becomes of its lookups, and that it stays if any are left. */
  lemma LookupsStep(remember: bool, s: TreeState, op: NodeOp, s': TreeState, id: Id)
    requires NodeStep(remember, s, op, s') && Right(s) && id in s.nodes
    ensures var left := s.nodes[id].nlookup + One(CameTo(remember, s, op, s', id)) - Returned(remember, s, op, id)
                        - (if remember then One(LosesName(remember, s, op, id)) else 0);
            && (id in s'.nodes ==> s'.nodes[id].nlookup == left)
            && (left > 0 ==> id in s'.nodes)
  {
  }

  /** A request that adds a node leaves it looked up once, and once more by the cache itself under `remember`. */
  lemma FirstLookup(remember: bool, s: TreeState, op: NodeOp, s': TreeState, id: Id)
    requires NodeStep(remember, s, op, s') && Right(s) && id !in s.nodes && id in s'.nodes
    ensures s'.nodes[id].nlookup == 1 + One(remember) && CameTo(remember, s, op, s', id)
    ensures Returned(remember, s, op, id) == 0 && !LosesName(remember, s, op, id)
  {
  }

  /** What the kernel, and under `remember` the cache, still has of a node. */
  ghost function InUse(remember: bool, trace: seq<TreeState>, ops: seq<NodeOp>, a: nat, n: nat, id: Id): int
    requires a <= n <= |ops| && n < |trace|
  {
    Owed(remember, trace, ops, a, n, id) + if remember then 1 - NamesLost(remember, trace, ops, a, n, id) else 0
  }

  lemma InUseNext(remember: bool, trace: seq<TreeState>, ops: seq<NodeOp>, a: nat, n: nat, id: Id)
    requires a < n <= |ops| && n < |trace|
    ensures InUse(remember, trace, ops, a, a, id) == One(remember)
    ensures var s, op, s' := trace[n - 1], ops[n - 1], trace[n];
            InUse(remember, trace, ops, a, n, id) ==
            InUse(remember, trace, ops, a, n - 1, id) + One(CameTo(remember, s, op, s', id))
            - Returned(remember, s, op, id) - (if remember then One(LosesName(remember, s, op, id)) else 0)
  {
  }

  /** In any run, a live node that was added by the `a`-th request has exactly the lookups that came to it since and
      were not given back; under `remember` one more, as long as it has its name. */
  lemma {:induction false} LookupsCounted(remember: bool, start: TreeState, trace: seq<TreeState>, ops: seq<NodeOp>,
                                          a: nat, n: nat, id: Id)
    requires RunOf(remember, start, trace, ops) && a < n <= |ops| && id !in trace[a].nodes
    requires forall k | a < k <= n :: id in trace[k].nodes
    ensures trace[n].nodes[id].nlookup == InUse(remember, trace, ops, a, n, id)
    decreases n
  {
    var p := n - 1;
    assert StepAt(remember, trace, ops, p) && RightAt(trace, p);
    InUseNext(remember, trace, ops, a, n, id);
    if p == a {
      FirstLookup(remember, trace[a], ops[a], trace[n], id);
    } else {
      LookupsCounted(remember, start, trace, ops, a, p, id);
      LookupsStep(remember, trace[p], ops[p], trace[n], id);
    }
  }

  /** A node that has been looked up more often than forgotten is live: in any run, from the request that added it on
      for as long as that is so. */
  lemma {:induction false} LiveWhileLookedUp(remember: bool, start: TreeState, trace: seq<TreeState>, ops: seq<NodeOp>,
                                             a: nat, n: nat, id: Id)
    requires RunOf(remember, start, trace, ops) && a < n <= |ops| && id !in trace[a].nodes && id in trace[a + 1].nodes
    requires forall k | a < k <= n :: InUse(remember, trace, ops, a, k, id) > 0
    ensures id in trace[n].nodes && trace[n].nodes[id].nlookup == InUse(remember, trace, ops, a, n, id)
    decreases n
  {
    var p := n - 1;
    assert StepAt(remember, trace, ops, p) && RightAt(trace, p);
    InUseNext(remember, trace, ops, a, n, id);
    if p == a {
      FirstLookup(remember, trace[a], ops[a], trace[n], id);
    } else {
      LiveWhileLookedUp(remember, start, trace, ops, a, p, id);
      LookupsStep(remember, trace[p], ops[p], trace[n], id);
    }
  }

  lemma RunSnoc(remember: bool, start: TreeState, trace: seq<TreeState>, ops: seq<NodeOp>, op: NodeOp, s: TreeState)
    requires RunOf(remember, start, trace, ops) && NodeStep(remember, trace[|ops|], op, s) && Right(s)
    ensures RunOf(remember, start, trace + [s], ops + [op])
  {
    var trace', ops' := trace + [s], ops + [op];
    forall i: nat | i < |ops'| ensures StepAt(remember, trace', ops', i) {
      assert i < |ops| ==> StepAt(remember, trace, ops, i);
    }
    forall i: nat | i < |trace'| ensures RightAt(trace', i) {
      assert i < |trace| ==> RightAt(trace, i);
    }
  }

  /** The run stands where `done` has led it. */
  ghost predicate Along(t: InodeTree, held: multiset<Id>, start: TreeState, trace: seq<TreeState>, done: seq<NodeOp>)
    reads t, t.names, t.ids
  {
    t.Settled() && held == t.pins.held && RunOf(t.remember, start, trace, done) && trace[|done|] == Now(t)
  }

  lemma FirstOfRest(done: seq<NodeOp>, ops: seq<NodeOp>)
    ensures if ops == [] then done + ops == done else done + [ops[0]] + ops[1..] == done + ops
  {
  }

  /** One request more. */
  method Extend(t: InodeTree, op: NodeOp, held: multiset<Id>, ghost start: TreeState, ghost trace: seq<TreeState>,
                ghost done: seq<NodeOp>)
    returns (held': multiset<Id>, ghost trace': seq<TreeState>)
    requires Along(t, held, start, trace, done)
    modifies t, t.names, t.ids
    ensures Along(t, held', start, trace', done + [op])
  {
    held' := Do(t, op, held);
    SettledIsRight(t);
    RunSnoc(t.remember, start, trace, done, op, Now(t));
    trace' := trace + [Now(t)];
  }

  method RunFrom(t: InodeTree, ops: seq<NodeOp>, held: multiset<Id>, ghost start: TreeState,
                 ghost trace: seq<TreeState>, ghost done: seq<NodeOp>)
    returns (held': multiset<Id>, ghost trace': seq<TreeState>)
    requires Along(t, held, start, trace, done)
    modifies t, t.names, t.ids
    ensures Along(t, held', start, trace', done + ops)
    decreases |ops|
  {
    held', trace' := held, trace;
    FirstOfRest(done, ops);
    if ops != [] {
      held', trace' := Extend(t, ops[0], held, start, trace, done);
      held', trace' := RunFrom(t, ops[1..], held', start, trace', done + [ops[0]]);
    }
  }

  /** Only the root, looked up once. */
  ghost function FirstState(): TreeState {
    TreeState(map[ROOT_ID := Node(None, 1, 1, 0)], map[], Pins(multiset{}, None), 0, 0)
  }

  /** Any run of requests: in every state the counts are exact, the links are a tree of live nodes, and a node
      is live exactly when the kernel or a request uses it or a node below it. */
  method RunTree(remember: bool, ops: seq<NodeOp>) returns (t: InodeTree, ghost trace: seq<TreeState>)
    ensures t.Settled() && RunOf(remember, FirstState(), trace, ops) && trace[|ops|] == Now(t)
  {
    t := new InodeTree(remember);
    SettledIsRight(t);
    assert RightAt([Now(t)], 0);
    var held;
    held, trace := RunFrom(t, ops, multiset{}, Now(t), [Now(t)], []);
    assert [] + ops == ops;
  }
}
