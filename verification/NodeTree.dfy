/** Reference counts of the inode tree of fuse-3/lib/fuse.c. A node is denoted by its id: ids of live
    nodes are distinct. */
module NodeTree {
  import opened Options
  import opened Forest

  /** The parent and the name under which a node is hashed. */
  datatype Link = Link(parent: Id, name: string)

  datatype Node = Node(link: Option<Link>, refctr: nat, nlookup: nat, generation: nat)

  type Nodes = map<Id, Node>

  /** Hashed by name. */
  ghost predicate IsLinked(nodes: Nodes, c: Id) {
    c in nodes && nodes[c].link.Some?
  }

  ghost predicate IsChild(nodes: Nodes, c: Id, id: Id) {
    c in nodes && nodes[c].link.Some? && nodes[c].link.value.parent == id
  }

  ghost function Children(nodes: Nodes, id: Id): set<Id> {
    set c | c in nodes && IsChild(nodes, c, id)
  }

  /** What refers to a node: its named children, the kernel, and temporary pins. */
  ghost function Refs(nodes: Nodes, pins: Pins, id: Id): nat
    requires id in nodes
  {
    |Children(nodes, id)| + (if nodes[id].nlookup > 0 then 1 else 0) + pins.On(id)
  }

  /** References that belong to a request under way: pins it holds on nodes, and at most one that
      it is about to drop. */
  datatype Pins = Pins(held: multiset<Id>, owed: Option<Id>) {
    ghost function On(id: Id): nat {
      held[id] + if owed == Some(id) then 1 else 0
    }

    ghost function Owing(id: Id): Pins {
      this.(owed := Some(id))
    }

    ghost function Released(id: Id): Pins {
      this.(held := held - multiset{id})
    }

    ghost function Paid(): Pins {
      this.(owed := None)
    }
  }

  ghost predicate RefsExact(nodes: Nodes, pins: Pins) {
    forall id {:trigger Refs(nodes, pins, id)} :: id in nodes ==> nodes[id].refctr == Refs(nodes, pins, id)
  }

  ghost predicate IdleExact(nodes: Nodes, idle: set<Id>) {
    idle <= nodes.Keys && forall id :: id in nodes ==> (nodes[id].refctr == 0 <==> id in idle)
  }

  ghost predicate PinsLive(nodes: Nodes, pins: Pins) {
    (forall id :: id in pins.held ==> id in nodes) && (pins.owed.Some? ==> pins.owed.value in nodes)
  }

  /** Every count is the number of references, and is positive but for the nodes in `idle`. */
  ghost predicate Counted(nodes: Nodes, pins: Pins, idle: set<Id>) {
    RefsExact(nodes, pins) && IdleExact(nodes, idle) && PinsLive(nodes, pins)
  }

  /** Every parent is live. */
  ghost predicate ParentsLive(nodes: Nodes) {
    forall c {:trigger IsLinked(nodes, c)} :: IsLinked(nodes, c) ==> nodes[c].link.value.parent in nodes
  }

  /** The name table lists exactly the linked nodes. */
  ghost predicate Named(nodes: Nodes, names: map<Link, Id>) {
    && (forall k :: k in names ==> names[k] in nodes && nodes[names[k]].link == Some(k))
    && (forall c {:trigger IsLinked(nodes, c)} :: IsLinked(nodes, c) ==>
          nodes[c].link.value in names && names[nodes[c].link.value] == c)
  }

  /** The links between the nodes as a forest. */
  ghost function Parents(nodes: Nodes): map<Id, Id> {
    map c | c in nodes && nodes[c].link.Some? :: nodes[c].link.value.parent
  }

  function WithoutLink(nodes: Nodes, c: Id): Nodes
    requires c in nodes
  {
    nodes[c := nodes[c].(link := None)]
  }

  function Hung(nodes: Nodes, c: Id, k: Link): Nodes
    requires c in nodes && k.parent in nodes
  {
    nodes[k.parent := nodes[k.parent].(refctr := nodes[k.parent].refctr + 1)][c := nodes[c].(link := Some(k))]
  }

  /** A reference to `id` is dropped. */
  function Dropped(nodes: Nodes, id: Id): Nodes
    requires id in nodes && nodes[id].refctr > 0
  {
    nodes[id := nodes[id].(refctr := nodes[id].refctr - 1)]
  }

  lemma ChildrenWithoutLink(nodes: Nodes, c: Id, id: Id)
    requires c in nodes && id in nodes
    ensures Children(WithoutLink(nodes, c), id) == Children(nodes, id) - {c}
  {
  }

  /** A node that loses its link hands the reference to its parent over to the caller, as a pin. */
  lemma UnlinkCounted(nodes: Nodes, pins: Pins, idle: set<Id>, c: Id)
    requires Counted(nodes, pins, idle) && ParentsLive(nodes) && IsLinked(nodes, c) && pins.owed.None?
    ensures Counted(WithoutLink(nodes, c), pins.Owing(nodes[c].link.value.parent), idle)
    ensures ParentsLive(WithoutLink(nodes, c))
  {
    var p, nodes' := nodes[c].link.value.parent, WithoutLink(nodes, c);
    assert forall x :: IsLinked(nodes', x) ==> IsLinked(nodes, x);
    forall id | id in nodes' ensures nodes'[id].refctr == Refs(nodes', pins.Owing(p), id) {
      ChildrenWithoutLink(nodes, c, id);
      assert nodes[id].refctr == Refs(nodes, pins, id);
      assert IsChild(nodes, c, p);
      assert id == p ==> c in Children(nodes, id);
      assert id != p ==> c !in Children(nodes, id);
    }
  }

  lemma ChildrenHung(nodes: Nodes, c: Id, k: Link, id: Id)
    requires c in nodes && nodes[c].link.None? && k.parent in nodes && k.parent != c && id in nodes
    ensures c !in Children(nodes, id)
    ensures Children(Hung(nodes, c, k), id) == if id == k.parent then Children(nodes, id) + {c} else Children(nodes, id)
  {
    var nodes' := Hung(nodes, c, k);
    assert IsChild(nodes', c, k.parent);
    forall x | x in nodes && x != c ensures IsChild(nodes', x, id) <==> IsChild(nodes, x, id) {
      assert nodes'[x].link == nodes[x].link;
    }
  }

  lemma LinkRefs(nodes: Nodes, pins: Pins, c: Id, k: Link)
    requires RefsExact(nodes, pins) && c in nodes && nodes[c].link.None? && k.parent in nodes && k.parent != c
    ensures RefsExact(Hung(nodes, c, k), pins)
  {
    var p, nodes' := k.parent, Hung(nodes, c, k);
    forall id | id in nodes' ensures nodes'[id].refctr == Refs(nodes', pins, id) {
      assert nodes[id].refctr == Refs(nodes, pins, id);
      ChildrenHung(nodes, c, k, id);
    }
  }

  /** A node that gains a link. */
  lemma LinkCounted(nodes: Nodes, pins: Pins, idle: set<Id>, c: Id, k: Link)
    requires Counted(nodes, pins, idle) && ParentsLive(nodes)
    requires c in nodes && nodes[c].link.None? && k.parent in nodes && k.parent != c
    ensures Counted(Hung(nodes, c, k), pins, idle - {k.parent}) && ParentsLive(Hung(nodes, c, k))
  {
    assert forall x :: IsLinked(Hung(nodes, c, k), x) ==> x == c || IsLinked(nodes, x);
    LinkRefs(nodes, pins, c, k);
  }

  lemma SameChildren(nodes: Nodes, nodes': Nodes, id: Id)
    requires nodes.Keys == nodes'.Keys && forall c :: c in nodes ==> nodes[c].link == nodes'[c].link
    ensures Children(nodes', id) == Children(nodes, id)
  {
  }

  lemma DropRefs(nodes: Nodes, pins: Pins, id: Id)
    requires RefsExact(nodes, pins) && pins.owed == Some(id) && id in nodes && nodes[id].refctr > 0
    ensures RefsExact(Dropped(nodes, id), pins.Paid())
  {
    var nodes', pins' := Dropped(nodes, id), pins.Paid();
    forall x | x in nodes' ensures nodes'[x].refctr == Refs(nodes', pins', x) {
      assert nodes[x].refctr == Refs(nodes, pins, x);
      SameChildren(nodes, nodes', x);
    }
  }

  lemma DropCounted(nodes: Nodes, pins: Pins, idle: set<Id>, id: Id)
    requires Counted(nodes, pins, idle) && pins.owed == Some(id)
    ensures id in nodes && nodes[id].refctr > 0 && id !in idle
    ensures Counted(Dropped(nodes, id), pins.Paid(), if nodes[id].refctr == 1 then idle + {id} else idle)
  {
    assert nodes[id].refctr == Refs(nodes, pins, id);
    DropRefs(nodes, pins, id);
  }

  /** What is said of links holds as long as the links do. */
  lemma SameLinks(nodes: Nodes, nodes': Nodes, names: map<Link, Id>)
    requires nodes.Keys == nodes'.Keys && forall c :: c in nodes ==> nodes[c].link == nodes'[c].link
    ensures ParentsLive(nodes) ==> ParentsLive(nodes')
    ensures Named(nodes, names) ==> Named(nodes', names)
  {
    assert forall x :: IsLinked(nodes', x) ==> IsLinked(nodes, x);
    if Named(nodes, names) {
      forall k | k in names ensures names[k] in nodes' && nodes'[names[k]].link == Some(k) {
        var n := names[k];
        assert n in nodes' && nodes[n].link == nodes'[n].link;
      }
    }
  }

  /** An idle node without a link can be freed: nothing refers to it. */
  lemma FreeCounted(nodes: Nodes, pins: Pins, idle: set<Id>, id: Id)
    requires Counted(nodes, pins, idle) && ParentsLive(nodes) && id in idle && nodes[id].link.None?
    ensures Counted(nodes - {id}, pins, idle - {id}) && ParentsLive(nodes - {id})
    ensures Children(nodes, id) == {} && nodes[id].nlookup == 0 && pins.held[id] == 0
  {
    assert nodes[id].refctr == Refs(nodes, pins, id);
    forall x | x in nodes - {id} ensures (nodes - {id})[x].refctr == Refs(nodes - {id}, pins, x) {
      assert nodes[x].refctr == Refs(nodes, pins, x);
      assert Children(nodes - {id}, x) == Children(nodes, x);
    }
    forall c | IsLinked(nodes - {id}, c) ensures nodes[c].link.value.parent in nodes - {id} {
      assert IsLinked(nodes, c);
      assert c !in Children(nodes, id);
      assert !IsChild(nodes, c, id);
    }
  }

  /** `inc_nlookup`. */
  function LookedUp(n: Node): Node {
    n.(nlookup := n.nlookup + 1, refctr := if n.nlookup == 0 then n.refctr + 1 else n.refctr)
  }

  lemma LookupCounted(nodes: Nodes, pins: Pins, idle: set<Id>, id: Id)
    requires Counted(nodes, pins, idle) && id in nodes
    ensures Counted(nodes[id := LookedUp(nodes[id])], pins, idle - {id})
  {
    var nodes' := nodes[id := LookedUp(nodes[id])];
    forall x | x in nodes' ensures nodes'[x].refctr == Refs(nodes', pins, x) {
      assert nodes[x].refctr == Refs(nodes, pins, x);
      SameChildren(nodes, nodes', x);
    }
  }

  function Forgotten(n: Node, count: nat): Node
    requires count <= n.nlookup
  {
    n.(nlookup := n.nlookup - count)
  }

  lemma ForgetRefsIff(nodes: Nodes, pins: Pins, id: Id, count: nat, pins': Pins)
    requires RefsExact(nodes, pins) && id in nodes && count <= nodes[id].nlookup && pins.owed.None?
    requires pins' == if count == nodes[id].nlookup then pins.Owing(id) else pins
    ensures RefsExact(nodes[id := Forgotten(nodes[id], count)], pins') <==> nodes[id].nlookup > 0
  {
    var nodes' := nodes[id := Forgotten(nodes[id], count)];
    forall x | x in nodes' ensures nodes'[x].refctr == Refs(nodes', pins', x) <==> x != id || nodes[id].nlookup > 0 {
      assert nodes[x].refctr == Refs(nodes, pins, x);
      SameChildren(nodes, nodes', x);
    }
    assert id in nodes';
  }

  /** Giving lookups back turns the last one into a pin for the caller to drop. This keeps the
      counts exactly when there was a lookup to give back. */
  lemma ForgetCountedIff(nodes: Nodes, pins: Pins, idle: set<Id>, id: Id, count: nat, pins': Pins)
    requires Counted(nodes, pins, idle) && id in nodes && count <= nodes[id].nlookup && pins.owed.None?
    requires pins' == if count == nodes[id].nlookup then pins.Owing(id) else pins
    ensures Counted(nodes[id := Forgotten(nodes[id], count)], pins', idle) <==> nodes[id].nlookup > 0
  {
    ForgetRefsIff(nodes, pins, id, count, pins');
  }

  /** Forgetting no lookups of a node that has none left, and lives on for its child, takes away the
      child's reference. */
  lemma ForgetWithoutLookupFails()
    ensures exists nodes: Nodes, pins: Pins ::
              2 in nodes && Counted(nodes, pins, {}) && pins.owed.None? && nodes[2].nlookup == 0
              && !Counted(nodes[2 := Forgotten(nodes[2], 0)], pins.Owing(2), {})
  {
    var nodes := map[2 := Node(None, 1, 0, 0), 3 := Node(Some(Link(2, "a")), 1, 1, 0)];
    var pins := Pins(multiset{}, None);
    assert IsChild(nodes, 3, 2);
    assert Children(nodes, 2) == {3} && Children(nodes, 3) == {};
    assert Counted(nodes, pins, {});
    ForgetCountedIff(nodes, pins, {}, 2, 0, pins.Owing(2));
  }

  lemma UnlinkNamed(nodes: Nodes, names: map<Link, Id>, c: Id)
    requires Named(nodes, names) && IsLinked(nodes, c)
    ensures nodes[c].link.value in names && names[nodes[c].link.value] == c
    ensures Named(WithoutLink(nodes, c), names - {nodes[c].link.value})
  {
    assert forall x :: IsLinked(WithoutLink(nodes, c), x) ==> x != c && IsLinked(nodes, x);
  }

  lemma LinkNamed(nodes: Nodes, names: map<Link, Id>, c: Id, k: Link)
    requires Named(nodes, names) && c in nodes && nodes[c].link.None? && k !in names
    requires k.parent in nodes && k.parent != c
    ensures Named(Hung(nodes, c, k), names[k := c])
  {
    assert forall x :: IsLinked(Hung(nodes, c, k), x) ==> x == c || IsLinked(nodes, x);
  }

  lemma FreeNamed(nodes: Nodes, names: map<Link, Id>, id: Id)
    requires Named(nodes, names) && id in nodes && nodes[id].link.None?
    ensures Named(nodes - {id}, names)
  {
    assert forall x :: IsLinked(nodes - {id}, x) ==> IsLinked(nodes, x);
  }

  const ROOT_ID: Id := 1

  /** The raw hash of an id: a 32-bit product. */
  function RawId(id: Id): nat {
    id % 0x1_0000_0000 * 2654435761 % 0x1_0000_0000
  }

  /** The raw hash of a name below its parent, in 64-bit arithmetic. */
  function RawName(k: Link): nat {
    HashFrom(k.parent % 0x1_0000_0000_0000_0000, k.name)
  }

  function HashFrom(hash: nat, name: string): nat
    decreases |name|
  {
    if name == "" then hash
    else HashFrom((hash * 31 + name[0] as nat % 256) % 0x1_0000_0000_0000_0000, name[1..])
  }

  /** The kernel never gives the root up, and it has no name. */
  ghost predicate Rooted(nodes: Nodes) {
    ROOT_ID in nodes && nodes[ROOT_ID].link.None? && nodes[ROOT_ID].nlookup > 0
  }

  ghost predicate Sane(nodes: Nodes, pins: Pins, idle: set<Id>, names: map<Link, Id>) {
    Rooted(nodes) && ParentsLive(nodes) && Counted(nodes, pins, idle) && Named(nodes, names)
  }

  lemma UnlinkSane(nodes: Nodes, pins: Pins, idle: set<Id>, names: map<Link, Id>, c: Id)
    requires Sane(nodes, pins, idle, names) && IsLinked(nodes, c) && pins.owed.None?
    ensures nodes[c].link.value in names && names[nodes[c].link.value] == c
    ensures Sane(WithoutLink(nodes, c), pins.Owing(nodes[c].link.value.parent), idle, names - {nodes[c].link.value})
    ensures WithoutLink(nodes, c).Keys == nodes.Keys
  {
    UnlinkNamed(nodes, names, c);
    UnlinkCounted(nodes, pins, idle, c);
  }

  lemma DropSane(nodes: Nodes, pins: Pins, idle: set<Id>, names: map<Link, Id>, id: Id)
    requires Sane(nodes, pins, idle, names) && pins.owed == Some(id)
    ensures id in nodes && nodes[id].refctr > 0 && id !in idle
    ensures Sane(Dropped(nodes, id), pins.Paid(), if nodes[id].refctr == 1 then idle + {id} else idle, names)
    ensures Dropped(nodes, id).Keys == nodes.Keys && Kept(nodes, Dropped(nodes, id), pins.Paid())
  {
    DropCounted(nodes, pins, idle, id);
    SameLinks(nodes, Dropped(nodes, id), names);
  }

  lemma FreeSane(nodes: Nodes, pins: Pins, idle: set<Id>, names: map<Link, Id>, id: Id)
    requires Sane(nodes, pins, idle, names) && id in idle && nodes[id].link.None?
    ensures Sane(nodes - {id}, pins, idle - {id}, names)
    ensures Kept(nodes, nodes - {id}, pins)
  {
    FreeCounted(nodes, pins, idle, id);
    FreeNamed(nodes, names, id);
  }

  /** The id table lists exactly the live nodes. */
  ghost predicate Listed(nodes: Nodes, ids: map<Id, Id>) {
    ids.Keys == nodes.Keys && forall id :: id in ids ==> ids[id] == id
  }

  /** The id table lists every node but `id`. */
  ghost predicate ListedBut(nodes: Nodes, ids: map<Id, Id>, id: Id) {
    id in nodes && ids.Keys == nodes.Keys - {id} && forall x :: x in ids ==> ids[x] == x
  }

  lemma SizeOfListed(nodes: Nodes, ids: map<Id, Id>)
    requires Listed(nodes, ids)
    ensures |ids| == |nodes|
  {
    assert |ids| == |ids.Keys| && |nodes| == |nodes.Keys|;
  }

  lemma UpdatedTwice(nodes: Nodes, id: Id, a: Node, b: Node)
    ensures nodes[id := a][id := b] == nodes[id := b]
  {
  }

  /** A node as it is hashed: under `remember` the cache itself counts as a lookup. */
  function NewNode(remember: bool, generation: nat): Node {
    if remember then Node(None, 1, 1, generation) else Node(None, 0, 0, generation)
  }

  /** The node `n` is added as `id` and hashed. */
  function Added(nodes: Nodes, id: Id, n: Node, k: Link): Nodes
    requires id !in nodes && k.parent in nodes
  {
    Hung(nodes[id := n], id, k)
  }

  lemma AddedThenLookedUp(nodes: Nodes, id: Id, n: Node, k: Link)
    requires id !in nodes && k.parent in nodes
    ensures id in Added(nodes, id, n, k)
    ensures Added(nodes, id, n, k)[id := LookedUp(Added(nodes, id, n, k)[id])] == Added(nodes, id, LookedUp(n), k)
  {
  }

  /** Some nodes nobody has looked up or pinned may be gone; the others have kept their places. */
  ghost predicate Kept(before: Nodes, after: Nodes, pins: Pins) {
    && after.Keys <= before.Keys
    && (forall id :: id in after ==>
         && after[id].link == before[id].link && after[id].nlookup == before[id].nlookup
         && after[id].generation == before[id].generation)
    && (forall id :: id in before && id !in after ==> before[id].nlookup == 0 && pins.held[id] == 0)
  }

  lemma KeptComposes(a: Nodes, b: Nodes, c: Nodes, pins: Pins)
    requires Kept(a, b, pins) && Kept(b, c, pins)
    ensures Kept(a, c, pins)
  {
  }

  lemma DeletedKept(a: Nodes, b: Nodes, c: Nodes, pins: Pins, id: Id)
    requires id in a && Kept(WithoutLink(a, id), b, pins) && Kept(b, c, pins) && id !in c
    ensures Kept(a, c, pins)
  {
  }

  lemma FewerLeft(keys: set<Id>, idle: set<Id>, id: Id)
    requires id in keys && id !in idle
    ensures |keys - (idle + {id})| < |keys - idle|
  {
    assert keys - (idle + {id}) == keys - idle - {id};
  }

  /** A node fresh from the allocator refers to nothing, and nothing refers to it. */
  lemma NewSane(nodes: Nodes, pins: Pins, idle: set<Id>, names: map<Link, Id>, id: Id, generation: nat)
    requires Sane(nodes, pins, idle, names) && id !in nodes
    ensures Sane(nodes[id := Node(None, 0, 0, generation)], pins, idle + {id}, names)
  {
    var nodes' := nodes[id := Node(None, 0, 0, generation)];
    forall x ensures IsLinked(nodes', x) <==> IsLinked(nodes, x) {}
    forall x | x in nodes' ensures nodes'[x].refctr == Refs(nodes', pins, x) {
      if x == id {
        forall c ensures !IsChild(nodes', c, id) {
          assert IsLinked(nodes, c) ==> nodes[c].link.value.parent in nodes;
        }
        assert Children(nodes', x) == {};
      } else {
        assert nodes[x].refctr == Refs(nodes, pins, x);
        assert Children(nodes', x) == Children(nodes, x);
      }
    }
  }

  lemma LinkSane(nodes: Nodes, pins: Pins, idle: set<Id>, names: map<Link, Id>, c: Id, k: Link)
    requires Sane(nodes, pins, idle, names) && c in nodes && nodes[c].link.None? && c != ROOT_ID
    requires k.parent in nodes && k.parent != c && k !in names
    ensures Sane(Hung(nodes, c, k), pins, idle - {k.parent}, names[k := c])
  {
    LinkCounted(nodes, pins, idle, c, k);
    LinkNamed(nodes, names, c, k);
  }

  lemma LookupSane(nodes: Nodes, pins: Pins, idle: set<Id>, names: map<Link, Id>, id: Id)
    requires Sane(nodes, pins, idle, names) && id in nodes
    ensures Sane(nodes[id := LookedUp(nodes[id])], pins, idle - {id}, names)
  {
    SameLinks(nodes, nodes[id := LookedUp(nodes[id])], names);
    LookupCounted(nodes, pins, idle, id);
  }

  lemma ForgetSane(nodes: Nodes, pins: Pins, idle: set<Id>, names: map<Link, Id>, id: Id, count: nat, pins': Pins)
    requires Sane(nodes, pins, idle, names) && id in nodes && pins.owed.None? && id != ROOT_ID
    requires 0 < nodes[id].nlookup && count <= nodes[id].nlookup
    requires pins' == if count == nodes[id].nlookup then pins.Owing(id) else pins
    ensures Sane(nodes[id := Forgotten(nodes[id], count)], pins', idle, names)
    ensures nodes[id := Forgotten(nodes[id], count)].Keys == nodes.Keys
  {
    SameLinks(nodes, nodes[id := Forgotten(nodes[id], count)], names);
    ForgetCountedIff(nodes, pins, idle, id, count, pins');
  }

  /** A request takes a reference of its own. */
  lemma PinSane(nodes: Nodes, pins: Pins, idle: set<Id>, names: map<Link, Id>, id: Id)
    requires Sane(nodes, pins, idle, names) && id in nodes
    ensures Sane(Pinned(nodes, id), pins.(held := pins.held + multiset{id}), idle - {id}, names)
  {
    var nodes', pins' := Pinned(nodes, id), pins.(held := pins.held + multiset{id});
    SameLinks(nodes, nodes', names);
    forall x | x in nodes' ensures nodes'[x].refctr == Refs(nodes', pins', x) {
      assert nodes[x].refctr == Refs(nodes, pins, x);
      SameChildren(nodes, nodes', x);
    }
  }

  function Pinned(nodes: Nodes, id: Id): Nodes
    requires id in nodes
  {
    nodes[id := nodes[id].(refctr := nodes[id].refctr + 1)]
  }

  /** A pin becomes the reference about to be dropped. */
  lemma OwePinSane(nodes: Nodes, pins: Pins, idle: set<Id>, names: map<Link, Id>, id: Id)
    requires Sane(nodes, pins, idle, names) && pins.held[id] > 0 && pins.owed.None?
    ensures Sane(nodes, pins.Released(id).Owing(id), idle, names)
  {
    var pins' := pins.Released(id).Owing(id);
    forall x | x in nodes ensures nodes[x].refctr == Refs(nodes, pins', x) {
      assert nodes[x].refctr == Refs(nodes, pins, x);
    }
  }

  /** Of `n` ids, fewer than `n` nodes leave one free. */
  lemma {:induction false} FreeIdExists(used: set<Id>, n: nat)
    requires |used| < n
    ensures exists id :: 1 <= id <= n && id !in used
  {
    if n in used {
      FreeIdExists(used - {n}, n - 1);
      var id :| 1 <= id <= n - 1 && id !in used - {n};
      assert id !in used;
    }
  }

  const ID_RANGE: nat := 0x1_0000_0000
  const UNKNOWN_INO: nat := 0xffff_ffff

  /** The next time the counter comes to `id`. */
  ghost function NextTick(tick: nat, id: Id): (t: nat)
    requires 0 <= id < ID_RANGE
    ensures tick < t && t % ID_RANGE == id
  {
    if id > tick % ID_RANGE then tick - tick % ID_RANGE + id else tick - tick % ID_RANGE + ID_RANGE + id
  }

  /** An id that `next_id` may hand out. */
  ghost predicate Usable(ids: map<Id, Id>, id: Id) {
    id != 0 && id != UNKNOWN_INO && id !in ids
  }

  ghost predicate IsFree(nodes: Nodes, id: Id) {
    id != 0 && id != UNKNOWN_INO && id !in nodes
  }

  ghost predicate IsFreeAt(nodes: Nodes, tick: nat) {
    IsFree(nodes, tick % ID_RANGE)
  }

  /** Counting on from `tick`, round after round, `tick'` is the first to come to a free id, `id`. */
  ghost predicate NextFree(nodes: Nodes, tick: nat, tick': nat, id: Id) {
    tick < tick' && IsFree(nodes, id) && forall t: nat :: tick < t < tick' ==> !IsFreeAt(nodes, t)
  }

  lemma UsableIsFree(nodes: Nodes, ids: map<Id, Id>, tick: nat, tick': nat, id: Id)
    requires Listed(nodes, ids) && tick < tick' && Usable(ids, id)
    requires forall t :: tick < t < tick' ==> !Usable(ids, t % ID_RANGE)
    ensures NextFree(nodes, tick, tick', id)
  {
    forall t: nat | tick < t < tick' ensures !IsFreeAt(nodes, t) {
      assert !Usable(ids, t % ID_RANGE);
    }
  }

  /** A linked node whose parent something else refers to. */
  predicate HasSpareParent(nodes: Nodes, c: Id) {
    && c in nodes && nodes[c].link.Some?
    && var p := nodes[c].link.value.parent; p in nodes && nodes[p].refctr > 1
  }

  /** The same nodes, but with the given links and one lookup less for those in `given`. */
  ghost predicate Relinked(before: Nodes, after: Nodes, links: map<Id, Option<Link>>, given: set<Id>) {
    && after.Keys == before.Keys
    && forall id {:trigger after[id]} :: id in after ==>
        && after[id].link == (if id in links then links[id] else before[id].link)
        && after[id].nlookup == before[id].nlookup - (if id in given then 1 else 0)
        && after[id].generation == before[id].generation
  }

  /** The node without the lookup that the cache itself holds. */
  function Unremembered(remember: bool, nodes: Nodes, c: Id): Nodes
    requires c in nodes && (remember ==> nodes[c].nlookup > 1)
  {
    if remember then nodes[c := Forgotten(nodes[c], 1)] else nodes
  }

  predicate ParentLookedUp(nodes: Nodes, c: Id) {
    && c in nodes && nodes[c].link.Some?
    && var p := nodes[c].link.value.parent; p in nodes && nodes[p].nlookup > 0
  }

  /** A looked-up parent survives the loss of a child. */
  lemma LookedUpParentIsSpare(nodes: Nodes, pins: Pins, idle: set<Id>, c: Id)
    requires Counted(nodes, pins, idle) && IsLinked(nodes, c)
    requires nodes[c].link.value.parent in nodes && nodes[nodes[c].link.value.parent].nlookup > 0
    ensures HasSpareParent(nodes, c)
  {
    var p := nodes[c].link.value.parent;
    assert nodes[p].refctr == Refs(nodes, pins, p);
    assert IsChild(nodes, c, p) && c in Children(nodes, p);
  }

  predicate LookedUpDir(nodes: Nodes, id: Id) {
    id in nodes && nodes[id].nlookup > 0
  }

  /** What a rename does to links: the node takes the new one, which a node that had it loses. */
  ghost function RenameLinks(names: map<Link, Id>, oldk: Link, newk: Link): map<Id, Option<Link>>
    requires oldk in names
  {
    (if newk in names then map[names[newk] := None] else map[]) + map[names[oldk] := Some(newk)]
  }

  ghost function RenameGiven(remember: bool, names: map<Link, Id>, newk: Link): set<Id> {
    if remember && newk in names then {names[newk]} else {}
  }

  /** The tree after a rename has taken the moved node, and any node in its way, off their links. */
  function Detached(remember: bool, nodes: Nodes, names: map<Link, Id>, oldk: Link, newk: Link): Nodes
    requires oldk in names && names[oldk] in nodes && (newk in names ==> names[newk] in nodes)
    requires remember && newk in names ==> nodes[names[newk]].nlookup > 1
  {
    WithoutLink(Displaced(remember, nodes, names, newk), names[oldk])
  }

  function Displaced(remember: bool, nodes: Nodes, names: map<Link, Id>, newk: Link): (after: Nodes)
    requires newk in names ==> names[newk] in nodes
    requires remember && newk in names ==> nodes[names[newk]].nlookup > 1
    ensures after.Keys == nodes.Keys
  {
    if newk in names then WithoutLink(Unremembered(remember, nodes, names[newk]), names[newk]) else nodes
  }

  /** And after it has hung the node at its new link. */
  function Moved(remember: bool, nodes: Nodes, names: map<Link, Id>, oldk: Link, newk: Link): Nodes
    requires oldk in names && names[oldk] in nodes && (newk in names ==> names[newk] in nodes)
    requires remember && newk in names ==> nodes[names[newk]].nlookup > 1
  {
    var detached := Detached(remember, nodes, names, oldk, newk);
    detached[names[oldk] := detached[names[oldk]].(link := Some(newk))]
  }

  datatype RenameResult = NotFound | Busy | Aborted | Renamed

  /** What a rename asks of the kernel: that a displaced node is still looked up, as the code asserts, and that
      a node does not move below itself, unless both directories are looked up, and never into itself. */
  ghost predicate MayRename(remember: bool, nodes: Nodes, names: map<Link, Id>, oldk: Link, newk: Link) {
    && (remember && newk in names && names[newk] in nodes ==> nodes[names[newk]].nlookup > 1)
    && (oldk in names ==>
          && names[oldk] != newk.parent
          && (|| !IsBelow(Parents(nodes), newk.parent, names[oldk])
              || (LookedUpDir(nodes, oldk.parent) && LookedUpDir(nodes, newk.parent))))
  }

  lemma KeptWithoutLink(a: Nodes, b: Nodes, pins: Pins, c: Id)
    requires Kept(a, b, pins) && c in b
    ensures c in a && Kept(WithoutLink(a, c), WithoutLink(b, c), pins)
  {
  }

  /** A name is free once the node that had it has lost it. */
  lemma DetachedNameFree(nodes: Nodes, names: map<Link, Id>, nodes': Nodes, names': map<Link, Id>, pins: Pins,
                         remember: bool, oldk: Link, newk: Link)
    requires Named(nodes, names) && Named(nodes', names') && oldk in names && names[oldk] in nodes
    requires newk in names ==> names[newk] in nodes
    requires remember && newk in names ==> nodes[names[newk]].nlookup > 1
    requires Kept(Detached(remember, nodes, names, oldk, newk), nodes', pins)
    ensures newk !in names'
  {
    if newk in names' {
      var n := names'[newk];
      assert nodes'[n].link == Some(newk);
      assert n in nodes && nodes[n].link == Some(newk);
      assert IsLinked(nodes, n);
    }
  }

  /** The node to be moved survives the loss of the node in its way, unless its new directory is below it. */
  lemma MovedNodeStays(nodes: Nodes, pins: Pins, names: map<Link, Id>, node: Id, newk: Link, remember: bool,
                       after: Nodes)
    requires Counted(nodes, pins, {}) && pins.owed.None? && ParentsLive(nodes) && Acyclic(Parents(nodes))
    requires Named(nodes, names)
    requires node in nodes && !IsBelow(Parents(nodes), newk.parent, node)
    requires remember && newk in names ==> nodes[names[newk]].nlookup > 1
    requires Kept(Displaced(remember, nodes, names, newk), after, pins)
    requires Counted(after, pins, {}) && ParentsLive(after)
    ensures node in after
  {
    if newk in names {
      var newnode, first := names[newk], Displaced(remember, nodes, names, newk);
      assert nodes[newnode].link == Some(newk);
      LiveIffAnchored(nodes, pins, node);
      var a :| IsAnchored(nodes, pins, a) && IsBelow(Parents(nodes), a, node);
      BelowWithout(Parents(nodes), a, node, newnode);
      assert Parents(first) == Parents(nodes) - {newnode};
      assert IsAnchored(first, pins, a);
      SubForest(Parents(nodes), Parents(first));
      KeptFreesUnused(first, after, pins);
      assert IsUsed(first, pins, node);
    } else {
      LiveIffAnchored(nodes, pins, node);
      KeptFreesUnused(nodes, after, pins);
      assert IsUsed(nodes, pins, node);
    }
  }

  /** And its own loss of its link. */
  lemma UnlinkedNodeStays(nodes: Nodes, pins: Pins, node: Id, after: Nodes)
    requires Counted(nodes, pins, {}) && pins.owed.None? && ParentsLive(nodes) && Acyclic(Parents(nodes))
    requires node in nodes
    requires Kept(WithoutLink(nodes, node), after, pins) && Counted(after, pins, {}) && ParentsLive(after)
    ensures node in after
  {
    LiveIffAnchored(nodes, pins, node);
    var a :| IsAnchored(nodes, pins, a) && IsBelow(Parents(nodes), a, node);
    if node in Parents(nodes) && IsBelow(Parents(nodes), Parents(nodes)[node], node) {
      NotBelowItself(Parents(nodes), node);
    }
    BelowWithout(Parents(nodes), a, node, node);
    assert Parents(WithoutLink(nodes, node)) == Parents(nodes) - {node};
    assert IsAnchored(WithoutLink(nodes, node), pins, a);
    WithoutLinkForest(nodes, node);
    KeptFreesUnused(WithoutLink(nodes, node), after, pins);
    assert IsUsed(WithoutLink(nodes, node), pins, node);
  }

  /** After the node in the way has lost its link, the node to be moved is still there, and nothing is freed between
      directories the kernel has looked up. */
  lemma DisplacedStays(remember: bool, nodes: Nodes, names: map<Link, Id>, oldk: Link, newk: Link, after: Nodes,
                       pins: Pins)
    requires Sane(nodes, pins, {}, names) && pins.owed.None? && Acyclic(Parents(nodes))
    requires oldk in names && MayRename(remember, nodes, names, oldk, newk)
    requires Kept(Displaced(remember, nodes, names, newk), after, pins) && Counted(after, pins, {})
    requires ParentsLive(after)
    requires LookedUpDir(nodes, newk.parent) ==> after.Keys == nodes.Keys
    ensures Acyclic(Parents(after)) && names[oldk] in after
    ensures LookedUpDir(nodes, oldk.parent) && LookedUpDir(nodes, newk.parent) ==>
              after[names[oldk]].link.None? || ParentLookedUp(after, names[oldk])
  {
    var node, first := names[oldk], Displaced(remember, nodes, names, newk);
    assert nodes[node].link == Some(oldk);
    SubForest(Parents(nodes), Parents(first));
    KeptForest(first, after, pins);
    if !IsBelow(Parents(nodes), newk.parent, node) {
      MovedNodeStays(nodes, pins, names, node, newk, remember, after);
    }
    if LookedUpDir(nodes, oldk.parent) && LookedUpDir(nodes, newk.parent) {
      assert after[node].link == first[node].link && after[oldk.parent].nlookup == first[oldk.parent].nlookup;
    }
  }

  ghost predicate DidDetach(remember: bool, nodes: Nodes, names: map<Link, Id>, oldk: Link, newk: Link, after: Nodes,
                            pins: Pins) {
    && Named(nodes, names) && oldk in names && Acyclic(Parents(nodes)) && MayRename(remember, nodes, names, oldk, newk)
    && Kept(Detached(remember, nodes, names, oldk, newk), after, pins)
    && FreesUnused(Detached(remember, nodes, names, oldk, newk), after, pins)
    && (LookedUpDir(nodes, oldk.parent) && LookedUpDir(nodes, newk.parent) ==> after.Keys == nodes.Keys)
  }

  lemma DetachEnds(remember: bool, nodes: Nodes, names: map<Link, Id>, oldk: Link, newk: Link, displaced: Nodes,
                   after: Nodes, names': map<Link, Id>, pins: Pins)
    requires Named(nodes, names) && oldk in names && Acyclic(Parents(nodes))
    requires MayRename(remember, nodes, names, oldk, newk)
    requires Counted(displaced, pins, {}) && pins.owed.None? && ParentsLive(displaced) && Acyclic(Parents(displaced))
    requires names[oldk] in displaced && Kept(Displaced(remember, nodes, names, newk), displaced, pins)
    requires Kept(WithoutLink(displaced, names[oldk]), after, pins) && Counted(after, pins, {}) && ParentsLive(after)
    requires Named(after, names')
    requires LookedUpDir(nodes, oldk.parent) && LookedUpDir(nodes, newk.parent) ==> after.Keys == nodes.Keys
    ensures names[oldk] in after && after[names[oldk]].link.None? && newk !in names'
    ensures DidDetach(remember, nodes, names, oldk, newk, after, pins)
  {
    var node, detached := names[oldk], Detached(remember, nodes, names, oldk, newk);
    UnlinkedNodeStays(displaced, pins, node, after);
    DetachedKept(remember, nodes, names, oldk, newk, displaced, after, pins);
    DetachedNameFree(nodes, names, after, names', pins, remember, oldk, newk);
    KeptFreesUnused(detached, after, pins);
  }

  lemma DetachedKept(remember: bool, nodes: Nodes, names: map<Link, Id>, oldk: Link, newk: Link, displaced: Nodes,
                     after: Nodes, pins: Pins)
    requires Named(nodes, names) && oldk in names && Acyclic(Parents(nodes))
    requires MayRename(remember, nodes, names, oldk, newk)
    requires names[oldk] in displaced && Kept(Displaced(remember, nodes, names, newk), displaced, pins)
    requires Kept(WithoutLink(displaced, names[oldk]), after, pins)
    ensures Kept(Detached(remember, nodes, names, oldk, newk), after, pins)
    ensures Acyclic(Parents(Detached(remember, nodes, names, oldk, newk)))
  {
    var node, detached := names[oldk], Detached(remember, nodes, names, oldk, newk);
    KeptWithoutLink(Displaced(remember, nodes, names, newk), displaced, pins, node);
    KeptComposes(detached, WithoutLink(displaced, node), after, pins);
    SubForest(Parents(nodes), Parents(detached));
  }

  /** What a rename has done when it has not stopped early: it comes back exactly when something still uses the
      new directory without the links it takes away; then the node hangs there, nodes no longer used are freed,
      the tree is one exactly when the move closes no cycle; and between looked-up directories nothing is freed
      and only the two links change. */
  ghost predicate DidRename(remember: bool, nodes: Nodes, names: map<Link, Id>, oldk: Link, newk: Link,
                            r: RenameResult, after: Nodes, pins: Pins) {
    && Named(nodes, names) && oldk in names && MayRename(remember, nodes, names, oldk, newk)
    && (r.Renamed? <==> IsUsed(Detached(remember, nodes, names, oldk, newk), pins, newk.parent))
    && FreesUnused(Detached(remember, nodes, names, oldk, newk), after, pins)
    && (r.Renamed? ==>
          && Kept(Moved(remember, nodes, names, oldk, newk), after, pins)
          && (Acyclic(Parents(after)) <==> !IsBelow(Parents(nodes), newk.parent, names[oldk])))
    && (LookedUpDir(nodes, oldk.parent) && LookedUpDir(nodes, newk.parent) ==>
          r.Renamed? && Relinked(nodes, after, RenameLinks(names, oldk, newk), RenameGiven(remember, names, newk)))
  }

  /** The end of a rename. */
  lemma RenameEnds(remember: bool, nodes: Nodes, names: map<Link, Id>, oldk: Link, newk: Link, detached: Nodes,
                   r: RenameResult,
                   after: Nodes, pins: Pins)
    requires DidDetach(remember, nodes, names, oldk, newk, detached, pins) && names[oldk] in detached
    requires r == if newk.parent in detached then Renamed else Aborted
    requires after == if newk.parent in detached then Hung(detached, names[oldk], newk) else detached
    ensures DidRename(remember, nodes, names, oldk, newk, r, after, pins)
  {
    var before := Detached(remember, nodes, names, oldk, newk);
    assert newk.parent in detached <==> IsUsed(before, pins, newk.parent);
    assert after.Keys == detached.Keys;
    assert FreesUnused(before, after, pins);
    if r.Renamed? {
      HungKept(remember, nodes, names, oldk, newk, detached, pins);
      HungForest(remember, nodes, names, oldk, newk, after, pins);
    }
  }

  lemma HungKept(remember: bool, nodes: Nodes, names: map<Link, Id>, oldk: Link, newk: Link, detached: Nodes,
                 pins: Pins)
    requires Named(nodes, names) && oldk in names && MayRename(remember, nodes, names, oldk, newk)
    requires Kept(Detached(remember, nodes, names, oldk, newk), detached, pins) && names[oldk] in detached
    requires newk.parent in detached
    ensures Kept(Moved(remember, nodes, names, oldk, newk), Hung(detached, names[oldk], newk), pins)
  {
  }

  lemma HungForest(remember: bool, nodes: Nodes, names: map<Link, Id>, oldk: Link, newk: Link, after: Nodes, pins: Pins)
    requires Named(nodes, names) && oldk in names && Acyclic(Parents(nodes))
    requires MayRename(remember, nodes, names, oldk, newk)
    requires Kept(Moved(remember, nodes, names, oldk, newk), after, pins) && names[oldk] in after
    requires LookedUpDir(nodes, oldk.parent) && LookedUpDir(nodes, newk.parent) ==> after.Keys == nodes.Keys
    ensures Acyclic(Parents(after)) <==> !IsBelow(Parents(nodes), newk.parent, names[oldk])
    ensures LookedUpDir(nodes, oldk.parent) && LookedUpDir(nodes, newk.parent) ==>
              Relinked(nodes, after, RenameLinks(names, oldk, newk), RenameGiven(remember, names, newk))
  {
    var node := names[oldk];
    assert after[node].link == Some(newk);
    if LookedUpDir(nodes, oldk.parent) && LookedUpDir(nodes, newk.parent) {
      MovedRelinked(remember, nodes, names, oldk, newk, after, pins);
    }
    if IsBelow(Parents(nodes), newk.parent, node) {
      MoveClosesCycle(nodes, after, names, oldk, newk, RenameGiven(remember, names, newk));
    } else {
      MoveForest(nodes, after, node, newk);
    }
  }

  /** The root, a directory 2 that only its child keeps alive, and the child. */
  function LeanTree(): Nodes {
    map[ROOT_ID := Node(None, 2, 1, 0), 2 := Node(Some(Link(ROOT_ID, "d")), 1, 0, 0),
        3 := Node(Some(Link(2, "a")), 1, 1, 0)]
  }

  function LeanNames(): map<Link, Id> {
    map[Link(ROOT_ID, "d") := 2, Link(2, "a") := 3]
  }

  lemma LeanTreeSane()
    ensures Sane(LeanTree(), Pins(multiset{}, None), {}, LeanNames())
  {
    var nodes := LeanTree();
    assert IsChild(nodes, 2, ROOT_ID) && IsChild(nodes, 3, 2);
    assert Children(nodes, ROOT_ID) == {2} && Children(nodes, 2) == {3} && Children(nodes, 3) == {};
    assert IsLinked(nodes, 2) && IsLinked(nodes, 3) && forall x :: IsLinked(nodes, x) ==> x == 2 || x == 3;
  }

  lemma LeanTreeMayRename()
    ensures MayRename(false, LeanTree(), LeanNames(), Link(2, "a"), Link(2, "b"))
  {
    assert Parents(LeanTree()) == map[2 := ROOT_ID, 3 := 2];
    assert Link(2, "b") !in LeanNames();
    BelowStep(Parents(LeanTree()), 2, 3);
    BelowTop(Parents(LeanTree()), ROOT_ID, 3);
  }

  /** A rename can free the directory it is about to use: one that only its child keeps alive, when that child
      is renamed inside it. */
  lemma RenameFreesItsDirectory()
    ensures exists nodes: Nodes, names: map<Link, Id>, pins: Pins ::
              && Sane(nodes, pins, {}, names) && pins.owed.None? && Link(2, "a") in names
              && MayRename(false, nodes, names, Link(2, "a"), Link(2, "b"))
              && !IsUsed(Detached(false, nodes, names, Link(2, "a"), Link(2, "b")), pins, 2)
  {
    LeanTreeSane();
    LeanTreeMayRename();
    var pins := Pins(multiset{}, None);
    var detached := Detached(false, LeanTree(), LeanNames(), Link(2, "a"), Link(2, "b"));
    assert Parents(detached) == map[2 := ROOT_ID];
    forall a ensures !(IsAnchored(detached, pins, a) && IsBelow(Parents(detached), a, 2)) {
      if IsAnchored(detached, pins, a) {
        BelowTop(Parents(detached), a, 2);
      }
    }
  }

  /** When nothing is freed, only the two links have changed. */
  lemma MovedRelinked(remember: bool, nodes: Nodes, names: map<Link, Id>, oldk: Link, newk: Link, after: Nodes,
                      pins: Pins)
    requires Named(nodes, names) && oldk in names && MayRename(remember, nodes, names, oldk, newk)
    requires Kept(Moved(remember, nodes, names, oldk, newk), after, pins) && after.Keys == nodes.Keys
    ensures Relinked(nodes, after, RenameLinks(names, oldk, newk), RenameGiven(remember, names, newk))
  {
  }

  /** No forest has a node whose parent is below it. */
  lemma NotBelowItself(parents: map<Id, Id>, c: Id)
    requires Acyclic(parents) && c in parents
    ensures !IsBelow(parents, parents[c], c)
  {
    var rank: Id -> nat :| Ranks(parents, rank);
    if IsBelow(parents, parents[c], c) {
      var n: nat :| Climb(parents, parents[c], n) == Some(c);
      ClimbLowersRank(parents, rank, parents[c], n);
    }
  }

  lemma KeptForest(before: Nodes, after: Nodes, pins: Pins)
    requires Kept(before, after, pins) && Acyclic(Parents(before))
    ensures Acyclic(Parents(after))
  {
    SubForest(Parents(before), Parents(after));
  }

  lemma WithoutLinkForest(nodes: Nodes, c: Id)
    requires c in nodes && Acyclic(Parents(nodes))
    ensures Acyclic(Parents(WithoutLink(nodes, c)))
  {
    SubForest(Parents(nodes), Parents(WithoutLink(nodes, c)));
  }

  /** Moving a node below a directory that is not below it keeps the tree a tree. */
  lemma MoveForest(before: Nodes, after: Nodes, node: Id, k: Link)
    requires Acyclic(Parents(before)) && !IsBelow(Parents(before), k.parent, node)
    requires node in after && after[node].link == Some(k)
    requires forall c ::
               c in after && c != node && after[c].link.Some? ==> c in before && before[c].link == after[c].link
    ensures Acyclic(Parents(after))
  {
    var loose := Parents(after) - {node};
    forall c | c in loose ensures c in Parents(before) && loose[c] == Parents(before)[c] {
      assert after[c].link.Some?;
    }
    SubForest(Parents(before), loose);
    BelowInFewer(Parents(before), loose, k.parent, node);
    AttachAcyclicIff(loose, node, k.parent);
    assert Parents(after) == loose[node := k.parent];
  }

  /** The parents without those of the node to be moved and of the node in its way. */
  ghost function Loose(parents: map<Id, Id>, names: map<Link, Id>, oldk: Link, newk: Link): map<Id, Id>
    requires oldk in names
  {
    (if newk in names then parents - {names[newk]} else parents) - {names[oldk]}
  }

  lemma StillBelow(before: Nodes, names: map<Link, Id>, oldk: Link, newk: Link)
    requires Acyclic(Parents(before)) && Named(before, names) && oldk in names
    requires IsBelow(Parents(before), newk.parent, names[oldk])
    ensures IsBelow(Loose(Parents(before), names, oldk, newk), newk.parent, names[oldk])
    ensures Acyclic(Loose(Parents(before), names, oldk, newk))
  {
    var node, parents := names[oldk], Parents(before);
    var displaced := if newk in names then parents - {names[newk]} else parents;
    if newk in names {
      assert before[names[newk]].link == Some(newk);
      ParentBelowWithout(parents, names[newk], node);
    }
    SubForest(parents, displaced);
    if node in displaced {
      NotBelowItself(displaced, node);
    }
    BelowWithout(displaced, newk.parent, node, node);
    SubForest(parents, Loose(parents, names, oldk, newk));
  }

  lemma ParentsMoved(before: Nodes, after: Nodes, names: map<Link, Id>, oldk: Link, newk: Link, given: set<Id>)
    requires Named(before, names) && oldk in names
    requires Relinked(before, after, RenameLinks(names, oldk, newk), given)
    ensures Parents(after) == Loose(Parents(before), names, oldk, newk)[names[oldk] := newk.parent]
  {
    var links := RenameLinks(names, oldk, newk);
    assert before[names[oldk]].link == Some(oldk);
    assert forall c <- after :: after[c].link == if c in links then links[c] else before[c].link;
  }

  /** Moving it below one that is below it does not. */
  lemma MoveClosesCycle(before: Nodes, after: Nodes, names: map<Link, Id>, oldk: Link, newk: Link, given: set<Id>)
    requires Acyclic(Parents(before)) && Named(before, names) && oldk in names
    requires Relinked(before, after, RenameLinks(names, oldk, newk), given)
    requires IsBelow(Parents(before), newk.parent, names[oldk])
    ensures !Acyclic(Parents(after))
  {
    StillBelow(before, names, oldk, newk);
    ParentsMoved(before, after, names, oldk, newk, given);
    AttachAcyclicIff(Loose(Parents(before), names, oldk, newk), names[oldk], newk.parent);
  }

  /** A new leaf cannot close a cycle. */
  lemma LeafForest(nodes: Nodes, n: Node, c: Id, k: Link)
    requires Acyclic(Parents(nodes)) && ParentsLive(nodes) && c !in nodes && k.parent in nodes
    ensures Acyclic(Parents(Added(nodes, c, n, k)))
  {
    assert Parents(Added(nodes, c, n, k)) == Parents(nodes)[c := k.parent];
    forall x | x in Parents(nodes) ensures Parents(nodes)[x] != c {
      assert IsLinked(nodes, x);
    }
    AttachLeaf(Parents(nodes), c, k.parent);
  }

  lemma LookedUpForest(nodes: Nodes, id: Id)
    requires id in nodes && Acyclic(Parents(nodes))
    ensures Acyclic(Parents(nodes[id := LookedUp(nodes[id])]))
  {
    assert Parents(nodes[id := LookedUp(nodes[id])]) == Parents(nodes);
  }

  lemma ForgottenForest(nodes: Nodes, id: Id, count: nat, after: Nodes, pins: Pins)
    requires id in nodes && count <= nodes[id].nlookup && Acyclic(Parents(nodes))
    requires Kept(nodes[id := Forgotten(nodes[id], count)], after, pins)
    ensures Acyclic(Parents(after))
  {
    assert Parents(nodes[id := Forgotten(nodes[id], count)]) == Parents(nodes);
    KeptForest(nodes[id := Forgotten(nodes[id], count)], after, pins);
  }

  lemma ForgottenFrees(nodes: Nodes, id: Id, count: nat, after: Nodes, pins: Pins)
    requires id in nodes && count <= nodes[id].nlookup && Acyclic(Parents(nodes))
    requires Kept(nodes[id := Forgotten(nodes[id], count)], after, pins)
    requires Counted(after, pins, {}) && pins.owed.None? && ParentsLive(after)
    ensures Acyclic(Parents(after)) && FreesUnused(nodes[id := Forgotten(nodes[id], count)], after, pins)
  {
    ForgottenForest(nodes, id, count, after, pins);
    assert Parents(nodes[id := Forgotten(nodes[id], count)]) == Parents(nodes);
    KeptFreesUnused(nodes[id := Forgotten(nodes[id], count)], after, pins);
  }

  lemma LoneRoot(nodes: Nodes, pins: Pins)
    requires nodes == map[ROOT_ID := Node(None, 1, 1, 0)] && pins == Pins(multiset{}, None)
    ensures Counted(nodes, pins, {}) && ParentsLive(nodes) && Named(nodes, map[]) && Acyclic(Parents(nodes))
  {
    assert forall id :: Children(nodes, id) == {};
    assert Ranks(Parents(nodes), x => 0);
  }

  lemma RemovedFrees(remember: bool, nodes: Nodes, c: Id, after: Nodes, pins: Pins)
    requires c in nodes && (remember ==> nodes[c].nlookup > 1) && Acyclic(Parents(nodes))
    requires Kept(WithoutLink(Unremembered(remember, nodes, c), c), after, pins)
    requires Counted(after, pins, {}) && pins.owed.None? && ParentsLive(after)
    ensures Acyclic(Parents(after)) && FreesUnused(WithoutLink(Unremembered(remember, nodes, c), c), after, pins)
  {
    RemovedForest(remember, nodes, c, after, pins);
    assert Parents(Unremembered(remember, nodes, c)) == Parents(nodes);
    WithoutLinkForest(Unremembered(remember, nodes, c), c);
    KeptFreesUnused(WithoutLink(Unremembered(remember, nodes, c), c), after, pins);
  }

  /** A live node is referred to by something. */
  lemma LiveHasRef(nodes: Nodes, pins: Pins, id: Id)
    requires Counted(nodes, pins, {}) && id in nodes
    ensures nodes[id].refctr > 0
  {
  }

  /** Dropping a reference nobody held leaves a wrong count. */
  lemma DropMiscounts(nodes: Nodes, pins: Pins, idle: set<Id>, id: Id)
    requires Counted(nodes, pins, idle) && id in nodes && nodes[id].refctr > 0
    ensures !Counted(Dropped(nodes, id), pins, idle)
  {
    assert nodes[id].refctr == Refs(nodes, pins, id);
    SameChildren(nodes, Dropped(nodes, id), id);
    assert Dropped(nodes, id)[id].refctr != Refs(Dropped(nodes, id), pins, id);
  }

  lemma RemovedForest(remember: bool, nodes: Nodes, c: Id, after: Nodes, pins: Pins)
    requires c in nodes && (remember ==> nodes[c].nlookup > 1) && Acyclic(Parents(nodes))
    requires Kept(WithoutLink(Unremembered(remember, nodes, c), c), after, pins)
    ensures Acyclic(Parents(after))
  {
    assert Parents(Unremembered(remember, nodes, c)) == Parents(nodes);
    WithoutLinkForest(Unremembered(remember, nodes, c), c);
    KeptForest(WithoutLink(Unremembered(remember, nodes, c), c), after, pins);
  }

  /** Something outside the tree refers to the node: the kernel or a pin. */
  ghost predicate IsAnchored(nodes: Nodes, pins: Pins, id: Id) {
    id in nodes && (nodes[id].nlookup > 0 || pins.held[id] > 0)
  }

  ghost function Ranked(nodes: Nodes, rank: Id -> nat, above: nat): set<Id> {
    set c | c in nodes && rank(c) > above
  }

  /** Every live node has an anchored node at or below it: none outlives its last use. */
  lemma {:induction false} LiveIsAnchored(nodes: Nodes, pins: Pins, rank: Id -> nat, id: Id) returns (a: Id)
    requires Counted(nodes, pins, {}) && pins.owed.None? && Ranks(Parents(nodes), rank) && id in nodes
    ensures IsAnchored(nodes, pins, a) && IsBelow(Parents(nodes), a, id)
    decreases |Ranked(nodes, rank, rank(id))|
  {
    assert nodes[id].refctr == Refs(nodes, pins, id);
    if IsAnchored(nodes, pins, id) {
      a := id;
      assert Climb(Parents(nodes), id, 0) == Some(id);
    } else {
      var c :| c in Children(nodes, id);
      assert IsChild(nodes, c, id);
      assert c in Parents(nodes) && Parents(nodes)[c] == id;
      FewerRanked(nodes, rank, id, c);
      a := LiveIsAnchored(nodes, pins, rank, c);
      BelowParent(Parents(nodes), a, c);
    }
  }

  lemma {:induction false} ClimbStaysLive(nodes: Nodes, x: Id, n: nat)
    requires ParentsLive(nodes) && x in nodes && Climb(Parents(nodes), x, n).Some?
    ensures Climb(Parents(nodes), x, n).value in nodes
    decreases n
  {
    if n > 0 {
      assert IsLinked(nodes, x);
      ClimbStaysLive(nodes, Parents(nodes)[x], n - 1);
    }
  }

  /** A node is live exactly as long as the kernel or a request still uses it or a node below it. */
  lemma LiveIffAnchored(nodes: Nodes, pins: Pins, id: Id)
    requires Counted(nodes, pins, {}) && pins.owed.None? && ParentsLive(nodes) && Acyclic(Parents(nodes))
    ensures id in nodes <==> IsUsed(nodes, pins, id)
  {
    if id in nodes {
      var rank: Id -> nat :| Ranks(Parents(nodes), rank);
      var a := LiveIsAnchored(nodes, pins, rank, id);
    } else if a :| IsAnchored(nodes, pins, a) && IsBelow(Parents(nodes), a, id) {
      var n: nat :| Climb(Parents(nodes), a, n) == Some(id);
      ClimbStaysLive(nodes, a, n);
    }
  }

  /** The kernel or a request still uses the node, or one below it. */
  ghost predicate IsUsed(nodes: Nodes, pins: Pins, id: Id) {
    exists a :: IsAnchored(nodes, pins, a) && IsBelow(Parents(nodes), a, id)
  }

  /** What a step frees: exactly the nodes that nothing uses any more. */
  ghost predicate FreesUnused(before: Nodes, after: Nodes, pins: Pins) {
    forall id {:trigger IsUsed(before, pins, id)} :: id in after <==> IsUsed(before, pins, id)
  }

  lemma {:induction false} ClimbAmongKept(before: Nodes, after: Nodes, pins: Pins, x: Id, n: nat)
    requires Kept(before, after, pins) && ParentsLive(after) && x in after && Climb(Parents(before), x, n).Some?
    ensures Climb(Parents(before), x, n).value in after
    decreases n
  {
    if n > 0 {
      assert after[x].link == before[x].link;
      assert IsLinked(after, x);
      ClimbAmongKept(before, after, pins, Parents(before)[x], n - 1);
    }
  }

  lemma KeptFreesUnused(before: Nodes, after: Nodes, pins: Pins)
    requires Kept(before, after, pins) && Acyclic(Parents(before))
    requires Counted(after, pins, {}) && pins.owed.None? && ParentsLive(after)
    ensures FreesUnused(before, after, pins)
  {
    KeptForest(before, after, pins);
    forall id ensures id in after <==> IsUsed(before, pins, id) {
      if id in after {
        LiveIffAnchored(after, pins, id);
        var a :| IsAnchored(after, pins, a) && IsBelow(Parents(after), a, id);
        assert after[a].nlookup == before[a].nlookup;
        BelowInFewer(Parents(before), Parents(after), a, id);
        assert IsAnchored(before, pins, a);
      }
      if IsUsed(before, pins, id) {
        var a :| IsAnchored(before, pins, a) && IsBelow(Parents(before), a, id);
        var n: nat :| Climb(Parents(before), a, n) == Some(id);
        ClimbAmongKept(before, after, pins, a, n);
      }
    }
  }

  lemma FewerRanked(nodes: Nodes, rank: Id -> nat, id: Id, c: Id)
    requires c in nodes && rank(c) > rank(id)
    ensures |Ranked(nodes, rank, rank(c))| < |Ranked(nodes, rank, rank(id))|
  {
    assert c in Ranked(nodes, rank, rank(id)) && c !in Ranked(nodes, rank, rank(c));
    assert Ranked(nodes, rank, rank(c)) <= Ranked(nodes, rank, rank(id)) - {c};
    FewerElements(Ranked(nodes, rank, rank(c)), Ranked(nodes, rank, rank(id)) - {c});
  }

  lemma FewerElements(a: set<Id>, b: set<Id>)
    requires a <= b
    ensures |a| <= |b|
  {
    assert b == a + (b - a);
  }
}
