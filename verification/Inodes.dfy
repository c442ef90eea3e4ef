/** The inode cache of fuse-3/lib/fuse.c: its two tables, its tree and its reference counts. */
module Inodes {
  import opened Options
  import opened Forest
  import opened NodeTable
  import opened NodeTree

  class InodeTree {
    const remember: bool
    const names: Table<Link, Id>
    const ids: Table<Id, Id>
    var nodes: Nodes
    var ctr: nat
    var generation: nat
    ghost var pins: Pins
    ghost var idle: set<Id>

    ghost predicate Tables() reads this, names, ids {
      names.Valid() && ids.Valid() && names as object != ids as object
    }

    ghost predicate Valid() reads this, names, ids {
      Tables() && Sane(nodes, pins, idle, names.nodes) && Listed(nodes, ids.nodes)
    }

    /** No count is zero, nothing is owed, nothing is left to settle. */
    ghost predicate AtRest() reads this, names, ids {
      && Valid() && idle == {} && pins.owed.None? && names.pending == 0 && ids.pending == 0
      && ctr < ID_RANGE
    }

    /** Between requests: that, and the tree is one. */
    ghost predicate Settled() reads this, names, ids {
      AtRest() && Acyclic(Parents(nodes))
    }

    /** A node is live exactly as long as the kernel or a request uses it, or one below it. */
    lemma LiveIffUsed()
      requires Settled()
      ensures forall id :: id in nodes <==> IsUsed(nodes, pins, id)
    {
      forall id ensures id in nodes <==> IsUsed(nodes, pins, id) {
        LiveIffAnchored(nodes, pins, id);
      }
    }

    /** Generation and id together: no pair is handed out twice. */
    ghost function Tick(): nat reads this {
      generation * ID_RANGE + ctr
    }

    /** The counter moved on to the first usable id after the last one given out; nothing was given out if `id`
        was already there. */
    twostate predicate Ticked(id: Id)
      reads this
    {
      if id in old(nodes) then ctr == old(ctr) && generation == old(generation)
      else id == ctr && NextFree(old(nodes), old(Tick()), Tick(), id)
    }

    /** The tables are empty but for the root, which starts looked up. */
    constructor (remember: bool)
      ensures Settled() && pins == Pins(multiset{}, None) && fresh(names) && fresh(ids)
      ensures nodes == map[ROOT_ID := Node(None, 1, 1, 0)] && names.nodes == map[] && ctr == 0 && generation == 0
      ensures this.remember == remember
    {
      this.remember := remember;
      var byName := new Table<Link, Id>(RawName);
      var byId := new Table<Id, Id>(RawId);
      byId.Insert(ROOT_ID, ROOT_ID);
      names, ids := byName, byId;
      nodes := map[ROOT_ID := LookedUp(Node(None, 0, 0, 0))];
      ctr, generation := 0, 0;
      pins, idle := Pins(multiset{}, None), {};
      new;
      LoneRoot(nodes, pins);
    }

    /** `unref_node`; the reference dropped is one of the caller's pins. */
    method UnrefNode(id: Id)
      requires Valid() && pins.owed == Some(id)
      modifies this`nodes, this`pins, this`idle, names, ids
      ensures Valid() && pins == old(pins).Paid() && idle == old(idle)
      ensures Kept(old(nodes), nodes, pins)
      ensures id in old(nodes) && old(nodes[id].refctr) > 1 ==> nodes.Keys == old(nodes.Keys)
      ensures names.pending == old(names.pending) && ids.pending == old(ids.pending)
      decreases |nodes.Keys - idle|, 0
    {
      Drop(id);
      if nodes[id].refctr == 0 {
        FewerLeft(nodes.Keys, old(idle), id);
        ghost var dropped := nodes;
        DeleteNode(id);
        KeptComposes(old(nodes), dropped, nodes, pins);
      }
    }

    /** The count goes down; a node it leaves at zero is idle until it is deleted. */
    method Drop(id: Id)
      requires Valid() && pins.owed == Some(id)
      modifies this`nodes, this`pins, this`idle
      ensures Valid() && pins == old(pins).Paid()
      ensures id in old(nodes) && old(nodes[id].refctr) > 0 && id !in old(idle)
      ensures nodes == Dropped(old(nodes), id) && Kept(old(nodes), nodes, pins)
      ensures idle == if old(nodes[id].refctr) == 1 then old(idle) + {id} else old(idle)
    {
      DropSane(nodes, pins, idle, names.nodes, id);
      idle := if nodes[id].refctr == 1 then idle + {id} else idle;
      pins := pins.Paid();
      nodes := Dropped(nodes, id);
    }

    /** `delete_node`. */
    method DeleteNode(id: Id)
      requires Valid() && pins.owed.None? && id in idle
      modifies this`nodes, this`pins, this`idle, names, ids
      ensures Valid() && pins == old(pins) && idle == old(idle) - {id} && id !in nodes
      ensures Kept(old(nodes), nodes, pins)
      ensures names.pending == old(names.pending) && ids.pending == old(ids.pending)
      decreases |nodes.Keys - idle|, 3
    {
      UnhashName(id);
      ghost var unhashed := nodes;
      Free(id);
      DeletedKept(old(nodes), unhashed, nodes, pins, id);
    }

    /** `unhash_id` and `free_node`. */
    method Free(id: Id)
      requires Valid() && id in idle && id in nodes && nodes[id].link.None?
      modifies this`nodes, this`idle, ids
      ensures Valid() && nodes == old(nodes) - {id} && idle == old(idle) - {id}
      ensures Kept(old(nodes), nodes, pins)
      ensures ids.pending == old(ids.pending)
    {
      FreeSane(nodes, pins, idle, names.nodes, id);
      var found := ids.Delete(id, id);
      nodes := nodes - {id};
      idle := idle - {id};
    }

    /** `unhash_name`. The link to the parent is cleared before the reference to it is dropped. */
    method UnhashName(c: Id)
      requires Valid() && pins.owed.None? && c in nodes
      modifies this`nodes, this`pins, this`idle, names, ids
      ensures Valid() && pins == old(pins) && idle == old(idle)
      ensures Kept(WithoutLink(old(nodes), c), nodes, pins)
      ensures old(nodes[c].link.None? || ParentLookedUp(nodes, c)) ==> nodes.Keys == old(nodes.Keys)
      ensures names.pending == old(names.pending) && ids.pending == old(ids.pending)
      decreases |nodes.Keys - idle|, 2
    {
      if nodes[c].link.Some? {
        UnhashLinked(c, nodes[c].link.value);
      }
    }

    method UnhashLinked(c: Id, k: Link)
      requires Valid() && pins.owed.None? && c in nodes && nodes[c].link == Some(k)
      modifies this`nodes, this`pins, this`idle, names, ids
      ensures Valid() && pins == old(pins) && idle == old(idle)
      ensures Kept(WithoutLink(old(nodes), c), nodes, pins)
      ensures old(ParentLookedUp(nodes, c)) ==> nodes.Keys == old(nodes.Keys)
      ensures names.pending == old(names.pending) && ids.pending == old(ids.pending)
      decreases |nodes.Keys - idle|, 1
    {
      if ParentLookedUp(nodes, c) {
        LookedUpParentIsSpare(nodes, pins, idle, c);
      }
      Unlink(c, k);
      UnrefNode(k.parent);
      SettleName();
    }

    method SettleName()
      requires Valid() && names.pending > 0
      modifies names
      ensures Valid() && names.pending == old(names.pending) - 1 && ids.pending == old(ids.pending)
    {
      names.Settle();
    }

    method Unlink(c: Id, k: Link)
      requires Valid() && pins.owed.None? && c in nodes && nodes[c].link == Some(k)
      modifies this`nodes, this`pins, names
      ensures Valid() && pins == old(pins).Owing(k.parent) && nodes == WithoutLink(old(nodes), c)
      ensures names.pending == old(names.pending) + 1 && nodes.Keys == old(nodes.Keys)
      ensures k.parent in nodes && (old(HasSpareParent(nodes, c)) ==> nodes[k.parent].refctr > 1)
    {
      UnlinkSane(nodes, pins, idle, names.nodes, c);
      var found := names.Detach(k, c);
      nodes := WithoutLink(nodes, c);
      pins := pins.Owing(k.parent);
    }

    /** `next_id`: the first usable id after the last one given out, counting round. */
    method NextId() returns (id: Id)
      requires ids.Valid() && ctr < ID_RANGE && |ids.nodes| < ID_RANGE - 2
      modifies this`ctr, this`generation
      ensures id == ctr < ID_RANGE && Usable(ids.nodes, id)
      ensures Tick() > old(Tick())
      ensures forall t :: old(Tick()) < t < Tick() ==> !Usable(ids.nodes, t % ID_RANGE)
    {
      FreeIdExists(ids.nodes.Keys, ID_RANGE - 2);
      ghost var free :| 1 <= free <= ID_RANGE - 2 && free !in ids.nodes.Keys;
      ghost var start := Tick();
      ghost var goal := NextTick(start, free);
      var found := false;
      while !found
        invariant ctr < ID_RANGE && start <= Tick() && (!found ==> Tick() < goal)
        invariant found ==> start < Tick() && Usable(ids.nodes, ctr)
        invariant forall t :: start < t < (if found then Tick() else Tick() + 1) ==> !Usable(ids.nodes, t % ID_RANGE)
        decreases !found, goal - Tick()
      {
        Advance();
        var other := ids.Lookup(ctr);
        found := !(ctr == 0 || ctr == UNKNOWN_INO || other.Some?);
        assert Tick() == goal ==> ctr == free;
      }
      id := ctr;
    }

    method Advance()
      requires ctr < ID_RANGE
      modifies this`ctr, this`generation
      ensures ctr < ID_RANGE && Tick() == old(Tick()) + 1 && Tick() % ID_RANGE == ctr
    {
      ctr := (ctr + 1) % ID_RANGE;
      if ctr == 0 {
        generation := generation + 1;
      }
    }

    /** The counts and the name table are right; the id table may lag behind. */
    ghost predicate Sound() reads this, names, ids {
      Tables() && Sane(nodes, pins, idle, names.nodes)
    }

    /** `hash_name`. */
    method HashName(c: Id, k: Link)
      requires Sound() && c in nodes && nodes[c].link.None? && c != ROOT_ID
      requires k.parent in nodes && k.parent != c && k !in names.nodes
      modifies this`nodes, this`idle, names
      ensures Sound() && nodes == Hung(old(nodes), c, k) && idle == old(idle) - {k.parent}
      ensures nodes.Keys == old(nodes.Keys)
      ensures names.nodes == old(names.nodes)[k := c] && names.pending == old(names.pending)
      ensures unchanged(ids)
    {
      LinkSane(nodes, pins, idle, names.nodes, c, k);
      nodes := Hung(nodes, c, k);
      idle := idle - {k.parent};
      names.Insert(k, c);
    }

    /** `inc_nlookup`. */
    method IncNlookup(id: Id)
      requires Sound() && id in nodes
      modifies this`nodes, this`idle
      ensures Sound() && nodes == old(nodes)[id := LookedUp(old(nodes)[id])] && idle == old(idle) - {id}
      ensures nodes.Keys == old(nodes.Keys)
    {
      LookupSane(nodes, pins, idle, names.nodes, id);
      nodes := nodes[id := LookedUp(nodes[id])];
      idle := idle - {id};
    }

    /** The node is allocated, and not in any table yet. */
    method Alloc(id: Id)
      requires AtRest() && id !in nodes
      modifies this`nodes, this`idle
      ensures Sound() && ListedBut(nodes, ids.nodes, id) && idle <= {id}
      ensures nodes == old(nodes)[id := NewNode(remember, generation)]
    {
      AllocBlank(id);
      if remember {
        IncNlookup(id);
        UpdatedTwice(old(nodes), id, Node(None, 0, 0, generation), NewNode(remember, generation));
      }
    }

    method AllocBlank(id: Id)
      requires AtRest() && id !in nodes
      modifies this`nodes, this`idle
      ensures Sound() && ListedBut(nodes, ids.nodes, id) && idle == {id}
      ensures nodes == old(nodes)[id := Node(None, 0, 0, generation)]
    {
      NewSane(nodes, pins, idle, names.nodes, id, generation);
      nodes := nodes[id := Node(None, 0, 0, generation)];
      idle := idle + {id};
    }

    /** `hash_id`. */
    method HashId(id: Id)
      requires Sound() && ListedBut(nodes, ids.nodes, id)
      modifies ids
      ensures Valid() && ids.pending == old(ids.pending)
    {
      ids.Insert(id, id);
    }

    /** The part of `find_node` that adds a node; the caller's lookup comes after it. */
    method AddNode(id: Id, k: Link)
      requires AtRest() && id !in nodes && id != ROOT_ID && k.parent in nodes && k !in names.nodes
      modifies this`nodes, this`idle, names, ids
      ensures Valid() && idle <= {id} && names.pending == ids.pending == 0
      ensures nodes == Added(old(nodes), id, NewNode(remember, generation), k)
    {
      Alloc(id);
      HashName(id, k);
      assert nodes == Added(old(nodes), id, NewNode(remember, generation), k);
      HashId(id);
    }

    /** `find_node`. */
    method FindNode(parent: Id, name: Option<string>) returns (id: Id)
      requires Settled() && parent in nodes && |nodes| < ID_RANGE - 2
      modifies this`nodes, this`idle, this`ctr, this`generation, names, ids
      ensures Settled() && Ticked(id)
      ensures name.None? ==> id == parent
      ensures name.Some? && Link(parent, name.value) in old(names.nodes) ==>
                id == old(names.nodes)[Link(parent, name.value)]
      ensures name.None? || Link(parent, name.value) in old(names.nodes) ==>
                id in old(nodes) && nodes == old(nodes)[id := LookedUp(old(nodes)[id])]
      ensures name.Some? && Link(parent, name.value) !in old(names.nodes) ==>
                id !in old(nodes) &&
                nodes == Added(old(nodes), id, LookedUp(NewNode(remember, generation)), Link(parent, name.value))
    {
      if name.None? {
        id := parent;
        CallerLookup(id);
      } else {
        id := FindNamed(parent, name.value);
      }
      if id in old(nodes) {
        LookedUpForest(old(nodes), id);
      } else {
        LeafForest(old(nodes), LookedUp(NewNode(remember, generation)), id, Link(parent, name.value));
      }
    }

    method FindNamed(parent: Id, name: string) returns (id: Id)
      requires AtRest() && parent in nodes && |nodes| < ID_RANGE - 2
      modifies this`nodes, this`idle, this`ctr, this`generation, names, ids
      ensures AtRest() && Ticked(id)
      ensures Link(parent, name) in old(names.nodes) ==>
                && id == old(names.nodes)[Link(parent, name)] && id in old(nodes)
                && nodes == old(nodes)[id := LookedUp(old(nodes)[id])]
      ensures Link(parent, name) !in old(names.nodes) ==>
                id !in old(nodes) &&
                nodes == Added(old(nodes), id, LookedUp(NewNode(remember, generation)), Link(parent, name))
    {
      var found := names.Lookup(Link(parent, name));
      if found.Some? {
        id := found.value;
        CallerLookup(id);
      } else {
        id := AddNamed(Link(parent, name));
      }
    }

    method AddNamed(k: Link) returns (id: Id)
      requires AtRest() && k.parent in nodes && k !in names.nodes && |nodes| < ID_RANGE - 2
      modifies this`nodes, this`idle, this`ctr, this`generation, names, ids
      ensures AtRest() && id !in old(nodes) && Ticked(id)
      ensures nodes == Added(old(nodes), id, LookedUp(NewNode(remember, generation)), k)
    {
      SizeOfListed(nodes, ids.nodes);
      id := NextId();
      UsableIsFree(nodes, ids.nodes, old(Tick()), Tick(), id);
      AddNode(id, k);
      AddedThenLookedUp(old(nodes), id, NewNode(remember, generation), k);
      CallerLookup(id);
    }

    method CallerLookup(id: Id)
      requires Valid() && id in nodes && idle <= {id} && pins.owed.None? && names.pending == ids.pending == 0
      requires ctr < ID_RANGE
      modifies this`nodes, this`idle
      ensures AtRest() && nodes == old(nodes)[id := LookedUp(old(nodes)[id])]
    {
      IncNlookup(id);
    }

    /** `forget_node`, once no request has the node locked. The counts stay right exactly when there was a
        lookup to give back; what the code does after it has got one wrong is not followed further. */
    method ForgetNode(id: Id, count: nat) returns (sound: bool)
      requires Settled() && id in nodes && count <= nodes[id].nlookup
      modifies this`nodes, this`pins, this`idle, names, ids
      ensures sound <==> old(nodes[id].nlookup) > 0
      ensures pins == old(pins)
      ensures !sound ==> nodes == Dropped(old(nodes), id) && !Counted(nodes, pins, idle)
      ensures sound ==> Settled()
      ensures id == ROOT_ID ==> nodes == old(nodes)
      ensures sound && id != ROOT_ID ==>
                var given := old(nodes)[id := Forgotten(old(nodes)[id], count)];
                && Kept(given, nodes, pins) && FreesUnused(given, nodes, pins)
                && (count < old(nodes[id].nlookup) ==> nodes == given)
    {
      sound := true;
      if id == ROOT_ID {
        return;
      }
      if nodes[id].nlookup > 0 {
        Forget(id, count);
        ForgottenFrees(old(nodes), id, count, nodes, pins);
      } else {
        sound := false;
        Misforget(id);
      }
    }

    /** The reference that is dropped was not the kernel's. */
    method Misforget(id: Id)
      requires AtRest() && id in nodes
      modifies this`nodes
      ensures id in old(nodes) && old(nodes[id].refctr) > 0 && nodes == Dropped(old(nodes), id)
      ensures !Counted(nodes, pins, idle)
    {
      LiveHasRef(nodes, pins, id);
      DropMiscounts(nodes, pins, idle, id);
      nodes := Dropped(nodes, id);
    }

    method Forget(id: Id, count: nat)
      requires AtRest() && id in nodes && 0 < nodes[id].nlookup && count <= nodes[id].nlookup && id != ROOT_ID
      modifies this`nodes, this`pins, this`idle, names, ids
      ensures AtRest() && pins == old(pins)
      ensures Kept(old(nodes)[id := Forgotten(old(nodes)[id], count)], nodes, pins)
      ensures count < old(nodes[id].nlookup) ==> nodes == old(nodes)[id := Forgotten(old(nodes)[id], count)]
    {
      GiveBack(id, count);
      if nodes[id].nlookup == 0 {
        UnrefNode(id);
      }
    }

    method GiveBack(id: Id, count: nat)
      requires AtRest() && id in nodes && 0 < nodes[id].nlookup && count <= nodes[id].nlookup && id != ROOT_ID
      modifies this`nodes, this`pins
      ensures Valid() && nodes == old(nodes)[id := Forgotten(old(nodes)[id], count)]
      ensures pins == if count == old(nodes[id].nlookup) then old(pins).Owing(id) else old(pins)
      ensures nodes[id].nlookup == old(nodes[id].nlookup) - count
    {
      ghost var owing := if count == nodes[id].nlookup then pins.Owing(id) else pins;
      ForgetSane(nodes, pins, idle, names.nodes, id, count, owing);
      nodes := nodes[id := Forgotten(nodes[id], count)];
      pins := owing;
    }

    /** Looking up `.` holds the directory for the length of the request. */
    method Pin(id: Id)
      requires Settled() && id in nodes
      modifies this`nodes, this`pins
      ensures Settled() && nodes == Pinned(old(nodes), id) && pins.held == old(pins.held) + multiset{id}
    {
      PinSane(nodes, pins, idle, names.nodes, id);
      assert Parents(Pinned(nodes, id)) == Parents(nodes);
      nodes := Pinned(nodes, id);
      pins := pins.(held := pins.held + multiset{id});
    }

    method Unpin(id: Id)
      requires Settled() && pins.held[id] > 0
      modifies this`nodes, this`pins, this`idle, names, ids
      ensures Settled() && pins == old(pins).Released(id)
      ensures Kept(old(nodes), nodes, pins) && FreesUnused(old(nodes), nodes, pins)
    {
      Release(id);
      KeptForest(old(nodes), nodes, pins);
      KeptFreesUnused(old(nodes), nodes, pins);
    }

    method Release(id: Id)
      requires AtRest() && pins.held[id] > 0
      modifies this`nodes, this`pins, this`idle, names, ids
      ensures AtRest() && pins == old(pins).Released(id) && Kept(old(nodes), nodes, pins)
    {
      ghost var rest := pins.Released(id);
      OwePin(id, rest);
      DropOwed(id, rest);
    }

    method DropOwed(id: Id, ghost rest: Pins)
      requires Valid() && idle == {} && names.pending == 0 && ids.pending == 0 && ctr < ID_RANGE
      requires rest.owed.None? && pins == rest.Owing(id)
      modifies this`nodes, this`pins, this`idle, names, ids
      ensures AtRest() && pins == rest && Kept(old(nodes), nodes, pins)
    {
      UnrefNode(id);
    }

    ghost method OwePin(id: Id, rest: Pins)
      requires AtRest() && pins.held[id] > 0 && rest == pins.Released(id)
      modifies this`pins
      ensures Valid() && pins == rest.Owing(id)
    {
      OwePinSane(nodes, pins, idle, names.nodes, id);
      pins := pins.Released(id).Owing(id);
    }

    /** `unlink_node`: under `remember` the cache's own lookup goes with the name. */
    method UnlinkNode(c: Id)
      requires AtRest() && c in nodes && c != ROOT_ID && (remember ==> nodes[c].nlookup > 1)
      modifies this`nodes, this`pins, this`idle, names, ids
      ensures AtRest() && pins == old(pins)
      ensures Kept(WithoutLink(Unremembered(remember, old(nodes), c), c), nodes, pins)
      ensures old(ParentLookedUp(nodes, c)) ==> nodes.Keys == old(nodes.Keys)
    {
      Unremember(c);
      Loosen(c);
    }

    method Loosen(c: Id)
      requires AtRest() && c in nodes
      modifies this`nodes, this`pins, this`idle, names, ids
      ensures AtRest() && pins == old(pins) && Kept(WithoutLink(old(nodes), c), nodes, pins)
      ensures old(nodes[c].link.None? || ParentLookedUp(nodes, c)) ==> nodes.Keys == old(nodes.Keys)
    {
      UnhashName(c);
    }

    method Unremember(c: Id)
      requires AtRest() && c in nodes && c != ROOT_ID && (remember ==> nodes[c].nlookup > 1)
      modifies this`nodes, this`pins
      ensures AtRest() && pins == old(pins) && nodes == Unremembered(remember, old(nodes), c)
      ensures old(ParentLookedUp(nodes, c)) ==> ParentLookedUp(nodes, c)
    {
      if remember {
        GiveBack(c, 1);
      }
    }

    /** `remove_node`. */
    method RemoveNode(k: Link)
      requires Settled() && (remember && k in names.nodes ==> nodes[names.nodes[k]].nlookup > 1)
      modifies this`nodes, this`pins, this`idle, names, ids
      ensures Settled() && pins == old(pins)
      ensures k !in old(names.nodes) ==> nodes == old(nodes)
      ensures k in old(names.nodes) ==>
                var c := old(names.nodes)[k];
                && c in old(nodes)
                && var unlinked := WithoutLink(Unremembered(remember, old(nodes), c), c);
                   Kept(unlinked, nodes, pins) && FreesUnused(unlinked, nodes, pins)
    {
      var found := names.Lookup(k);
      if found.Some? {
        UnlinkNode(found.value);
        RemovedFrees(remember, old(nodes), found.value, nodes, pins);
      }
    }

    /** `rename_node`: it does not come back when the new directory has gone by the time the node is to be hung
        there. */
    method RenameNode(oldk: Link, newk: Link, hiding: bool) returns (r: RenameResult)
      requires Settled() && MayRename(remember, nodes, names.nodes, oldk, newk)
      modifies this`nodes, this`pins, this`idle, names, ids
      ensures AtRest() && pins == old(pins)
      ensures r.NotFound? <==> oldk !in old(names.nodes)
      ensures r.Busy? <==> oldk in old(names.nodes) && newk in old(names.nodes) && hiding
      ensures r.NotFound? || r.Busy? ==> Settled() && nodes == old(nodes)
      ensures r.Aborted? || r.Renamed? ==> DidRename(remember, old(nodes), old(names.nodes), oldk, newk, r, nodes, pins)
    {
      var node := names.Lookup(oldk);
      var newnode := names.Lookup(newk);
      if node.None? {
        return NotFound;
      }
      if newnode.Some? && hiding {
        return Busy;
      }
      r := Move(node.value, newnode, oldk, newk);
    }

    /** The rename proper. */
    method Move(node: Id, newnode: Option<Id>, oldk: Link, newk: Link) returns (r: RenameResult)
      requires Settled() && oldk in names.nodes && names.nodes[oldk] == node
      requires MayRename(remember, nodes, names.nodes, oldk, newk)
      requires newnode == if newk in names.nodes then Some(names.nodes[newk]) else None
      modifies this`nodes, this`pins, this`idle, names, ids
      ensures AtRest() && pins == old(pins) && (r.Aborted? || r.Renamed?)
      ensures DidRename(remember, old(nodes), old(names.nodes), oldk, newk, r, nodes, pins)
    {
      DetachBoth(node, newnode, oldk, newk);
      r := Attach(node, oldk, newk, old(nodes), old(names.nodes));
    }

    /** The second half of a rename, whatever `nodes0` and `names0` it began with. */
    method Attach(node: Id, ghost oldk: Link, newk: Link, ghost nodes0: Nodes, ghost names0: map<Link, Id>)
      returns (r: RenameResult)
      requires AtRest() && node in nodes && nodes[node].link.None? && newk !in names.nodes
      requires node != ROOT_ID && node != newk.parent
      modifies this`nodes, this`idle, names
      ensures AtRest() && (r.Aborted? || r.Renamed?)
      ensures DidDetach(remember, nodes0, names0, oldk, newk, old(nodes), pins) && names0[oldk] == node ==>
                DidRename(remember, nodes0, names0, oldk, newk, r, nodes, pins)
    {
      r := HashAgain(node, newk);
      if DidDetach(remember, nodes0, names0, oldk, newk, old(nodes), pins) && names0[oldk] == node {
        RenameEnds(remember, nodes0, names0, oldk, newk, old(nodes), r, nodes, pins);
      }
    }

    /** The node, and any node in its way, lose their links. */
    method DetachBoth(node: Id, newnode: Option<Id>, oldk: Link, newk: Link)
      requires Settled() && oldk in names.nodes && names.nodes[oldk] == node
      requires MayRename(remember, nodes, names.nodes, oldk, newk)
      requires newnode == if newk in names.nodes then Some(names.nodes[newk]) else None
      modifies this`nodes, this`pins, this`idle, names, ids
      ensures AtRest() && pins == old(pins) && node in nodes && nodes[node].link.None? && newk !in names.nodes
      ensures node != ROOT_ID && node != newk.parent
      ensures DidDetach(remember, old(nodes), old(names.nodes), oldk, newk, nodes, pins)
    {
      Displace(node, newnode, oldk, newk);
      ghost var displaced := nodes;
      Loosen(node);
      DetachEnds(remember, old(nodes), old(names.nodes), oldk, newk, displaced, nodes, names.nodes, pins);
    }

    /** The node in the way, if any, loses its link. */
    method Displace(node: Id, newnode: Option<Id>, oldk: Link, newk: Link)
      requires Settled() && oldk in names.nodes && names.nodes[oldk] == node
      requires MayRename(remember, nodes, names.nodes, oldk, newk)
      requires newnode == if newk in names.nodes then Some(names.nodes[newk]) else None
      modifies this`nodes, this`pins, this`idle, names, ids
      ensures Settled() && pins == old(pins) && node in nodes
      ensures Kept(Displaced(remember, old(nodes), old(names.nodes), newk), nodes, pins)
      ensures old(LookedUpDir(nodes, oldk.parent) && LookedUpDir(nodes, newk.parent)) ==>
                nodes.Keys == old(nodes.Keys) && (nodes[node].link.None? || ParentLookedUp(nodes, node))
    {
      if newnode.Some? {
        UnlinkNode(newnode.value);
      }
      DisplacedStays(remember, old(nodes), old(names.nodes), oldk, newk, nodes, pins);
    }

    /** The node is hung in its new directory, if that is still there. */
    method HashAgain(c: Id, k: Link) returns (r: RenameResult)
      requires AtRest() && c in nodes && nodes[c].link.None? && c != ROOT_ID
      requires k.parent != c && k !in names.nodes
      modifies this`nodes, this`idle, names
      ensures AtRest() && r == if k.parent in old(nodes) then Renamed else Aborted
      ensures nodes == if k.parent in old(nodes) then Hung(old(nodes), c, k) else old(nodes)
    {
      if k.parent !in nodes {
        return Aborted;
      }
      HashName(c, k);
      r := Renamed;
    }
  }
}
