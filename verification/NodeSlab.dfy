/** The slab allocator for nodes of fuse-3/lib/fuse.c: pages of nodes, each with a list of its free
    nodes, kept on a list of partly used or of full slabs. */
module NodeSlab {

  /** A node's address: its page, and its place there. */
  datatype Address = Address(slab: int, index: int)

  datatype Slab = Slab(freelist: seq<Address>, used: int)

  predicate Distinct<T(==)>(s: seq<T>) {
    forall i, j :: 0 <= i < j < |s| ==> s[i] != s[j]
  }

  /** `list_del`. */
  function Without(s: seq<int>, x: int): seq<int> {
    if s == [] then [] else if s[0] == x then s[1..] else [s[0]] + Without(s[1..], x)
  }

  lemma {:induction false} WithoutDistinct(s: seq<int>, x: int)
    requires Distinct(s)
    ensures Distinct(Without(s, x))
    ensures forall y :: y in Without(s, x) <==> y in s && y != x
  {
    if s != [] {
      WithoutDistinct(s[1..], x);
      assert s == [s[0]] + s[1..];
      assert s[0] !in s[1..];
    }
  }

  lemma AppendDistinct(s: seq<int>, x: int)
    requires Distinct(s) && x !in s
    ensures Distinct(s + [x]) && forall y :: y in s + [x] <==> y in s || y == x
  {
  }

  ghost function LiveIn(live: set<Address>, s: int): set<Address> {
    set n | n in live && n.slab == s
  }

  ghost predicate FreeOk(s: int, freelist: seq<Address>, live: set<Address>, num: int) {
    Distinct(freelist) && forall n :: n in freelist ==> n.slab == s && 0 <= n.index < num && n !in live
  }

  /** A slab's free nodes are its own and not live; with its live nodes they make up the page. */
  ghost predicate SlabOk(s: int, slab: Slab, live: set<Address>, num: int) {
    && FreeOk(s, slab.freelist, live, num)
    && slab.used == |LiveIn(live, s)| && slab.used + |slab.freelist| == num
  }

  ghost predicate SlabsOk(slabs: map<int, Slab>, live: set<Address>, num: int) {
    && (forall s :: s in slabs ==> SlabOk(s, slabs[s], live, num))
    && (forall n :: n in live ==> n.slab in slabs)
  }

  /** The two lists hold each slab once: the full ones have no free node, the others do. */
  ghost predicate ListsOk(slabs: map<int, Slab>, partial: seq<int>, full: seq<int>) {
    && Distinct(partial) && Distinct(full)
    && (forall s :: s in slabs <==> s in partial || s in full)
    && (forall s :: s in partial ==> s in slabs && slabs[s].freelist != [])
    && (forall s :: s in full ==> s in slabs && slabs[s].freelist == [])
  }

  /** No slab is kept that is not in use. */
  ghost predicate AllUsed(slabs: map<int, Slab>) {
    forall s :: s in slabs ==> slabs[s].used > 0
  }

  /** The nodes of a fresh page, in order. */
  function PageNodes(s: int, num: int): (nodes: seq<Address>)
    requires num >= 0
    ensures |nodes| == num && forall i :: 0 <= i < num ==> nodes[i] == Address(s, i)
    decreases num
  {
    if num == 0 then [] else PageNodes(s, num - 1) + [Address(s, num - 1)]
  }

  lemma PageOk(slabs: map<int, Slab>, live: set<Address>, num: int, s: int)
    requires SlabsOk(slabs, live, num) && s !in slabs && num >= 0
    ensures SlabsOk(slabs[s := Slab(PageNodes(s, num), 0)], live, num)
  {
    assert LiveIn(live, s) == {};
  }

  lemma LiveGrows(live: set<Address>, n: Address, s: int)
    requires n !in live
    ensures |LiveIn(live + {n}, s)| == |LiveIn(live, s)| + if s == n.slab then 1 else 0
  {
    if s == n.slab {
      assert LiveIn(live + {n}, s) == LiveIn(live, s) + {n};
    } else {
      assert LiveIn(live + {n}, s) == LiveIn(live, s);
    }
  }

  lemma LiveShrinks(live: set<Address>, n: Address, s: int)
    requires n in live
    ensures |LiveIn(live - {n}, s)| == |LiveIn(live, s)| - if s == n.slab then 1 else 0
  {
    LiveGrows(live - {n}, n, s);
    assert live - {n} + {n} == live;
  }

  /** Taking the first free node of a slab. */
  lemma TakeOk(slabs: map<int, Slab>, live: set<Address>, num: int, s: int, taken: Slab, n: Address)
    requires SlabsOk(slabs, live, num) && s in slabs && slabs[s].freelist != [] && n == slabs[s].freelist[0]
    requires taken == Slab(slabs[s].freelist[1..], slabs[s].used + 1)
    ensures n !in live && n.slab == s && 0 <= n.index < num
    ensures SlabsOk(slabs[s := taken], live + {n}, num)
  {
    assert SlabOk(s, slabs[s], live, num) && n in slabs[s].freelist;
    var slabs' := slabs[s := taken];
    forall t | t in slabs' ensures SlabOk(t, slabs'[t], live + {n}, num) {
      assert SlabOk(t, slabs[t], live, num);
      LiveGrows(live, n, t);
    }
  }

  /** Giving a node back to the front of its slab's list. */
  lemma GiveOk(slabs: map<int, Slab>, live: set<Address>, num: int, n: Address, given: Slab)
    requires SlabsOk(slabs, live, num) && n in live && 0 <= n.index < num
    requires n.slab in slabs && given == Slab([n] + slabs[n.slab].freelist, slabs[n.slab].used - 1)
    ensures SlabsOk(slabs[n.slab := given], live - {n}, num) && slabs[n.slab].used > 0
  {
    var slabs' := slabs[n.slab := given];
    forall t | t in slabs' ensures SlabOk(t, slabs'[t], live - {n}, num) {
      assert SlabOk(t, slabs[t], live, num);
      LiveShrinks(live, n, t);
    }
    assert SlabOk(n.slab, slabs[n.slab], live, num);
    LiveShrinks(live, n, n.slab);
  }

  /** A page whose last live node goes can be unmapped. */
  lemma UnmapOk(slabs: map<int, Slab>, live: set<Address>, num: int, n: Address)
    requires SlabsOk(slabs, live, num) && n in live && n.slab in slabs && slabs[n.slab].used == 1
    ensures SlabsOk(slabs - {n.slab}, live - {n}, num)
  {
    assert SlabOk(n.slab, slabs[n.slab], live, num);
    LiveShrinks(live, n, n.slab);
    assert LiveIn(live - {n}, n.slab) == {};
    var slabs' := slabs - {n.slab};
    forall t | t in slabs' ensures SlabOk(t, slabs'[t], live - {n}, num) {
      assert SlabOk(t, slabs[t], live, num);
      LiveShrinks(live, n, t);
    }
    forall m | m in live - {n} ensures m.slab in slabs' {
      assert m !in LiveIn(live - {n}, n.slab);
    }
  }

  class Allocator {
    const num: int
    var slabs: map<int, Slab>
    var partial: seq<int>
    var full: seq<int>
    ghost var live: set<Address>

    ghost predicate Valid() reads this {
      && num >= 1 && SlabsOk(slabs, live, num) && ListsOk(slabs, partial, full) && AllUsed(slabs)
      && forall n :: n in live ==> 0 <= n.index < num
    }

    /** A page has room for the slab's header and at least one node. */
    constructor (num: int)
      requires num >= 1
      ensures Valid() && live == {} && this.num == num
    {
      this.num := num;
      slabs, partial, full, live := map[], [], [], {};
    }

    /** `alloc_slab`: `page` is what the system gave, a page not mapped before. */
    method AllocSlab(page: int)
      requires num >= 1 && SlabsOk(slabs, live, num) && ListsOk(slabs, partial, full) && page !in slabs
      modifies this`slabs, this`partial
      ensures SlabsOk(slabs, live, num) && ListsOk(slabs, partial, full)
      ensures slabs == old(slabs)[page := Slab(PageNodes(page, num), 0)] && partial == old(partial) + [page]
    {
      PageOk(slabs, live, num, page);
      AppendDistinct(partial, page);
      slabs := slabs[page := Slab(PageNodes(page, num), 0)];
      partial := partial + [page];
    }

    /** `alloc_node`: the node is not live yet, so live nodes are pairwise distinct. */
    method AllocNode(page: int) returns (n: Address)
      requires Valid() && page !in slabs
      modifies this`slabs, this`partial, this`full, this`live
      ensures Valid() && n !in old(live) && live == old(live) + {n} && 0 <= n.index < num
      ensures slabs.Keys == if old(partial) == [] then old(slabs).Keys + {page} else old(slabs).Keys
      ensures n.slab == if old(partial) == [] then page else old(partial)[0]
    {
      if partial == [] {
        AllocSlab(page);
      }
      n := TakeNode(partial[0]);
    }

    method TakeNode(s: int) returns (n: Address)
      requires num >= 1 && SlabsOk(slabs, live, num) && ListsOk(slabs, partial, full)
      requires forall n :: n in live ==> 0 <= n.index < num
      requires partial != [] && s == partial[0] && forall t :: t in slabs && t != s ==> slabs[t].used > 0
      modifies this`slabs, this`partial, this`full, this`live
      ensures Valid() && n !in old(live) && live == old(live) + {n} && n.slab == s && slabs.Keys == old(slabs).Keys
    {
      var slab := slabs[s];
      n := slab.freelist[0];
      var taken := Slab(slab.freelist[1..], slab.used + 1);
      TakeOk(slabs, live, num, s, taken, n);
      assert SlabOk(s, slab, live, num);
      if taken.freelist == [] {
        WithoutDistinct(partial, s);
        AppendDistinct(full, s);
        partial := Without(partial, s);
        full := full + [s];
      }
      slabs := slabs[s := taken];
      live := live + {n};
    }

    /** `free_node_mem`. */
    method FreeNodeMem(n: Address)
      requires Valid() && n in live
      modifies this`slabs, this`partial, this`full, this`live
      ensures Valid() && live == old(live) - {n}
    {
      var slab := slabs[n.slab];
      if slab.used - 1 != 0 {
        GiveNode(n);
      } else {
        FreeSlab(n);
      }
    }

    method GiveNode(n: Address)
      requires Valid() && n in live && slabs[n.slab].used != 1
      modifies this`slabs, this`partial, this`full, this`live
      ensures Valid() && live == old(live) - {n}
    {
      var slab := slabs[n.slab];
      var given := Slab([n] + slab.freelist, slab.used - 1);
      GiveOk(slabs, live, num, n, given);
      if slab.freelist == [] {
        WithoutDistinct(full, n.slab);
        AppendDistinct(partial, n.slab);
        full := Without(full, n.slab);
        partial := partial + [n.slab];
      }
      slabs := slabs[n.slab := given];
      live := live - {n};
    }

    /** `free_slab`: the slab leaves whichever list it is on. */
    method FreeSlab(n: Address)
      requires Valid() && n in live && slabs[n.slab].used == 1
      modifies this`slabs, this`partial, this`full, this`live
      ensures Valid() && live == old(live) - {n}
    {
      UnmapOk(slabs, live, num, n);
      WithoutDistinct(partial, n.slab);
      WithoutDistinct(full, n.slab);
      partial := Without(partial, n.slab);
      full := Without(full, n.slab);
      slabs := slabs - {n.slab};
      live := live - {n};
    }

    /** The end of `fuse_destroy`: all nodes are freed, and then both lists are empty. */
    method Destroy(nodes: seq<Address>)
      requires Valid() && Distinct(nodes) && forall n :: n in live <==> n in nodes
      modifies this`slabs, this`partial, this`full, this`live
      ensures Valid() && partial == [] && full == []
    {
      var i := 0;
      while i < |nodes|
        invariant 0 <= i <= |nodes| && Valid()
        invariant forall n :: n in live <==> n in nodes[i..]
      {
        assert nodes[i..] == [nodes[i]] + nodes[i + 1..];
        FreeNodeMem(nodes[i]);
        i := i + 1;
      }
      EmptyIff(slabs, partial, full, live, num);
    }
  }

  /** Slabs are kept exactly as long as there are live nodes. */
  lemma EmptyIff(slabs: map<int, Slab>, partial: seq<int>, full: seq<int>, live: set<Address>, num: int)
    requires SlabsOk(slabs, live, num) && ListsOk(slabs, partial, full) && AllUsed(slabs)
    ensures live == {} <==> partial == [] && full == []
  {
    if partial != [] {
      SlabHasLive(slabs, live, num, partial[0]);
    }
    if full != [] {
      SlabHasLive(slabs, live, num, full[0]);
    }
    if n :| n in live {
      assert n.slab in slabs;
    }
  }

  lemma SlabHasLive(slabs: map<int, Slab>, live: set<Address>, num: int, s: int)
    requires SlabsOk(slabs, live, num) && AllUsed(slabs) && s in slabs
    ensures live != {}
  {
    assert SlabOk(s, slabs[s], live, num);
    assert |LiveIn(live, s)| > 0;
    var n :| n in LiveIn(live, s);
  }
}
