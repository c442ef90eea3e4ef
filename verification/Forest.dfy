/** Parent links between nodes: what detaching and attaching a node does to a forest. */
module Forest {
  import opened Options

  type Id = int

  ghost predicate Ranks(parents: map<Id, Id>, rank: Id -> nat) {
    forall c :: c in parents ==> rank(parents[c]) < rank(c)
  }

  /** No node is its own ancestor: every node stands strictly below its parent in some ranking. */
  ghost predicate Acyclic(parents: map<Id, Id>) {
    exists rank: Id -> nat :: Ranks(parents, rank)
  }

  /** The node `n` links above `x`. */
  ghost function Climb(parents: map<Id, Id>, x: Id, n: nat): Option<Id>
    decreases n
  {
    if n == 0 then Some(x)
    else if x in parents then Climb(parents, parents[x], n - 1)
    else None
  }

  /** `x` is `w` or one of its descendants. */
  ghost predicate IsBelow(parents: map<Id, Id>, x: Id, w: Id) {
    exists n: nat :: Climb(parents, x, n) == Some(w)
  }

  lemma BelowStep(parents: map<Id, Id>, x: Id, w: Id)
    requires x in parents
    ensures IsBelow(parents, x, w) <==> x == w || IsBelow(parents, parents[x], w)
  {
    if IsBelow(parents, x, w) {
      var n: nat :| Climb(parents, x, n) == Some(w);
      if n > 0 {
        assert Climb(parents, parents[x], n - 1) == Some(w);
      }
    }
    if IsBelow(parents, parents[x], w) {
      var n: nat :| Climb(parents, parents[x], n) == Some(w);
      assert Climb(parents, x, n + 1) == Some(w);
    }
    assert Climb(parents, x, 0) == Some(x);
  }

  lemma BelowTop(parents: map<Id, Id>, x: Id, w: Id)
    requires x !in parents
    ensures IsBelow(parents, x, w) <==> x == w
  {
    if x == w {
      assert Climb(parents, x, 0) == Some(w);
    }
  }

  /** Going down only ever raises the rank. */
  lemma {:induction false} ClimbLowersRank(parents: map<Id, Id>, rank: Id -> nat, x: Id, n: nat)
    requires Ranks(parents, rank)
    ensures Climb(parents, x, n).Some? ==> rank(Climb(parents, x, n).value) + n <= rank(x)
    decreases n
  {
    if n > 0 && x in parents {
      ClimbLowersRank(parents, rank, parents[x], n - 1);
    }
  }

  /** Fewer links cannot close a cycle. */
  lemma SubForest(parents: map<Id, Id>, fewer: map<Id, Id>)
    requires Acyclic(parents)
    requires forall c :: c in fewer ==> c in parents && fewer[c] == parents[c]
    ensures Acyclic(fewer)
  {
    var rank: Id -> nat :| Ranks(parents, rank);
    assert Ranks(fewer, rank);
  }

  lemma AttachedRanks(parents: map<Id, Id>, w: Id, dir: Id, rank: Id -> nat, raised: Id -> nat)
    requires Ranks(parents, rank) && w !in parents && !IsBelow(parents, dir, w)
    requires forall x :: raised(x) == if IsBelow(parents, x, w) then rank(x) + rank(dir) + 1 else rank(x)
    ensures Ranks(parents[w := dir], raised)
  {
    var attached := parents[w := dir];
    forall c | c in attached ensures raised(attached[c]) < raised(c) {
      if c == w {
        BelowTop(parents, w, w);
        assert raised(dir) == rank(dir);
      } else {
        BelowStep(parents, c, w);
        assert rank(parents[c]) < rank(c);
        assert raised(parents[c]) < raised(c);
      }
    }
  }

  lemma AttachAcyclic(parents: map<Id, Id>, w: Id, dir: Id)
    requires Acyclic(parents) && w !in parents && !IsBelow(parents, dir, w)
    ensures Acyclic(parents[w := dir])
  {
    var rank: Id -> nat :| Ranks(parents, rank);
    var raised: Id -> nat := x => if IsBelow(parents, x, w) then rank(x) + rank(dir) + 1 else rank(x);
    AttachedRanks(parents, w, dir, rank, raised);
  }

  lemma AttachCyclic(parents: map<Id, Id>, w: Id, dir: Id, rank: Id -> nat, n: nat)
    requires w !in parents && Climb(parents, dir, n) == Some(w)
    ensures !Ranks(parents[w := dir], rank)
  {
    var attached := parents[w := dir];
    if Ranks(attached, rank) {
      assert Ranks(parents, rank) by {
        forall c | c in parents ensures rank(parents[c]) < rank(c) {
          assert c in attached && attached[c] == parents[c];
        }
      }
      assert w in attached;
      ClimbLowersRank(parents, rank, dir, n);
    }
  }

  /** A loose node can be attached below a directory without closing a cycle exactly when the
      directory is not below it. */
  lemma AttachAcyclicIff(parents: map<Id, Id>, w: Id, dir: Id)
    requires Acyclic(parents) && w !in parents
    ensures Acyclic(parents[w := dir]) <==> !IsBelow(parents, dir, w)
  {
    if IsBelow(parents, dir, w) {
      var n: nat :| Climb(parents, dir, n) == Some(w);
      var attached := parents[w := dir];
      forall rank: Id -> nat ensures !Ranks(attached, rank) {
        AttachCyclic(parents, w, dir, rank, n);
      }
    } else {
      AttachAcyclic(parents, w, dir);
    }
  }

  /** A new node without children can go anywhere. */
  lemma AttachLeaf(parents: map<Id, Id>, w: Id, dir: Id)
    requires Acyclic(parents) && w !in parents && w != dir
    requires forall c :: c in parents ==> parents[c] != w
    ensures Acyclic(parents[w := dir])
  {
    if IsBelow(parents, dir, w) {
      var n: nat :| Climb(parents, dir, n) == Some(w);
      ClimbEndsAtParent(parents, dir, n);
      assert false;
    }
    AttachAcyclicIff(parents, w, dir);
  }

  lemma {:induction false} ClimbEndsAtParent(parents: map<Id, Id>, x: Id, n: nat)
    requires n > 0 && Climb(parents, x, n).Some?
    ensures exists c :: c in parents && parents[c] == Climb(parents, x, n).value
    decreases n
  {
    if n > 1 {
      ClimbEndsAtParent(parents, parents[x], n - 1);
    } else {
      assert Climb(parents, parents[x], 0) == Some(parents[x]);
    }
  }

  /** A forest with fewer links has fewer descendants. */
  lemma {:induction false} ClimbMore(parents: map<Id, Id>, fewer: map<Id, Id>, x: Id, n: nat)
    requires forall c :: c in fewer ==> c in parents && fewer[c] == parents[c]
    ensures Climb(fewer, x, n).Some? ==> Climb(parents, x, n) == Climb(fewer, x, n)
    decreases n
  {
    if n > 0 && x in fewer {
      ClimbMore(parents, fewer, fewer[x], n - 1);
    }
  }

  lemma BelowInFewer(parents: map<Id, Id>, fewer: map<Id, Id>, x: Id, w: Id)
    requires forall c :: c in fewer ==> c in parents && fewer[c] == parents[c]
    ensures IsBelow(fewer, x, w) ==> IsBelow(parents, x, w)
  {
    if IsBelow(fewer, x, w) {
      var n: nat :| Climb(fewer, x, n) == Some(w);
      ClimbMore(parents, fewer, x, n);
    }
  }

  /** Below a child is below its parent. */
  lemma BelowParent(parents: map<Id, Id>, x: Id, c: Id)
    requires c in parents && IsBelow(parents, x, c)
    ensures IsBelow(parents, x, parents[c])
  {
    var n: nat :| Climb(parents, x, n) == Some(c);
    ClimbOneMore(parents, x, n);
  }

  lemma {:induction false} ClimbOneMore(parents: map<Id, Id>, x: Id, n: nat)
    requires Climb(parents, x, n).Some? && Climb(parents, x, n).value in parents
    ensures Climb(parents, x, n + 1) == Some(parents[Climb(parents, x, n).value])
    decreases n
  {
    if n > 0 {
      ClimbOneMore(parents, parents[x], n - 1);
    } else {
      assert Climb(parents, parents[x], 0) == Some(parents[x]);
    }
  }

  /** A way up that does not end below the parent of `c` does not use the link of `c`. */
  lemma {:induction false} ClimbWithout(parents: map<Id, Id>, x: Id, w: Id, n: nat, c: Id)
    requires Climb(parents, x, n) == Some(w) && c in parents && !IsBelow(parents, parents[c], w)
    ensures Climb(parents - {c}, x, n) == Some(w)
    decreases n
  {
    if n > 0 {
      assert Climb(parents, parents[x], n - 1) == Some(w);
      assert x != c;
      ClimbWithout(parents, parents[x], w, n - 1, c);
    }
  }

  lemma BelowWithout(parents: map<Id, Id>, x: Id, w: Id, c: Id)
    requires IsBelow(parents, x, w) && (c in parents ==> !IsBelow(parents, parents[c], w))
    ensures IsBelow(parents - {c}, x, w)
  {
    var n: nat :| Climb(parents, x, n) == Some(w);
    if c in parents {
      ClimbWithout(parents, x, w, n, c);
      assert Climb(parents - {c}, x, n) == Some(w);
    } else {
      assert parents - {c} == parents;
    }
  }

  /** A way up does not come past a node that stands below its start. */
  lemma {:induction false} ClimbStaysAbove(parents: map<Id, Id>, rank: Id -> nat, x: Id, w: Id, n: nat, c: Id)
    requires Ranks(parents, rank) && rank(x) < rank(c) && Climb(parents, x, n) == Some(w)
    ensures Climb(parents - {c}, x, n) == Some(w)
    decreases n
  {
    if n > 0 {
      assert x in parents && rank(parents[x]) < rank(x);
      ClimbStaysAbove(parents, rank, parents[x], w, n - 1, c);
    }
  }

  /** In a forest, what a node's parent is below does not depend on the node's own link. */
  lemma ParentBelowWithout(parents: map<Id, Id>, c: Id, w: Id)
    requires Acyclic(parents) && c in parents
    ensures IsBelow(parents - {c}, parents[c], w) <==> IsBelow(parents, parents[c], w)
  {
    var rank: Id -> nat :| Ranks(parents, rank);
    if IsBelow(parents, parents[c], w) {
      var n: nat :| Climb(parents, parents[c], n) == Some(w);
      ClimbStaysAbove(parents, rank, parents[c], w, n, c);
      assert Climb(parents - {c}, parents[c], n) == Some(w);
    }
    BelowInFewer(parents, parents - {c}, parents[c], w);
  }
}
