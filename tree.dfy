/**
 * The node hierarchy as an arena: a map from node id to Node whose `parent` field is the only
 * structural link. Children are derived from it (the source's `subs` list is the inverse side
 * of a `mappedBy = "parent"` relation, so the parent column is what persists).
 *
 * Acyclicity is stated two ways:
 *  - `NoCycle`: following parent references from a node never comes back to it;
 *  - `Ranked`: a rank map under which every parent ranks strictly below its child.
 * The store keeps a ghost rank; `RankedHasNoCycle` shows it implies `NoCycle`.
 */
module Tree {
  import opened Wrappers
  import opened Entities

  type Nodes = map<int, Node>

  /** Every parent reference resolves and ranks strictly below its child. */
  ghost predicate Ranked(nodes: Nodes, rank: map<int, nat>)
  {
    && (forall x :: x in nodes ==> x in rank)
    && (forall x :: x in nodes && nodes[x].parent.Some? ==>
          nodes[x].parent.value in nodes && rank[nodes[x].parent.value] < rank[x])
  }

  /**
   * The k-th node on the parent chain that starts at x (x itself for k = 0), or None when the
   * chain reaches a root or an unknown id first. Needs no rank.
   */
  function AncestorAt(nodes: Nodes, x: int, k: nat): Option<int>
    decreases k
  {
    if k == 0 then Some(x)
    else if x in nodes && nodes[x].parent.Some? then AncestorAt(nodes, nodes[x].parent.value, k - 1)
    else None
  }

  /** Some node on the parent chain starting at x, at some distance, is a. */
  ghost predicate Reaches(nodes: Nodes, x: int, a: int)
  {
    exists k: nat :: AncestorAt(nodes, x, k) == Some(a)
  }

  /** The parent chain never revisits a node. */
  ghost predicate NoCycle(nodes: Nodes)
  {
    forall x, k: nat :: x in nodes && 0 < k ==> AncestorAt(nodes, x, k) != Some(x)
  }

  /**
   * `a` occurs on the parent chain that starts at `x` itself: x is a, or a descendant of a.
   * This is the test of the source's ancestor walk; the ghost rank only bounds the recursion.
   */
  predicate OnChain(nodes: Nodes, ghost rank: map<int, nat>, a: int, x: int)
    requires Ranked(nodes, rank)
    decreases if x in nodes then rank[x] + 1 else 0
  {
    x in nodes && (x == a || (nodes[x].parent.Some? && OnChain(nodes, rank, a, nodes[x].parent.value)))
  }

  /** The ids whose parent is p. */
  function ChildrenOf(nodes: Nodes, p: int): set<int>
  {
    set x | x in nodes && nodes[x].parent == Some(p)
  }

  /** x together with all its descendants. */
  function Subtree(nodes: Nodes, ghost rank: map<int, nat>, x: int): (t: set<int>)
    requires Ranked(nodes, rank)
  {
    set y | y in nodes && OnChain(nodes, rank, x, y)
  }

  /** The arena after node n is given parent d (None: made a root). */
  function Reparent(nodes: Nodes, n: int, d: Option<int>): (r: Nodes)
    requires n in nodes
  {
    nodes[n := nodes[n].(parent := d)]
  }

  /** The rank after a relocation: the moved subtree is lifted above its new parent. */
  ghost function Lifted(nodes: Nodes, rank: map<int, nat>, n: int, d: Option<int>): map<int, nat>
    requires Ranked(nodes, rank)
  {
    var lift := if d.Some? && d.value in rank then rank[d.value] + 1 else 0;
    map x | x in rank :: if OnChain(nodes, rank, n, x) then rank[x] + lift else rank[x]
  }

  // ---------------------------------------------------------------------------------------
  // Acyclicity

  lemma {:induction false} AncestorRankDrops(nodes: Nodes, rank: map<int, nat>, x: int, k: nat)
    requires Ranked(nodes, rank) && x in nodes
    ensures AncestorAt(nodes, x, k).Some? ==>
              var y := AncestorAt(nodes, x, k).value;
              y in nodes && rank[y] + k <= rank[x]
    decreases k
  {
    if k > 0 && nodes[x].parent.Some? {
      AncestorRankDrops(nodes, rank, nodes[x].parent.value, k - 1);
    }
  }

  /** A ranked arena has no cycle: the parent chain from any node never returns to it. */
  lemma RankedHasNoCycle(nodes: Nodes, rank: map<int, nat>)
    requires Ranked(nodes, rank)
    ensures NoCycle(nodes)
  {
    forall x, k: nat | x in nodes && 0 < k
      ensures AncestorAt(nodes, x, k) != Some(x)
    {
      AncestorRankDrops(nodes, rank, x, k);
    }
  }

  /** Only a stored node can be met on a parent chain. */
  lemma {:induction false} ChainTargetIsLive(nodes: Nodes, rank: map<int, nat>, a: int, x: int)
    requires Ranked(nodes, rank)
    ensures OnChain(nodes, rank, a, x) ==> a in nodes
    decreases if x in nodes then rank[x] + 1 else 0
  {
    if x in nodes && x != a && nodes[x].parent.Some? {
      ChainTargetIsLive(nodes, rank, a, nodes[x].parent.value);
    }
  }

  /** OnChain is the rank-free "some ancestor at some distance is a" relation. */
  lemma {:induction false} OnChainIsReachability(nodes: Nodes, rank: map<int, nat>, a: int, x: int)
    requires Ranked(nodes, rank)
    ensures OnChain(nodes, rank, a, x) <==> x in nodes && Reaches(nodes, x, a)
    decreases if x in nodes then rank[x] + 1 else 0
  {
    if x in nodes {
      if OnChain(nodes, rank, a, x) {
        if x == a {
          assert AncestorAt(nodes, x, 0) == Some(a);
        } else {
          assert nodes[x].parent.Some?;
          var p := nodes[x].parent.value;
          assert OnChain(nodes, rank, a, p);
          OnChainIsReachability(nodes, rank, a, p);
          assert p in nodes;
          var k: nat :| AncestorAt(nodes, p, k) == Some(a);
          var j: nat := k + 1;
          assert AncestorAt(nodes, x, j) == Some(a);
          assert Reaches(nodes, x, a);
        }
      } else {
        assert x != a;
        forall k: nat ensures AncestorAt(nodes, x, k) != Some(a) {
          if k == 0 {
            assert AncestorAt(nodes, x, k) == Some(x);
          } else if nodes[x].parent.Some? {
            var p := nodes[x].parent.value;
            OnChainIsReachability(nodes, rank, a, p);
            assert AncestorAt(nodes, x, k) == AncestorAt(nodes, p, k - 1);
          }
        }
      }
    }
  }

  // ---------------------------------------------------------------------------------------
  // Relocation

  /**
   * Reparenting n under d (or to the root) keeps the arena ranked when n is not on the chain
   * starting at d, that is when d is neither n nor one of n's descendants.
   */
  lemma RelocationKeepsRanking(nodes: Nodes, rank: map<int, nat>, n: int, d: Option<int>)
    requires Ranked(nodes, rank) && n in nodes
    requires d.Some? ==> d.value in nodes && !OnChain(nodes, rank, n, d.value)
    ensures Ranked(Reparent(nodes, n, d), Lifted(nodes, rank, n, d))
  {
    var nodes', rank' := Reparent(nodes, n, d), Lifted(nodes, rank, n, d);
    assert forall x :: x in nodes' ==> x in nodes && x in rank';
    forall x | x in nodes' && nodes'[x].parent.Some?
      ensures nodes'[x].parent.value in nodes' && rank'[nodes'[x].parent.value] < rank'[x]
    {
      var p := nodes'[x].parent.value;
      assert p in nodes && p in rank && x in rank;
      if x == n {
        assert OnChain(nodes, rank, n, n);
        assert !OnChain(nodes, rank, n, p);
      } else if OnChain(nodes, rank, n, x) {
        assert OnChain(nodes, rank, n, p);
      } else {
        assert !OnChain(nodes, rank, n, p);
      }
    }
  }

  /** Following the old chain from x, which reaches n, also reaches n after n is reparented. */
  lemma {:induction false} ChainStillReaches(nodes: Nodes, rank: map<int, nat>, n: int, d: Option<int>, x: int)
    requires Ranked(nodes, rank) && n in nodes && OnChain(nodes, rank, n, x)
    ensures Reaches(Reparent(nodes, n, d), x, n)
    decreases if x in nodes then rank[x] + 1 else 0
  {
    var nodes' := Reparent(nodes, n, d);
    if x == n {
      assert AncestorAt(nodes', x, 0) == Some(n);
    } else {
      var p := nodes[x].parent.value;
      ChainStillReaches(nodes, rank, n, d, p);
      var k: nat :| AncestorAt(nodes', p, k) == Some(n);
      assert AncestorAt(nodes', x, k + 1) == Some(n);
    }
  }

  /** Reparenting n under a node on whose chain n lies (n itself or a descendant) makes a cycle. */
  lemma RefusedRelocationWouldCycle(nodes: Nodes, rank: map<int, nat>, n: int, d: int)
    requires Ranked(nodes, rank) && n in nodes && OnChain(nodes, rank, n, d)
    ensures !NoCycle(Reparent(nodes, n, Some(d)))
  {
    var nodes' := Reparent(nodes, n, Some(d));
    ChainStillReaches(nodes, rank, n, Some(d), d);
    var k: nat :| AncestorAt(nodes', d, k) == Some(n);
    assert AncestorAt(nodes', n, k + 1) == Some(n);
  }

  /**
   * The relocation test is exactly the acyclicity test: moving n under an existing node d keeps
   * the parent chains cycle-free if and only if n is not on the chain that starts at d.
   */
  lemma RelocationTestIsCycleTest(nodes: Nodes, rank: map<int, nat>, n: int, d: int)
    requires Ranked(nodes, rank) && n in nodes && d in nodes
    ensures !OnChain(nodes, rank, n, d) <==> NoCycle(Reparent(nodes, n, Some(d)))
  {
    if OnChain(nodes, rank, n, d) {
      RefusedRelocationWouldCycle(nodes, rank, n, d);
    } else {
      RelocationKeepsRanking(nodes, rank, n, Some(d));
      RankedHasNoCycle(Reparent(nodes, n, Some(d)), Lifted(nodes, rank, n, Some(d)));
    }
  }

  // ---------------------------------------------------------------------------------------
  // Cascading deletion

  /**
   * Removing a node together with its whole subtree leaves an arena in which every parent
   * reference still resolves (no survivor points into the removed part) and the old rank
   * still works.
   */
  lemma RemovingSubtreeKeepsRanking(nodes: Nodes, rank: map<int, nat>, x: int)
    requires Ranked(nodes, rank)
    ensures Ranked(map y | y in nodes && y !in Subtree(nodes, rank, x) :: nodes[y], rank)
    ensures x in nodes ==> x in Subtree(nodes, rank, x)
    ensures forall y :: y in nodes && nodes[y].parent.Some? && nodes[y].parent.value in Subtree(nodes, rank, x) ==>
              y in Subtree(nodes, rank, x)
  {
    var gone := Subtree(nodes, rank, x);
    forall y | y in nodes && nodes[y].parent.Some? && nodes[y].parent.value in gone
      ensures y in gone
    {
      assert OnChain(nodes, rank, x, nodes[y].parent.value);
    }
  }

  /**
   * The subtree of x is exactly the set of stored nodes whose parent chain reaches x, and it is
   * empty when x is not stored.
   */
  lemma SubtreeIsReachability(nodes: Nodes, rank: map<int, nat>, x: int)
    requires Ranked(nodes, rank)
    ensures forall y :: y in nodes ==> (y in Subtree(nodes, rank, x) <==> Reaches(nodes, y, x))
    ensures x !in nodes ==> Subtree(nodes, rank, x) == {}
  {
    forall y | y in nodes
      ensures y in Subtree(nodes, rank, x) <==> Reaches(nodes, y, x)
    {
      OnChainIsReachability(nodes, rank, x, y);
    }
    if x !in nodes {
      forall y | y in nodes ensures !OnChain(nodes, rank, x, y) {
        ChainTargetIsLive(nodes, rank, x, y);
      }
      assert forall y :: y !in Subtree(nodes, rank, x);
    }
  }

  /** Children are the nodes whose parent reference names p; they are part of p's subtree. */
  lemma ChildrenInSubtree(nodes: Nodes, rank: map<int, nat>, p: int)
    requires Ranked(nodes, rank) && p in nodes
    ensures ChildrenOf(nodes, p) + {p} <= Subtree(nodes, rank, p)
  {
    forall c | c in ChildrenOf(nodes, p) ensures c in Subtree(nodes, rank, p) {
      assert OnChain(nodes, rank, p, nodes[c].parent.value);
    }
  }
}
