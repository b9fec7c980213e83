/** Freezing the builder: the accepted paths do not change, and in the frozen
    graph no two reachable states share a final flag and an edge map.
 */
module Finalizing {
  import opened Order
  import opened Graph
  import opened Builder
  import opened Invariant
  import opened Adding

  ghost predicate Reachable(a: Arena, root: nat, n: nat)
  {
    exists q :: Walk(a, root, q) == Some(n)
  }

  /** No two distinct reachable states are interchangeable: each has its own
      signature. */
  ghost predicate Minimal(d: Dawg)
  {
    forall n1: nat, n2: nat :: Reachable(d.arena, d.root, n1) && Reachable(d.arena, d.root, n2) && n1 != n2 ==>
      Encode(Get(d.arena, n1)) != Encode(Get(d.arena, n2))
  }

  /** With the frontier empty, every state reachable from the root is the
      root itself or a registered state. */
  lemma {:induction false} ReachableRootOrRegistered(m: Dawg, q: Path)
    requires ArenaOk(m) && FrontierOk(m) && EdgesOk(m) && |m.unchecked| == 0
    ensures Walk(m.arena, m.root, q).Some? ==>
      Walk(m.arena, m.root, q).value == m.root || Walk(m.arena, m.root, q).value in Registered(m)
    decreases |q|
  {
    if |q| > 0 {
      var q', s := q[..|q| - 1], q[|q| - 1];
      PrefixSnoc(q, |q|);
      assert q[..|q|] == q;
      WalkSnoc(m.arena, m.root, q', s);
      ReachableRootOrRegistered(m, q');
      WalkInArena(m.arena, m.root, q');
      if Walk(m.arena, m.root, q').Some? {
        var n := Walk(m.arena, m.root, q').value;
        if n != m.root && s in Get(m.arena, n).edges {
          assert Frontier(m) == [m.root];
          assert m.arena[n].edges[s] in Registered(m);
        }
      }
    }
  }

  /** Walking from a ranked state never reaches a higher rank. */
  lemma {:induction false} RankAlongWalk(m: Dawg, rank: map<nat, nat>, n: nat, q: Path)
    requires RankOk(m, rank) && n in rank && Walk(m.arena, n, q).Some?
    ensures Walk(m.arena, n, q).value in rank && rank[Walk(m.arena, n, q).value] <= rank[n]
    decreases |q|
  {
    if |q| > 0 {
      var c := Get(m.arena, n).edges[q[0]];
      RankAlongWalk(m, rank, c, q[1..]);
    }
  }

  /** No registered state reachable from the root has the root's signature:
      its first edge would close a cycle through the registered states. */
  lemma RootUnlikeRegistered(m: Dawg, rank: map<nat, nat>, r: nat, q: Path)
    requires RankOk(m, rank) && r in Registered(m) && r != m.root
    requires Walk(m.arena, m.root, q) == Some(r)
    ensures Encode(Get(m.arena, m.root)) != Encode(Get(m.arena, r))
  {
    if Encode(Get(m.arena, m.root)) == Encode(Get(m.arena, r)) {
      assert |q| > 0;
      var x := Get(m.arena, m.root).edges[q[0]];
      assert Get(m.arena, r).edges[q[0]] == x;
      RankAlongWalk(m, rank, x, q[1..]);
      assert false;
    }
  }

  lemma MinimizedMinimal(m: Dawg, rank: map<nat, nat>)
    requires Inv(m, rank) && |m.unchecked| == 0
    ensures Minimal(m)
  {
    forall n1: nat, n2: nat | Reachable(m.arena, m.root, n1) && Reachable(m.arena, m.root, n2) && n1 != n2
      ensures Encode(Get(m.arena, n1)) != Encode(Get(m.arena, n2))
    {
      var q1 :| Walk(m.arena, m.root, q1) == Some(n1);
      var q2 :| Walk(m.arena, m.root, q2) == Some(n2);
      ReachableRootOrRegistered(m, q1);
      ReachableRootOrRegistered(m, q2);
      if n1 == m.root {
        RootUnlikeRegistered(m, rank, n2, q2);
      } else if n2 == m.root {
        RootUnlikeRegistered(m, rank, n1, q1);
      } else {
        var k1 :| k1 in m.registry && m.registry[k1] == n1;
        var k2 :| k2 in m.registry && m.registry[k2] == n2;
      }
    }
  }

  /** Freezing keeps the accepted paths and the count, and leaves a graph in
      which every reachable state has its own signature. */
  lemma FinalizeSpec(d: Dawg, rank: map<nat, nat>)
    requires Inv(d, rank)
    ensures Finalize(d).finalized && Finalize(d).count == d.count
    ensures SameLanguage(d, Finalize(d))
    ensures Minimal(Finalize(d))
  {
    var rank' := MinimizeInv(d, rank, 0);
    MinimizePreserves(d, rank, 0);
    var m := Minimize(d, 0);
    MinimizedMinimal(m, rank');
    assert Finalize(d).arena == m.arena && Finalize(d).root == m.root;
  }
}
