/** The representation invariant of an unfinalised builder and its
    preservation by one minimisation step, by `Minimize` and by `Grow`.

    The invariant says: the frontier stack mirrors `previous` (triple i carries
    `previous[i]` from frontier node i to frontier node i + 1, frontier node 0
    being the root); frontier nodes are distinct and unregistered; every edge
    not on the frontier path leads to a registered node, and below the top of
    the stack such an edge carries a symbol smaller than `previous` at that
    depth; each registry entry is the signature of its node; and registered
    nodes can be ranked so that every edge decreases the rank, which makes the
    registered part of the graph acyclic.
 */
module Invariant {
  import opened Order
  import opened Graph
  import opened Builder

  /** The root followed by the children of the stack entries, bottom first. */
  function FrontierFrom(root: nat, u: seq<Unchecked>): (f: seq<nat>)
    ensures |f| == |u| + 1 && f[0] == root
    ensures forall i :: 0 <= i < |u| ==> f[i + 1] == u[i].child
  {
    if |u| == 0 then [root] else FrontierFrom(root, u[..|u| - 1]) + [u[|u| - 1].child]
  }

  /** The frontier nodes, root first: entry i + 1 is the child of stack entry i. */
  function Frontier(d: Dawg): (f: seq<nat>)
    ensures |f| == |d.unchecked| + 1 && f[0] == d.root
    ensures forall i :: 0 <= i < |d.unchecked| ==> f[i + 1] == d.unchecked[i].child
  {
    FrontierFrom(d.root, d.unchecked)
  }

  /** The node a new path grows from: the top child of the stack, or the root. */
  function Top(d: Dawg): (n: nat)
    ensures n == Frontier(d)[|d.unchecked|]
  {
    if |d.unchecked| == 0 then d.root else d.unchecked[|d.unchecked| - 1].child
  }

  /** Popping the stack cuts the frontier to match. */
  lemma FrontierPrefix(d: Dawg, d': Dawg)
    requires d'.root == d.root && |d'.unchecked| <= |d.unchecked|
    requires d'.unchecked == d.unchecked[..|d'.unchecked|]
    ensures Frontier(d') == Frontier(d)[..|d'.unchecked| + 1]
  {
    var f, f' := Frontier(d), Frontier(d');
    forall i | 0 <= i < |f'| ensures f'[i] == f[i] {
      if i > 0 {
        assert f'[i] == d'.unchecked[i - 1].child;
      }
    }
  }

  ghost function Registered(d: Dawg): set<nat>
  {
    d.registry.Values
  }

  ghost predicate ArenaOk(d: Dawg)
  {
    && d.root in d.arena
    && Closed(d.arena)
    && (forall n :: n in d.arena ==> n < d.nextId && d.arena[n].id == n)
  }

  ghost predicate FrontierOk(d: Dawg)
  {
    var f := Frontier(d);
    && |d.unchecked| <= |d.previous|
    && (forall i {:trigger d.unchecked[i]} {:trigger d.previous[i]} :: 0 <= i < |d.unchecked| ==>
          d.unchecked[i].symbol == d.previous[i] && d.unchecked[i].parent == f[i])
    && (forall i :: 0 <= i < |f| ==> f[i] in d.arena && f[i] !in Registered(d))
    && (forall i :: 0 <= i < |d.unchecked| ==> f[i] < d.unchecked[i].child)
  }

  /** Node ids strictly increase along the frontier, so its nodes are
      distinct. */
  lemma {:induction false} FrontierIncreasing(d: Dawg, i: nat, j: nat)
    requires FrontierOk(d) && i < j <= |d.unchecked|
    ensures Frontier(d)[i] < Frontier(d)[j]
    decreases j
  {
    assert d.unchecked[j - 1].child == Frontier(d)[j];
    if i < j - 1 {
      FrontierIncreasing(d, i, j - 1);
    }
  }

  /** A frontier node sits at one depth only. */
  lemma FrontierIndexUnique(d: Dawg, i: nat, j: nat)
    requires FrontierOk(d) && i <= |d.unchecked| && j <= |d.unchecked|
    requires Frontier(d)[i] == Frontier(d)[j]
    ensures i == j
  {
    if i < j {
      FrontierIncreasing(d, i, j);
    } else if j < i {
      FrontierIncreasing(d, j, i);
    }
  }

  ghost predicate RegistryOk(d: Dawg)
  {
    forall k :: k in d.registry ==> d.registry[k] in d.arena && Encode(d.arena[d.registry[k]]) == k
  }

  /** Every edge off the frontier path leads to a registered node. */
  ghost predicate OffFrontierEdgesOk(d: Dawg)
  {
    var f := Frontier(d);
    forall n, s :: n in d.arena && n !in f && s in d.arena[n].edges ==> d.arena[n].edges[s] in Registered(d)
  }

  /** Below the top, frontier node i reaches node i + 1 over `previous[i]`,
      and its other edges carry smaller symbols to registered nodes. */
  ghost predicate LowerFrontierEdgesOk(d: Dawg)
    requires |d.unchecked| <= |d.previous|
  {
    var f := Frontier(d);
    && (forall i {:trigger d.previous[i]} {:trigger d.unchecked[i]} :: 0 <= i < |d.unchecked| ==>
          d.previous[i] in Get(d.arena, f[i]).edges && Get(d.arena, f[i]).edges[d.previous[i]] == d.unchecked[i].child)
    && (forall i, s :: 0 <= i < |d.unchecked| && s in Get(d.arena, f[i]).edges && s != d.previous[i] ==>
          Get(d.arena, f[i]).edges[s] in Registered(d) && SymbolLess(s, d.previous[i]))
  }

  /** The top's edges lead to registered nodes over symbols no greater than
      `previous` at its depth; a top as deep as `previous` has no edges. */
  ghost predicate TopEdgesOk(d: Dawg)
    requires |d.unchecked| <= |d.previous|
  {
    var k := |d.unchecked|;
    var edges := Get(d.arena, Top(d)).edges;
    && (forall s :: s in edges ==> edges[s] in Registered(d))
    && (k < |d.previous| ==> forall s :: s in edges ==> SymbolLess(s, d.previous[k]) || s == d.previous[k])
    && (k == |d.previous| ==> edges == map[])
  }

  ghost predicate EdgesOk(d: Dawg)
  {
    |d.unchecked| <= |d.previous| && OffFrontierEdgesOk(d) && LowerFrontierEdgesOk(d) && TopEdgesOk(d)
  }

  /** Registered nodes are ranked; every edge out of a registered node leads
      to a registered node of smaller rank. */
  ghost predicate RankOk(d: Dawg, rank: map<nat, nat>)
  {
    && rank.Keys == Registered(d)
    && (forall r :: r in rank ==> rank[r] < |rank|)
    && (forall r, s :: r in rank && s in Get(d.arena, r).edges ==>
          Get(d.arena, r).edges[s] in rank && rank[Get(d.arena, r).edges[s]] < rank[r])
  }

  ghost predicate Inv(d: Dawg, rank: map<nat, nat>)
  {
    !d.finalized && ArenaOk(d) && FrontierOk(d) && RegistryOk(d) && EdgesOk(d) && RankOk(d, rank)
  }

  /** Every registered node keeps its place in the registry and its contents. */
  ghost predicate RegisteredKept(d: Dawg, d': Dawg)
  {
    && Registered(d) <= Registered(d')
    && forall r :: r in Registered(d) ==> r in d'.arena && r in d.arena && d'.arena[r] == d.arena[r]
  }

  ghost predicate SameLanguage(d: Dawg, d': Dawg)
  {
    forall q :: Accepts(d'.arena, d'.root, q) <==> Accepts(d.arena, d.root, q)
  }

  lemma InvNew()
    ensures Inv(New(), map[])
  {
    var d := New();
    assert Frontier(d) == [0];
  }

  lemma ValuesAdd(m: map<Signature, nat>, k: Signature, v: nat)
    requires k !in m
    ensures m[k := v].Values == m.Values + {v}
  {
    var m' := m[k := v];
    forall x | x in m'.Values ensures x in m.Values + {v} {
      var k' :| k' in m' && m'[k'] == x;
      if k' != k {
        assert m[k'] == x;
      }
    }
    forall x | x in m.Values + {v} ensures x in m'.Values {
      if x == v {
        assert m'[k] == v;
      } else {
        var k' :| k' in m && m[k'] == x;
        assert m'[k'] == x;
      }
    }
  }

  /** `d'` is `d` with the top triple popped and nothing else of the
      bookkeeping changed. */
  ghost predicate Popped(d: Dawg, d': Dawg)
  {
    && |d.unchecked| > 0
    && d'.unchecked == d.unchecked[..|d.unchecked| - 1]
    && d'.root == d.root && d'.previous == d.previous
    && d'.nextId == d.nextId && d'.finalized == d.finalized
  }

  lemma PopFrontierOk(d: Dawg, d': Dawg)
    requires Popped(d, d') && FrontierOk(d)
    requires d'.arena.Keys == d.arena.Keys
    requires Registered(d') <= Registered(d) + {Top(d)}
    ensures FrontierOk(d')
  {
    var k := |d.unchecked|;
    var f, f' := Frontier(d), Frontier(d');
    FrontierPrefix(d, d');
    forall i | 0 <= i < k - 1
      ensures d'.unchecked[i].symbol == d'.previous[i] && d'.unchecked[i].parent == f'[i] && f'[i] < d'.unchecked[i].child
    {
      assert d'.unchecked[i] == d.unchecked[i] && f'[i] == f[i];
    }
    forall i | 0 <= i < k ensures f'[i] in d'.arena && f'[i] !in Registered(d') {
      FrontierIncreasing(d, i, k);
      assert f'[i] == f[i] && f[i] != Top(d);
    }
  }

  lemma PopOffFrontierOk(d: Dawg, d': Dawg)
    requires Popped(d, d') && FrontierOk(d) && OffFrontierEdgesOk(d) && |d.unchecked| <= |d.previous| && TopEdgesOk(d)
    requires Registered(d) <= Registered(d')
    requires d'.arena.Keys == d.arena.Keys
    requires forall n :: n in d.arena && n != Frontier(d)[|d.unchecked| - 1] ==> d'.arena[n] == d.arena[n]
    ensures OffFrontierEdgesOk(d')
  {
    var k := |d.unchecked|;
    var f, f' := Frontier(d), Frontier(d');
    FrontierPrefix(d, d');
    assert f'[k - 1] == f[k - 1];
    forall n, s | n in d'.arena && n !in f' && s in d'.arena[n].edges
      ensures d'.arena[n].edges[s] in Registered(d')
    {
      assert n != f[k - 1];
      assert d'.arena[n] == d.arena[n];
      if n == f[k] {
        assert n == Top(d);
      } else {
        forall i | 0 <= i < |f| ensures f[i] != n {
          if i < k {
            assert f[i] == f'[i];
          }
        }
        assert n !in f;
      }
    }
  }

  lemma PopLowerOk(d: Dawg, d': Dawg)
    requires Popped(d, d') && FrontierOk(d) && |d.unchecked| <= |d.previous| && LowerFrontierEdgesOk(d)
    requires Registered(d) <= Registered(d')
    requires forall n :: n != Frontier(d)[|d.unchecked| - 1] ==> Get(d'.arena, n) == Get(d.arena, n)
    ensures LowerFrontierEdgesOk(d')
  {
    var k := |d.unchecked|;
    var prev := d.previous;
    var f, f' := Frontier(d), Frontier(d');
    FrontierPrefix(d, d');
    forall i | 0 <= i < k - 1
      ensures prev[i] in Get(d'.arena, f'[i]).edges && Get(d'.arena, f'[i]).edges[prev[i]] == d'.unchecked[i].child
    {
      FrontierIncreasing(d, i, k - 1);
      assert f'[i] == f[i] && d'.unchecked[i] == d.unchecked[i];
      assert prev[i] in Get(d.arena, f[i]).edges && Get(d.arena, f[i]).edges[prev[i]] == d.unchecked[i].child;
    }
    forall i, s | 0 <= i < k - 1 && s in Get(d'.arena, f'[i]).edges && s != prev[i]
      ensures Get(d'.arena, f'[i]).edges[s] in Registered(d') && SymbolLess(s, prev[i])
    {
      FrontierIncreasing(d, i, k - 1);
      assert f'[i] == f[i];
      assert s in Get(d.arena, f[i]).edges && prev[i] == d.previous[i];
    }
  }

  lemma PopTopOk(d: Dawg, d': Dawg, x: nat)
    requires Popped(d, d') && |d.unchecked| <= |d.previous| && LowerFrontierEdgesOk(d)
    requires Registered(d) <= Registered(d') && x in Registered(d')
    requires var k := |d.unchecked|; var t := Frontier(d)[k - 1];
      Get(d'.arena, t).edges == Get(d.arena, t).edges[d.previous[k - 1] := x]
    ensures TopEdgesOk(d')
  {
    FrontierPrefix(d, d');
  }

  /** The redirect case of a minimisation step: the names of its parts. */
  ghost predicate RedirectCase(d: Dawg, rank: map<nat, nat>)
  {
    Inv(d, rank) && |d.unchecked| > 0 && Encode(Get(d.arena, Top(d))) in d.registry
  }

  lemma RedirectShape(d: Dawg, rank: map<nat, nat>)
    requires RedirectCase(d, rank)
    ensures var k := |d.unchecked|; var p := Frontier(d)[k - 1];
      var e := d.registry[Encode(Get(d.arena, Top(d)))];
      && p in d.arena && p !in Registered(d) && e in Registered(d)
      && d.unchecked[k - 1].parent == p && d.unchecked[k - 1].symbol == d.previous[k - 1]
      && MinimizeStep(d).arena == d.arena[p := d.arena[p].(edges := d.arena[p].edges[d.previous[k - 1] := e])]
      && MinimizeStep(d).registry == d.registry
      && Popped(d, MinimizeStep(d))
  {
  }

  lemma ArenaUpdateOk(d: Dawg, d': Dawg, p: nat, node: Node)
    requires ArenaOk(d) && p in d.arena && node.id == p
    requires forall s :: s in node.edges ==> node.edges[s] in d.arena
    requires d'.arena == d.arena[p := node] && d'.root == d.root && d'.nextId == d.nextId
    ensures ArenaOk(d')
  {
  }

  lemma RegistryFrame(d: Dawg, d': Dawg)
    requires RegistryOk(d) && d'.registry == d.registry
    requires forall r :: r in Registered(d) ==> r in d'.arena && d'.arena[r] == d.arena[r]
    ensures RegistryOk(d')
  {
    forall key | key in d'.registry ensures d'.registry[key] in d'.arena && Encode(d'.arena[d'.registry[key]]) == key {
      assert d.registry[key] in Registered(d);
    }
  }

  lemma RankFrame(d: Dawg, d': Dawg, rank: map<nat, nat>)
    requires RankOk(d, rank) && Registered(d') == Registered(d)
    requires forall r :: r in Registered(d) ==> r in d'.arena && r in d.arena && d'.arena[r] == d.arena[r]
    ensures RankOk(d', rank)
  {
    forall r | r in rank ensures Get(d'.arena, r) == Get(d.arena, r) {
    }
  }

  lemma RedirectBookkeeping(d: Dawg, rank: map<nat, nat>)
    requires RedirectCase(d, rank)
    ensures ArenaOk(MinimizeStep(d)) && FrontierOk(MinimizeStep(d))
    ensures MinimizeStep(d).arena.Keys == d.arena.Keys
  {
    RedirectShape(d, rank);
    var k := |d.unchecked|;
    var p := Frontier(d)[k - 1];
    var e := d.registry[Encode(Get(d.arena, Top(d)))];
    var node := d.arena[p].(edges := d.arena[p].edges[d.previous[k - 1] := e]);
    ArenaUpdateOk(d, MinimizeStep(d), p, node);
    PopFrontierOk(d, MinimizeStep(d));
  }

  lemma RedirectRegistry(d: Dawg, rank: map<nat, nat>)
    requires RedirectCase(d, rank)
    ensures RegistryOk(MinimizeStep(d)) && RankOk(MinimizeStep(d), rank) && RegisteredKept(d, MinimizeStep(d))
  {
    RedirectShape(d, rank);
    var d' := MinimizeStep(d);
    var p := Frontier(d)[|d.unchecked| - 1];
    assert forall r :: r in Registered(d) ==> r != p;
    assert forall r :: r in Registered(d) ==> r in d'.arena && r in d.arena && d'.arena[r] == d.arena[r];
    RegistryFrame(d, d');
    RankFrame(d, d', rank);
  }

  lemma RedirectOffFrontier(d: Dawg, rank: map<nat, nat>)
    requires RedirectCase(d, rank)
    ensures OffFrontierEdgesOk(MinimizeStep(d))
  {
    RedirectShape(d, rank);
    PopOffFrontierOk(d, MinimizeStep(d));
  }

  lemma RedirectLower(d: Dawg, rank: map<nat, nat>)
    requires RedirectCase(d, rank)
    ensures LowerFrontierEdgesOk(MinimizeStep(d))
  {
    RedirectShape(d, rank);
    var d' := MinimizeStep(d);
    var p := Frontier(d)[|d.unchecked| - 1];
    assert forall n :: n != p ==> Get(d'.arena, n) == Get(d.arena, n);
    PopLowerOk(d, d');
  }

  lemma RedirectTop(d: Dawg, rank: map<nat, nat>)
    requires RedirectCase(d, rank)
    ensures TopEdgesOk(MinimizeStep(d))
  {
    RedirectShape(d, rank);
    PopTopOk(d, MinimizeStep(d), d.registry[Encode(Get(d.arena, Top(d)))]);
  }

  lemma RedirectEdges(d: Dawg, rank: map<nat, nat>)
    requires RedirectCase(d, rank)
    ensures EdgesOk(MinimizeStep(d))
  {
    RedirectOffFrontier(d, rank);
    RedirectLower(d, rank);
    RedirectTop(d, rank);
  }

  lemma RedirectLanguage(d: Dawg, rank: map<nat, nat>)
    requires RedirectCase(d, rank)
    ensures SameLanguage(d, MinimizeStep(d))
  {
    RedirectShape(d, rank);
    var k := |d.unchecked|;
    var p, s, c := Frontier(d)[k - 1], d.previous[k - 1], Top(d);
    var e := d.registry[Encode(Get(d.arena, c))];
    assert Get(d.arena, p).edges[s] == c;
    forall q ensures Accepts(MinimizeStep(d).arena, d.root, q) <==> Accepts(d.arena, d.root, q) {
      RedirectPreservesAccepts(d.arena, p, s, c, e, d.root, q);
    }
  }

  /** The register case of a minimisation step. */
  ghost predicate RegisterCase(d: Dawg, rank: map<nat, nat>)
  {
    Inv(d, rank) && |d.unchecked| > 0 && Encode(Get(d.arena, Top(d))) !in d.registry
  }

  lemma RegisterShape(d: Dawg, rank: map<nat, nat>)
    requires RegisterCase(d, rank)
    ensures var c := Top(d);
      && c in d.arena && c !in Registered(d)
      && MinimizeStep(d).arena == d.arena
      && MinimizeStep(d).registry == d.registry[Encode(Get(d.arena, c)) := c]
      && Registered(MinimizeStep(d)) == Registered(d) + {c}
      && Popped(d, MinimizeStep(d))
  {
    ValuesAdd(d.registry, Encode(Get(d.arena, Top(d))), Top(d));
  }

  lemma RegisterRegistryOk(d: Dawg, d': Dawg, c: nat)
    requires RegistryOk(d) && c in d.arena && Encode(d.arena[c]) !in d.registry
    requires d'.arena == d.arena && d'.registry == d.registry[Encode(d.arena[c]) := c]
    ensures RegistryOk(d')
  {
    var key := Encode(d.arena[c]);
    forall k | k in d'.registry ensures d'.registry[k] in d'.arena && Encode(d'.arena[d'.registry[k]]) == k {
      if k != key {
        assert d'.registry[k] == d.registry[k];
      }
    }
  }

  /** Registering `c`, whose edges all lead to registered nodes, ranks it
      above every node registered before. */
  lemma RegisterRankOk(d: Dawg, d': Dawg, rank: map<nat, nat>, c: nat) returns (rank': map<nat, nat>)
    requires RankOk(d, rank) && c !in Registered(d)
    requires Registered(d') == Registered(d) + {c} && d'.arena == d.arena
    requires forall s :: s in Get(d.arena, c).edges ==> Get(d.arena, c).edges[s] in Registered(d)
    ensures RankOk(d', rank')
  {
    rank' := rank[c := |rank|];
    assert |rank'| == |rank| + 1;
    forall r | r in rank' ensures rank'[r] < |rank'| {
      if r != c {
        assert rank'[r] == rank[r];
      }
    }
    forall r, s | r in rank' && s in Get(d'.arena, r).edges
      ensures Get(d'.arena, r).edges[s] in rank' && rank'[Get(d'.arena, r).edges[s]] < rank'[r]
    {
      var t := Get(d.arena, r).edges[s];
      assert t in rank;
      assert t != c;
      if r != c {
        assert rank[t] < rank[r];
      }
    }
  }

  lemma RegisterBookkeeping(d: Dawg, rank: map<nat, nat>) returns (rank': map<nat, nat>)
    requires RegisterCase(d, rank)
    ensures ArenaOk(MinimizeStep(d)) && FrontierOk(MinimizeStep(d)) && RegistryOk(MinimizeStep(d))
    ensures RankOk(MinimizeStep(d), rank') && RegisteredKept(d, MinimizeStep(d))
    ensures MinimizeStep(d).arena.Keys == d.arena.Keys
  {
    RegisterShape(d, rank);
    var d' := MinimizeStep(d);
    var c := Top(d);
    PopFrontierOk(d, d');
    RegisterRegistryOk(d, d', c);
    assert forall s :: s in Get(d.arena, c).edges ==> Get(d.arena, c).edges[s] in Registered(d);
    rank' := RegisterRankOk(d, d', rank, c);
  }

  lemma RegisterOffFrontier(d: Dawg, rank: map<nat, nat>)
    requires RegisterCase(d, rank)
    ensures OffFrontierEdgesOk(MinimizeStep(d))
  {
    RegisterShape(d, rank);
    PopOffFrontierOk(d, MinimizeStep(d));
  }

  lemma RegisterLower(d: Dawg, rank: map<nat, nat>)
    requires RegisterCase(d, rank)
    ensures LowerFrontierEdgesOk(MinimizeStep(d))
  {
    RegisterShape(d, rank);
    PopLowerOk(d, MinimizeStep(d));
  }

  lemma MapUpdateSame<K, V>(m: map<K, V>, k: K, v: V)
    requires k in m && m[k] == v
    ensures m[k := v] == m
  {
  }

  lemma RegisterTop(d: Dawg, d': Dawg)
    requires Popped(d, d') && |d.unchecked| <= |d.previous| && LowerFrontierEdgesOk(d)
    requires d'.arena == d.arena && Registered(d) <= Registered(d') && Top(d) in Registered(d')
    ensures TopEdgesOk(d')
  {
    var k := |d.unchecked|;
    var t, s := Frontier(d)[k - 1], d.previous[k - 1];
    assert s in Get(d.arena, t).edges && Get(d.arena, t).edges[s] == Frontier(d)[k];
    MapUpdateSame(Get(d.arena, t).edges, s, Top(d));
    PopTopOk(d, d', Top(d));
  }

  lemma RegisterEdges(d: Dawg, rank: map<nat, nat>)
    requires RegisterCase(d, rank)
    ensures EdgesOk(MinimizeStep(d))
  {
    RegisterOffFrontier(d, rank);
    RegisterLower(d, rank);
    RegisterShape(d, rank);
    RegisterTop(d, MinimizeStep(d));
  }

  lemma StepInv(d: Dawg, rank: map<nat, nat>) returns (rank': map<nat, nat>)
    requires Inv(d, rank) && |d.unchecked| > 0
    ensures Inv(MinimizeStep(d), rank')
    ensures MinimizeStep(d).arena.Keys == d.arena.Keys
  {
    if Encode(Get(d.arena, Top(d))) in d.registry {
      RedirectBookkeeping(d, rank);
      RedirectRegistry(d, rank);
      RedirectEdges(d, rank);
      rank' := rank;
    } else {
      rank' := RegisterBookkeeping(d, rank);
      RegisterEdges(d, rank);
    }
  }

  lemma StepPreserves(d: Dawg, rank: map<nat, nat>)
    requires Inv(d, rank) && |d.unchecked| > 0
    ensures RegisteredKept(d, MinimizeStep(d)) && SameLanguage(d, MinimizeStep(d))
  {
    if Encode(Get(d.arena, Top(d))) in d.registry {
      RedirectRegistry(d, rank);
      RedirectLanguage(d, rank);
    } else {
      var _ := RegisterBookkeeping(d, rank);
      RegisterShape(d, rank);
    }
  }

  /** `Minimize` keeps the invariant and the set of allocated ids. */
  lemma {:induction false} MinimizeInv(d: Dawg, rank: map<nat, nat>, downTo: nat) returns (rank': map<nat, nat>)
    requires Inv(d, rank)
    ensures Inv(Minimize(d, downTo), rank')
    ensures Minimize(d, downTo).arena.Keys == d.arena.Keys
    decreases |d.unchecked|
  {
    if |d.unchecked| <= downTo {
      assert Minimize(d, downTo) == d;
      rank' := rank;
    } else {
      assert Minimize(d, downTo) == Minimize(MinimizeStep(d), downTo);
      var r1 := StepInv(d, rank);
      rank' := MinimizeInv(MinimizeStep(d), r1, downTo);
    }
  }

  /** `Minimize` never changes the accepted paths and never changes a
      registered node. */
  lemma {:induction false} MinimizePreserves(d: Dawg, rank: map<nat, nat>, downTo: nat)
    requires Inv(d, rank)
    ensures RegisteredKept(d, Minimize(d, downTo)) && SameLanguage(d, Minimize(d, downTo))
    decreases |d.unchecked|
  {
    if |d.unchecked| > downTo {
      var d1 := MinimizeStep(d);
      var r1 := StepInv(d, rank);
      StepPreserves(d, rank);
      MinimizePreserves(d1, r1, downTo);
      var m := Minimize(d1, downTo);
      assert Minimize(d, downTo) == m;
      forall q ensures Accepts(m.arena, m.root, q) <==> Accepts(d.arena, d.root, q) {
        assert Accepts(d1.arena, d1.root, q) <==> Accepts(d.arena, d.root, q);
      }
      forall r | r in Registered(d) ensures r in m.arena && r in d.arena && m.arena[r] == d.arena[r] {
        assert r in Registered(d1);
      }
    }
  }
}
