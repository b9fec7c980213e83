/** Preservation of the builder invariant by the growing half of `Add`, and
    the effect of one insertion on the accepted paths.
 */
module Insertion {
  import opened Order
  import opened Graph
  import opened Builder
  import opened Invariant

  /** The frontier is shorter than `previous` and the top has no edge over
      `previous` at its depth or any later symbol: a fresh node can be
      linked there without overwriting an edge. */
  ghost predicate GrowReady(d: Dawg)
  {
    && |d.unchecked| < |d.previous|
    && forall s :: s in Get(d.arena, Top(d)).edges ==> SymbolLess(s, d.previous[|d.unchecked|])
  }

  /** Pushing a triple extends the frontier by its child. */
  lemma FrontierPush(d: Dawg, d': Dawg, y: nat)
    requires d'.root == d.root && |d'.unchecked| == |d.unchecked| + 1
    requires d'.unchecked[..|d.unchecked|] == d.unchecked && d'.unchecked[|d.unchecked|].child == y
    ensures Frontier(d') == Frontier(d) + [y]
  {
    var f, f' := Frontier(d), Frontier(d');
    forall i | 0 <= i < |f'| ensures f'[i] == (f + [y])[i] {
      if 0 < i <= |d.unchecked| {
        assert d'.unchecked[i - 1] == d.unchecked[i - 1];
      }
    }
  }

  ghost predicate ExtendCase(d: Dawg, rank: map<nat, nat>)
  {
    Inv(d, rank) && GrowReady(d)
  }

  function ExtendTop(d: Dawg): Dawg
    requires |d.unchecked| < |d.previous|
  {
    Extend(d, Top(d), d.previous[|d.unchecked|])
  }

  lemma ExtendShape(d: Dawg, rank: map<nat, nat>)
    requires ExtendCase(d, rank)
    ensures var x, y, s := Top(d), d.nextId, d.previous[|d.unchecked|];
      && x in d.arena && y !in d.arena && x !in Registered(d) && s !in d.arena[x].edges
      && y !in Registered(d) && x < y
      && ExtendTop(d).arena == d.arena[x := d.arena[x].(edges := d.arena[x].edges[s := y])][y := CreateEmptyNode(y)]
      && Frontier(ExtendTop(d)) == Frontier(d) + [y]
      && Registered(ExtendTop(d)) == Registered(d)
      && ExtendTop(d).previous == d.previous
      && |ExtendTop(d).unchecked| == |d.unchecked| + 1
  {
    var s := d.previous[|d.unchecked|];
    CompareSymbolsZero(s, s);
    var d' := ExtendTop(d);
    FrontierPush(d, d', d.nextId);
  }

  lemma ArenaExtendOk(d: Dawg, d': Dawg, x: nat, s: Symbol)
    requires ArenaOk(d) && x in d.arena
    requires d'.arena == d.arena[x := d.arena[x].(edges := d.arena[x].edges[s := d.nextId])][d.nextId := CreateEmptyNode(d.nextId)]
    requires d'.root == d.root && d'.nextId == d.nextId + 1
    ensures ArenaOk(d')
  {
  }

  /** What one growth step does to the state, by name. */
  ghost predicate ExtendFacts(d: Dawg, d': Dawg, x: nat, y: nat, s: Symbol)
  {
    && |d.unchecked| < |d.previous|
    && x == Top(d) && y == d.nextId && s == d.previous[|d.unchecked|]
    && x in d.arena && y !in d.arena && x !in Registered(d) && s !in d.arena[x].edges
    && y !in Registered(d) && x < y
    && d'.arena.Keys == d.arena.Keys + {y}
    && (forall n :: n != x && n != y ==> Get(d'.arena, n) == Get(d.arena, n))
    && Get(d'.arena, x).edges == Get(d.arena, x).edges[s := y]
    && Get(d'.arena, y).edges == map[]
    && Frontier(d') == Frontier(d) + [y]
    && Registered(d') == Registered(d)
    && d'.previous == d.previous && d'.root == d.root && d'.nextId == y + 1
    && d'.unchecked == d.unchecked + [Unchecked(x, s, y)]
  }

  lemma ExtendFrontierOk(d: Dawg, d': Dawg, x: nat, y: nat, s: Symbol)
    requires ExtendFacts(d, d', x, y, s) && FrontierOk(d)
    ensures FrontierOk(d')
  {
    var k := |d.unchecked|;
    var f, f' := Frontier(d), Frontier(d');
    forall i | 0 <= i < |d'.unchecked|
      ensures d'.unchecked[i].symbol == d'.previous[i] && d'.unchecked[i].parent == f'[i] && f'[i] < d'.unchecked[i].child
    {
      if i < k {
        assert d'.unchecked[i] == d.unchecked[i];
      }
    }
    forall i | 0 <= i < |f'| ensures f'[i] in d'.arena && f'[i] !in Registered(d') {
      if i < |f| {
        assert f'[i] == f[i];
      }
    }
  }

  lemma ExtendOffFrontierOk(d: Dawg, d': Dawg, x: nat, y: nat, s: Symbol)
    requires ExtendFacts(d, d', x, y, s) && OffFrontierEdgesOk(d)
    ensures OffFrontierEdgesOk(d')
  {
    var f := Frontier(d);
    assert x == f[|d.unchecked|];
    forall n, s' | n in d'.arena && n !in Frontier(d') && s' in d'.arena[n].edges
      ensures d'.arena[n].edges[s'] in Registered(d')
    {
      assert n != x && n != y && n !in f;
      assert n in d.arena && d'.arena[n] == Get(d'.arena, n) == Get(d.arena, n) == d.arena[n];
    }
  }

  /** Below the old top nothing changes. */
  lemma ExtendLowerNode(d: Dawg, d': Dawg, x: nat, y: nat, s: Symbol, i: nat)
    requires ExtendFacts(d, d', x, y, s) && FrontierOk(d) && i < |d.unchecked|
    ensures Frontier(d')[i] == Frontier(d)[i] && d'.unchecked[i] == d.unchecked[i]
    ensures Get(d'.arena, Frontier(d)[i]) == Get(d.arena, Frontier(d)[i])
  {
    var k := |d.unchecked|;
    FrontierIncreasing(d, i, k);
    assert Frontier(d)[i] != y;
  }

  /** The old top and the new node are the last two frontier entries. */
  lemma ExtendTopNodes(d: Dawg, d': Dawg, x: nat, y: nat, s: Symbol)
    requires ExtendFacts(d, d', x, y, s)
    ensures Frontier(d')[|d.unchecked|] == x && Frontier(d')[|d.unchecked| + 1] == y
    ensures d'.previous[|d.unchecked|] == s
  {
    var k := |d.unchecked|;
    var f := Frontier(d);
    assert f[k] == x;
    assert (f + [y])[k] == f[k] && (f + [y])[k + 1] == y;
  }

  /** A frontier link below the old top carries over unchanged. */
  lemma LinkTransfer(d: Dawg, d': Dawg, i: nat)
    requires |d.unchecked| <= |d.previous| && LowerFrontierEdgesOk(d) && i < |d.unchecked|
    requires d'.previous == d.previous && i < |d'.unchecked| <= |d'.previous|
    requires Frontier(d')[i] == Frontier(d)[i] && d'.unchecked[i] == d.unchecked[i]
    requires Get(d'.arena, Frontier(d)[i]) == Get(d.arena, Frontier(d)[i])
    ensures d'.previous[i] in Get(d'.arena, Frontier(d')[i]).edges
    ensures Get(d'.arena, Frontier(d')[i]).edges[d'.previous[i]] == d'.unchecked[i].child
  {
    var f := Frontier(d);
    assert d.previous[i] in Get(d.arena, f[i]).edges && Get(d.arena, f[i]).edges[d.previous[i]] == d.unchecked[i].child;
  }

  lemma ExtendLinkAt(d: Dawg, d': Dawg, x: nat, y: nat, s: Symbol, i: nat)
    requires ExtendFacts(d, d', x, y, s) && FrontierOk(d) && LowerFrontierEdgesOk(d) && i < |d'.unchecked|
    ensures d'.previous[i] in Get(d'.arena, Frontier(d')[i]).edges
    ensures Get(d'.arena, Frontier(d')[i]).edges[d'.previous[i]] == d'.unchecked[i].child
  {
    if i < |d.unchecked| {
      ExtendLowerNode(d, d', x, y, s, i);
      LinkTransfer(d, d', i);
    } else {
      assert i == |d.unchecked|;
      ExtendTopNodes(d, d', x, y, s);
      assert s in Get(d'.arena, x).edges && Get(d'.arena, x).edges[s] == y;
    }
  }

  lemma ExtendLowerLinks(d: Dawg, d': Dawg, x: nat, y: nat, s: Symbol)
    requires ExtendFacts(d, d', x, y, s) && FrontierOk(d) && LowerFrontierEdgesOk(d)
    ensures forall i :: 0 <= i < |d'.unchecked| ==>
      d'.previous[i] in Get(d'.arena, Frontier(d')[i]).edges && Get(d'.arena, Frontier(d')[i]).edges[d'.previous[i]] == d'.unchecked[i].child
  {
    forall i | 0 <= i < |d'.unchecked|
      ensures d'.previous[i] in Get(d'.arena, Frontier(d')[i]).edges
      ensures Get(d'.arena, Frontier(d')[i]).edges[d'.previous[i]] == d'.unchecked[i].child
    {
      ExtendLinkAt(d, d', x, y, s, i);
    }
  }

  /** An edge other than the updated one keeps its target. */
  lemma UpdatedOther(e: map<Symbol, nat>, s: Symbol, y: nat, t: Symbol, r: set<nat>)
    requires t in e[s := y] && t != s
    requires forall u :: u in e ==> e[u] in r && SymbolLess(u, s)
    ensures e[s := y][t] in r && SymbolLess(t, s)
  {
    assert t in e;
  }

  /** A side edge below the old top carries over unchanged. */
  lemma OtherTransfer(d: Dawg, d': Dawg, i: nat, t: Symbol)
    requires |d.unchecked| <= |d.previous| && LowerFrontierEdgesOk(d) && i < |d.unchecked|
    requires d'.previous == d.previous && Registered(d') == Registered(d) && i < |d'.unchecked|
    requires Frontier(d')[i] == Frontier(d)[i]
    requires Get(d'.arena, Frontier(d)[i]) == Get(d.arena, Frontier(d)[i])
    requires t in Get(d'.arena, Frontier(d')[i]).edges && t != d'.previous[i]
    ensures Get(d'.arena, Frontier(d')[i]).edges[t] in Registered(d') && SymbolLess(t, d'.previous[i])
  {
    var f := Frontier(d);
    assert t in Get(d.arena, f[i]).edges && t != d.previous[i];
  }

  lemma ExtendOtherAt(d: Dawg, d': Dawg, x: nat, y: nat, s: Symbol, i: nat, t: Symbol)
    requires ExtendFacts(d, d', x, y, s) && FrontierOk(d) && LowerFrontierEdgesOk(d) && GrowReady(d)
    requires forall s' :: s' in Get(d.arena, x).edges ==> Get(d.arena, x).edges[s'] in Registered(d)
    requires i < |d'.unchecked| && t in Get(d'.arena, Frontier(d')[i]).edges && t != d'.previous[i]
    ensures Get(d'.arena, Frontier(d')[i]).edges[t] in Registered(d') && SymbolLess(t, d'.previous[i])
  {
    if i < |d.unchecked| {
      ExtendLowerNode(d, d', x, y, s, i);
      OtherTransfer(d, d', i, t);
    } else {
      assert i == |d.unchecked|;
      ExtendTopNodes(d, d', x, y, s);
      assert forall u :: u in Get(d.arena, x).edges ==> SymbolLess(u, s);
      UpdatedOther(Get(d.arena, x).edges, s, y, t, Registered(d));
    }
  }

  lemma ExtendLowerOthers(d: Dawg, d': Dawg, x: nat, y: nat, s: Symbol)
    requires ExtendFacts(d, d', x, y, s) && FrontierOk(d) && LowerFrontierEdgesOk(d) && GrowReady(d)
    requires forall s' :: s' in Get(d.arena, x).edges ==> Get(d.arena, x).edges[s'] in Registered(d)
    ensures forall i, s' :: 0 <= i < |d'.unchecked| && s' in Get(d'.arena, Frontier(d')[i]).edges && s' != d'.previous[i] ==>
      Get(d'.arena, Frontier(d')[i]).edges[s'] in Registered(d') && SymbolLess(s', d'.previous[i])
  {
    forall i, s' | 0 <= i < |d'.unchecked| && s' in Get(d'.arena, Frontier(d')[i]).edges && s' != d'.previous[i]
      ensures Get(d'.arena, Frontier(d')[i]).edges[s'] in Registered(d') && SymbolLess(s', d'.previous[i])
    {
      ExtendOtherAt(d, d', x, y, s, i, s');
    }
  }

  lemma ExtendLowerOk(d: Dawg, d': Dawg, x: nat, y: nat, s: Symbol)
    requires ExtendFacts(d, d', x, y, s) && FrontierOk(d) && LowerFrontierEdgesOk(d) && TopEdgesOk(d) && GrowReady(d)
    ensures |d'.unchecked| <= |d'.previous| && LowerFrontierEdgesOk(d')
  {
    ExtendLowerLinks(d, d', x, y, s);
    ExtendLowerOthers(d, d', x, y, s);
  }

  lemma ExtendTopOk(d: Dawg, d': Dawg, x: nat, y: nat, s: Symbol)
    requires ExtendFacts(d, d', x, y, s)
    ensures |d'.unchecked| <= |d'.previous| && TopEdgesOk(d')
    ensures |d'.unchecked| < |d'.previous| ==> GrowReady(d')
  {
    assert Top(d') == y && Get(d'.arena, y).edges == map[];
  }

  /** Linking `x` to a fresh `y` changes only those two nodes. */
  lemma ArenaLinkFacts(a: Arena, a': Arena, x: nat, s: Symbol, y: nat)
    requires x in a && y !in a
    requires a' == a[x := a[x].(edges := a[x].edges[s := y])][y := CreateEmptyNode(y)]
    ensures a'.Keys == a.Keys + {y}
    ensures forall n :: n != x && n != y ==> Get(a', n) == Get(a, n)
    ensures Get(a', x).edges == Get(a, x).edges[s := y]
    ensures Get(a', y).edges == map[]
  {
  }

  lemma ExtendFactsHold(d: Dawg, rank: map<nat, nat>)
    requires ExtendCase(d, rank)
    ensures ExtendFacts(d, ExtendTop(d), Top(d), d.nextId, d.previous[|d.unchecked|])
  {
    ExtendShape(d, rank);
    var x, y, s := Top(d), d.nextId, d.previous[|d.unchecked|];
    ArenaLinkFacts(d.arena, ExtendTop(d).arena, x, s, y);
  }

  lemma ExtendBookkeeping(d: Dawg, rank: map<nat, nat>)
    requires ExtendCase(d, rank)
    ensures ArenaOk(ExtendTop(d)) && FrontierOk(ExtendTop(d)) && EdgesOk(ExtendTop(d))
    ensures |ExtendTop(d).unchecked| < |d.previous| ==> GrowReady(ExtendTop(d))
  {
    ExtendShape(d, rank);
    var d' := ExtendTop(d);
    var x, y, s := Top(d), d.nextId, d.previous[|d.unchecked|];
    ArenaExtendOk(d, d', x, s);
    ExtendFactsHold(d, rank);
    ExtendFrontierOk(d, d', x, y, s);
    ExtendOffFrontierOk(d, d', x, y, s);
    ExtendLowerOk(d, d', x, y, s);
    ExtendTopOk(d, d', x, y, s);
  }

  lemma ExtendRegistry(d: Dawg, rank: map<nat, nat>)
    requires ExtendCase(d, rank)
    ensures RegistryOk(ExtendTop(d)) && RankOk(ExtendTop(d), rank) && RegisteredKept(d, ExtendTop(d))
  {
    ExtendShape(d, rank);
    var d' := ExtendTop(d);
    var x, y := Top(d), d.nextId;
    assert forall r :: r in Registered(d) ==> r != x && r != y && r in d.arena;
    assert forall r :: r in Registered(d) ==> r in d'.arena && r in d.arena && d'.arena[r] == d.arena[r];
    RegistryFrame(d, d');
    RankFrame(d, d', rank);
  }

  lemma ExtendLanguage(d: Dawg, rank: map<nat, nat>)
    requires ExtendCase(d, rank)
    ensures SameLanguage(d, ExtendTop(d))
  {
    ExtendShape(d, rank);
    var x, y, s := Top(d), d.nextId, d.previous[|d.unchecked|];
    forall q ensures Accepts(ExtendTop(d).arena, d.root, q) <==> Accepts(d.arena, d.root, q) {
      DeadEndPreservesAccepts(d.arena, x, s, y, d.root, q);
    }
  }

  /** One growth step keeps the invariant, the accepted paths and the
      registered nodes. */
  lemma ExtendInv(d: Dawg, rank: map<nat, nat>)
    requires Inv(d, rank) && GrowReady(d)
    ensures Inv(ExtendTop(d), rank)
    ensures SameLanguage(d, ExtendTop(d)) && RegisteredKept(d, ExtendTop(d))
    ensures Top(ExtendTop(d)) == d.nextId
    ensures |ExtendTop(d).unchecked| < |d.previous| ==> GrowReady(ExtendTop(d))
  {
    ExtendShape(d, rank);
    ExtendBookkeeping(d, rank);
    ExtendRegistry(d, rank);
    ExtendLanguage(d, rank);
  }

  /** Growing the rest of `previous` from the top keeps the invariant and
      leaves the frontier as long as `previous`, with the last grown node on
      top. */
  lemma {:induction false} GrowInv(d: Dawg, rank: map<nat, nat>, suffix: Path)
    requires Inv(d, rank) && suffix == d.previous[|d.unchecked|..]
    requires |suffix| > 0 ==> GrowReady(d)
    ensures Inv(Grow(d, Top(d), suffix).0, rank)
    ensures Grow(d, Top(d), suffix).1 == Top(Grow(d, Top(d), suffix).0)
    ensures |Grow(d, Top(d), suffix).0.unchecked| == |d.previous|
    decreases |suffix|
  {
    if |suffix| > 0 {
      var next := ExtendTop(d);
      ExtendInv(d, rank);
      assert Grow(d, Top(d), suffix) == Grow(next, Top(next), suffix[1..]);
      assert suffix[1..] == next.previous[|next.unchecked|..];
      GrowInv(next, rank, suffix[1..]);
    }
  }

  /** Growing changes neither the accepted paths nor any registered node. */
  lemma {:induction false} GrowPreserves(d: Dawg, rank: map<nat, nat>, suffix: Path)
    requires Inv(d, rank) && suffix == d.previous[|d.unchecked|..]
    requires |suffix| > 0 ==> GrowReady(d)
    ensures SameLanguage(d, Grow(d, Top(d), suffix).0)
    ensures RegisteredKept(d, Grow(d, Top(d), suffix).0)
    decreases |suffix|
  {
    if |suffix| > 0 {
      var next := ExtendTop(d);
      ExtendInv(d, rank);
      assert Grow(d, Top(d), suffix) == Grow(next, Top(next), suffix[1..]);
      assert suffix[1..] == next.previous[|next.unchecked|..];
      GrowPreserves(next, rank, suffix[1..]);
    }
  }
}
