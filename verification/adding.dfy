/** One successful insertion, end to end: it keeps the invariant, leaves the
    frontier mirroring the inserted path, adds exactly that path to the
    accepted paths and never alters a registered node.
 */
module Adding {
  import opened Order
  import opened Graph
  import opened Builder
  import opened Invariant
  import opened Insertion

  /** The state between insertions: the invariant holds and the frontier is
      as deep as the last path inserted. */
  ghost predicate Ready(d: Dawg, rank: map<nat, nat>)
  {
    Inv(d, rank) && |d.unchecked| == |d.previous|
  }

  /** The invariant without the registry: arena, frontier and edges. */
  ghost predicate Shape(d: Dawg)
  {
    ArenaOk(d) && FrontierOk(d) && EdgesOk(d)
  }

  lemma PrefixSnoc(p: Path, i: nat)
    requires 0 < i <= |p|
    ensures p[..i] == p[..i - 1] + [p[i - 1]]
  {
  }

  lemma {:induction false} WalkInArena(a: Arena, n: nat, q: Path)
    requires Closed(a) && n in a
    ensures Walk(a, n, q).Some? ==> Walk(a, n, q).value in a
    decreases |q|
  {
    if |q| > 0 && q[0] in Get(a, n).edges {
      WalkInArena(a, a[n].edges[q[0]], q[1..]);
    }
  }

  /** Reading `previous` up to depth i from the root ends at frontier node i. */
  lemma {:induction false} FrontierReached(d: Dawg, i: nat)
    requires |d.unchecked| <= |d.previous| && LowerFrontierEdgesOk(d) && i <= |d.unchecked|
    ensures Walk(d.arena, d.root, d.previous[..i]) == Some(Frontier(d)[i])
  {
    if i > 0 {
      FrontierReached(d, i - 1);
      PrefixSnoc(d.previous, i);
      WalkSnoc(d.arena, d.root, d.previous[..i - 1], d.previous[i - 1]);
    }
  }

  /** An edge into an unregistered node leaves from the frontier. */
  lemma OnFrontier(d: Dawg, m: nat, s: Symbol) returns (j: nat)
    requires OffFrontierEdgesOk(d) && m in d.arena
    requires s in Get(d.arena, m).edges && Get(d.arena, m).edges[s] !in Registered(d)
    ensures j < |Frontier(d)| && Frontier(d)[j] == m
  {
    assert Get(d.arena, m) == d.arena[m];
    assert m in Frontier(d);
    j :| 0 <= j < |Frontier(d)| && Frontier(d)[j] == m;
  }

  /** ... and not from the top, whose edges all lead to registered nodes. */
  lemma BelowTop(d: Dawg, j: nat, s: Symbol)
    requires |d.unchecked| <= |d.previous| && TopEdgesOk(d) && j <= |d.unchecked|
    requires s in Get(d.arena, Frontier(d)[j]).edges && Get(d.arena, Frontier(d)[j]).edges[s] !in Registered(d)
    ensures j < |d.unchecked|
  {
  }

  /** ... and over `previous` at that depth, the only such edge. */
  lemma AlongPrevious(d: Dawg, j: nat, s: Symbol)
    requires |d.unchecked| <= |d.previous| && LowerFrontierEdgesOk(d) && j < |d.unchecked|
    requires s in Get(d.arena, Frontier(d)[j]).edges && Get(d.arena, Frontier(d)[j]).edges[s] !in Registered(d)
    ensures s == d.previous[j] && Get(d.arena, Frontier(d)[j]).edges[s] == d.unchecked[j].child
  {
    assert Get(d.arena, Frontier(d)[j]).edges[d.previous[j]] == d.unchecked[j].child;
  }

  /** An edge into an unregistered node is a frontier link. */
  lemma FrontierLink(d: Dawg, m: nat, s: Symbol) returns (j: nat)
    requires EdgesOk(d) && m in d.arena
    requires s in Get(d.arena, m).edges && Get(d.arena, m).edges[s] !in Registered(d)
    ensures j < |d.unchecked| && Frontier(d)[j] == m && s == d.previous[j]
    ensures Get(d.arena, m).edges[s] == d.unchecked[j].child
  {
    j := OnFrontier(d, m, s);
    BelowTop(d, j, s);
    AlongPrevious(d, j, s);
  }

  /** An edge that lands on a frontier node other than the root comes from
      the frontier node just below it, over `previous` at that depth. */
  lemma IntoFrontier(d: Dawg, m: nat, s: Symbol, i: nat) returns (j: nat)
    requires Shape(d) && m in d.arena && i <= |d.unchecked|
    requires s in Get(d.arena, m).edges && Get(d.arena, m).edges[s] == Frontier(d)[i]
    ensures i == j + 1 && m == Frontier(d)[j] && s == d.previous[j]
  {
    assert Frontier(d)[i] !in Registered(d);
    j := FrontierLink(d, m, s);
    FrontierIndexUnique(d, j + 1, i);
  }

  /** The only path from the root to frontier node i is `previous[..i]`. */
  lemma {:induction false} WalkToFrontier(d: Dawg, q: Path, i: nat)
    requires Shape(d) && i <= |d.unchecked|
    requires Walk(d.arena, d.root, q) == Some(Frontier(d)[i])
    ensures q == d.previous[..i]
    decreases |q|
  {
    if |q| == 0 {
      assert Walk(d.arena, d.root, q) == Some(d.root);
      FrontierIndexUnique(d, 0, i);
      assert q == [] == d.previous[..0];
    } else {
      var q', s := q[..|q| - 1], q[|q| - 1];
      PrefixSnoc(q, |q|);
      assert q[..|q|] == q;
      WalkSnoc(d.arena, d.root, q', s);
      var m := Walk(d.arena, d.root, q').value;
      WalkInArena(d.arena, d.root, q');
      var j := IntoFrontier(d, m, s, i);
      WalkToFrontier(d, q', j);
      PrefixSnoc(d.previous, j + 1);
      assert q == q' + [s];
    }
  }

  lemma PreviousReachesTop(d: Dawg)
    requires |d.unchecked| == |d.previous| && LowerFrontierEdgesOk(d)
    ensures Walk(d.arena, d.root, d.previous) == Some(Top(d))
  {
    var k := |d.unchecked|;
    assert d.previous[..k] == d.previous;
    FrontierReached(d, k);
  }

  lemma OnlyPreviousReachesTop(d: Dawg, q: Path)
    requires Shape(d) && |d.unchecked| == |d.previous|
    requires Walk(d.arena, d.root, q) == Some(Top(d))
    ensures q == d.previous
  {
    var k := |d.unchecked|;
    assert d.previous[..k] == d.previous;
    WalkToFrontier(d, q, k);
  }

  /** From a ready state, the top is reached by exactly the last path
      inserted. */
  lemma TopReachedOnlyByPrevious(d: Dawg, q: Path)
    requires Shape(d) && |d.unchecked| == |d.previous|
    ensures Walk(d.arena, d.root, q) == Some(Top(d)) <==> q == d.previous
  {
    PreviousReachesTop(d);
    if Walk(d.arena, d.root, q) == Some(Top(d)) {
      OnlyPreviousReachesTop(d, q);
    }
  }

  /** The state after growing: the top's final flag set and one more entry. */
  function MarkTop(g: Dawg): Dawg
  {
    var leaf := Get(g.arena, Top(g));
    g.(arena := g.arena[Top(g) := leaf.(final := true)], count := g.count + 1)
  }

  /** What marking the top final does to the state, by name. */
  ghost predicate MarkFacts(g: Dawg, g': Dawg, t: nat)
  {
    && t == Top(g) && t in g.arena && t !in Registered(g)
    && g'.arena.Keys == g.arena.Keys
    && (forall n :: n in g.arena ==> g'.arena[n].edges == g.arena[n].edges && g'.arena[n].id == g.arena[n].id)
    && (forall n :: Get(g'.arena, n).edges == Get(g.arena, n).edges)
    && (forall n :: n != t ==> Get(g'.arena, n) == Get(g.arena, n))
    && g'.root == g.root && g'.nextId == g.nextId && g'.previous == g.previous
    && g'.unchecked == g.unchecked && g'.registry == g.registry && g'.finalized == g.finalized
  }

  /** Setting one node's final flag leaves every node's edges and id alone. */
  lemma ArenaMarkFacts(a: Arena, a': Arena, t: nat)
    requires t in a && a' == a[t := a[t].(final := true)]
    ensures a'.Keys == a.Keys
    ensures forall n :: n in a ==> a'[n].edges == a[n].edges && a'[n].id == a[n].id
    ensures forall n :: Get(a', n).edges == Get(a, n).edges
    ensures forall n :: n != t ==> Get(a', n) == Get(a, n)
  {
  }

  lemma MarkFactsHold(g: Dawg, rank: map<nat, nat>)
    requires Ready(g, rank)
    ensures MarkFacts(g, MarkTop(g), Top(g))
  {
    var t := Top(g);
    assert Frontier(g)[|g.unchecked|] == t;
    assert t in g.arena && t !in Registered(g);
    ArenaMarkFacts(g.arena, MarkTop(g).arena, t);
  }

  lemma MarkArenaOk(g: Dawg, g': Dawg, t: nat)
    requires MarkFacts(g, g', t) && ArenaOk(g)
    ensures ArenaOk(g')
  {
  }

  lemma MarkFrontierOk(g: Dawg, g': Dawg, t: nat)
    requires MarkFacts(g, g', t) && FrontierOk(g)
    ensures FrontierOk(g') && Frontier(g') == Frontier(g) && Top(g') == Top(g)
  {
    assert Frontier(g') == Frontier(g);
    assert Registered(g') == Registered(g);
  }

  lemma MarkOffFrontierOk(g: Dawg, g': Dawg, t: nat)
    requires MarkFacts(g, g', t) && OffFrontierEdgesOk(g) && Frontier(g') == Frontier(g)
    ensures OffFrontierEdgesOk(g')
  {
    assert Registered(g') == Registered(g);
    forall n, s | n in g'.arena && n !in Frontier(g') && s in g'.arena[n].edges
      ensures g'.arena[n].edges[s] in Registered(g')
    {
      assert n in g.arena && g'.arena[n].edges == g.arena[n].edges;
    }
  }

  lemma MarkLowerOk(g: Dawg, g': Dawg, t: nat)
    requires MarkFacts(g, g', t) && |g.unchecked| <= |g.previous| && LowerFrontierEdgesOk(g) && Frontier(g') == Frontier(g)
    ensures |g'.unchecked| <= |g'.previous| && LowerFrontierEdgesOk(g')
  {
    var f := Frontier(g);
    assert Registered(g') == Registered(g);
    forall i | 0 <= i < |g'.unchecked|
      ensures g'.previous[i] in Get(g'.arena, f[i]).edges && Get(g'.arena, f[i]).edges[g'.previous[i]] == g'.unchecked[i].child
    {
      assert Get(g'.arena, f[i]).edges == Get(g.arena, f[i]).edges;
      assert g.previous[i] in Get(g.arena, f[i]).edges && Get(g.arena, f[i]).edges[g.previous[i]] == g.unchecked[i].child;
    }
    forall i, s | 0 <= i < |g'.unchecked| && s in Get(g'.arena, f[i]).edges && s != g'.previous[i]
      ensures Get(g'.arena, f[i]).edges[s] in Registered(g') && SymbolLess(s, g'.previous[i])
    {
      assert Get(g'.arena, f[i]).edges == Get(g.arena, f[i]).edges;
      assert s in Get(g.arena, f[i]).edges && s != g.previous[i];
    }
  }

  lemma MarkTopEdgesOk(g: Dawg, g': Dawg, t: nat)
    requires MarkFacts(g, g', t) && |g.unchecked| <= |g.previous| && TopEdgesOk(g) && Top(g') == Top(g)
    ensures |g'.unchecked| <= |g'.previous| && TopEdgesOk(g')
  {
    assert Registered(g') == Registered(g);
    assert Get(g'.arena, Top(g)).edges == Get(g.arena, Top(g)).edges;
  }

  lemma MarkEdgesOk(g: Dawg, g': Dawg, t: nat)
    requires MarkFacts(g, g', t) && EdgesOk(g) && Frontier(g') == Frontier(g) && Top(g') == Top(g)
    ensures EdgesOk(g')
  {
    MarkOffFrontierOk(g, g', t);
    MarkLowerOk(g, g', t);
    MarkTopEdgesOk(g, g', t);
  }

  lemma MarkShapeOk(g: Dawg, g': Dawg, t: nat)
    requires MarkFacts(g, g', t) && ArenaOk(g) && FrontierOk(g) && EdgesOk(g)
    ensures ArenaOk(g') && FrontierOk(g') && EdgesOk(g')
  {
    MarkArenaOk(g, g', t);
    MarkFrontierOk(g, g', t);
    MarkEdgesOk(g, g', t);
  }

  lemma MarkRegistryOk(g: Dawg, g': Dawg, t: nat, rank: map<nat, nat>)
    requires MarkFacts(g, g', t) && RegistryOk(g) && RankOk(g, rank)
    ensures RegistryOk(g') && RankOk(g', rank) && RegisteredKept(g, g')
  {
    assert forall r :: r in Registered(g) ==> r != t && r in g.arena && r in g'.arena && g'.arena[r] == Get(g'.arena, r);
    RegistryFrame(g, g');
    RankFrame(g, g', rank);
  }

  /** Marking the top final keeps the state ready, alters no registered node,
      and adds exactly the last path inserted to the accepted paths. */
  lemma MarkTopInv(g: Dawg, rank: map<nat, nat>)
    requires Ready(g, rank)
    ensures Ready(MarkTop(g), rank) && RegisteredKept(g, MarkTop(g))
    ensures forall q :: Accepts(MarkTop(g).arena, g.root, q) <==> Accepts(g.arena, g.root, q) || q == g.previous
  {
    var t := Top(g);
    var g' := MarkTop(g);
    MarkFactsHold(g, rank);
    MarkShapeOk(g, g', t);
    MarkRegistryOk(g, g', t, rank);
    forall q ensures Accepts(g'.arena, g.root, q) <==> Accepts(g.arena, g.root, q) || q == g.previous {
      MarkFinalAccepts(g.arena, t, g.root, q);
      TopReachedOnlyByPrevious(g, q);
    }
  }

  /** Growing does not read `previous`. */
  lemma {:induction false} GrowPrevious(m: Dawg, p: Path, node: nat, suffix: Path)
    ensures Grow(m.(previous := p), node, suffix) == (Grow(m, node, suffix).0.(previous := p), Grow(m, node, suffix).1)
    decreases |suffix|
  {
    if |suffix| > 0 {
      assert Extend(m.(previous := p), node, suffix[0]) == Extend(m, node, suffix[0]).(previous := p);
      GrowPrevious(Extend(m, node, suffix[0]), p, m.nextId, suffix[1..]);
    }
  }

  /** After minimising down to the common prefix, the frontier fits the new
      path as well as the old one, and the top has only edges over symbols
      smaller than the new path's next symbol. */
  lemma PrevRetargetFrontier(m: Dawg, path: Path)
    requires FrontierOk(m) && ComparePaths(path, m.previous) > 0 && |m.unchecked| == CommonPrefix(path, m.previous)
    ensures FrontierOk(m.(previous := path))
  {
    var k := |m.unchecked|;
    assert forall i :: 0 <= i < k ==> m.previous[i] == m.previous[..k][i] == path[..k][i] == path[i];
  }

  lemma PrevRetargetLower(m: Dawg, path: Path)
    requires |m.unchecked| <= |m.previous| && LowerFrontierEdgesOk(m)
    requires ComparePaths(path, m.previous) > 0 && |m.unchecked| == CommonPrefix(path, m.previous)
    ensures LowerFrontierEdgesOk(m.(previous := path))
  {
    var k := |m.unchecked|;
    assert forall i :: 0 <= i < k ==> m.previous[i] == m.previous[..k][i] == path[..k][i] == path[i];
    assert Frontier(m.(previous := path)) == Frontier(m);
  }

  lemma PrevRetargetTop(m: Dawg, path: Path)
    requires |m.unchecked| <= |m.previous| && TopEdgesOk(m)
    requires ComparePaths(path, m.previous) > 0 && |m.unchecked| == CommonPrefix(path, m.previous)
    ensures |m.unchecked| < |path| && TopEdgesOk(m.(previous := path)) && GrowReady(m.(previous := path))
  {
    var k := |m.unchecked|;
    var m' := m.(previous := path);
    GreaterDiverges(path, m.previous);
    assert Top(m') == Top(m);
    var edges := Get(m.arena, Top(m)).edges;
    forall s | s in edges ensures SymbolLess(s, path[k]) {
      if k < |m.previous| {
        if s != m.previous[k] {
          SymbolLessTransitive(s, m.previous[k], path[k]);
        }
      }
    }
  }

  lemma PrevRetargetOff(m: Dawg, path: Path)
    requires OffFrontierEdgesOk(m)
    ensures OffFrontierEdgesOk(m.(previous := path))
  {
    assert Frontier(m.(previous := path)) == Frontier(m);
  }

  /** Once the frontier is cut to the common prefix, the state satisfies the
      invariant with the new path in place of the old, ready to grow. */
  lemma PrevRetarget(m: Dawg, rank: map<nat, nat>, path: Path)
    requires Inv(m, rank) && ComparePaths(path, m.previous) > 0 && |m.unchecked| == CommonPrefix(path, m.previous)
    ensures Inv(m.(previous := path), rank) && GrowReady(m.(previous := path))
  {
    var m' := m.(previous := path);
    PrevRetargetFrontier(m, path);
    PrevRetargetLower(m, path);
    PrevRetargetTop(m, path);
    PrevRetargetOff(m, path);
    assert Registered(m') == Registered(m) && Frontier(m') == Frontier(m);
    assert ArenaOk(m') && RegistryOk(m') && RankOk(m', rank);
  }

  /** The state minimised down to the common prefix with the new path, the
      new path already in place of the old. */
  function Cut(d: Dawg, path: Path): Dawg
  {
    Minimize(d, CommonPrefix(path, d.previous)).(previous := path)
  }

  /** `Cut` with the rest of the new path grown from its top. */
  function Grown(d: Dawg, path: Path): Dawg
  {
    var c := Cut(d, path);
    Grow(c, Top(c), path[CommonPrefix(path, d.previous)..]).0
  }

  lemma CutGrownInv(d: Dawg, rank: map<nat, nat>, path: Path) returns (rank': map<nat, nat>)
    requires Ready(d, rank) && ComparePaths(path, d.previous) > 0
    ensures Ready(Grown(d, path), rank') && Grown(d, path).previous == path
    ensures SameLanguage(d, Grown(d, path)) && RegisteredKept(d, Grown(d, path))
    ensures var c := Cut(d, path); Grow(c, Top(c), path[CommonPrefix(path, d.previous)..]).1 == Top(Grown(d, path))
  {
    var cp := CommonPrefix(path, d.previous);
    var r1 := MinimizeInv(d, rank, cp);
    MinimizePreserves(d, rank, cp);
    var m := Minimize(d, cp);
    PrevRetarget(m, r1, path);
    var c := Cut(d, path);
    var sfx := path[cp..];
    assert sfx == c.previous[|c.unchecked|..];
    GrowInv(c, r1, sfx);
    GrowPreserves(c, r1, sfx);
    assert SameLanguage(m, c);
    rank' := r1;
  }

  /** The state `Add` builds for a path ordered after the last one, spelled
      out over the unretargeted minimised state. */
  function Inserted(d: Dawg, path: Path): Dawg
  {
    var m := Minimize(d, CommonPrefix(path, d.previous));
    var g := Grow(m, Top(m), path[CommonPrefix(path, d.previous)..]);
    g.0.(arena := g.0.arena[g.1 := Get(g.0.arena, g.1).(final := true)], previous := path, count := g.0.count + 1)
  }

  lemma AddUnfold(d: Dawg, path: Path)
    requires !d.finalized && ComparePaths(path, d.previous) > 0
    ensures Add(d, path) == Success(Inserted(d, path))
  {
    ComparePathsZero(path, d.previous);
  }

  lemma GrownUnfold(d: Dawg, path: Path)
    ensures var m := Minimize(d, CommonPrefix(path, d.previous));
      Grown(d, path) == Grow(m, Top(m), path[CommonPrefix(path, d.previous)..]).0.(previous := path)
  {
    var cp := CommonPrefix(path, d.previous);
    var m := Minimize(d, cp);
    GrowPrevious(m, path, Top(m), path[cp..]);
    assert Top(Cut(d, path)) == Top(m);
  }

  /** Marking the top of a state whose `previous` was replaced. */
  lemma MarkTopUnfold(g: Dawg, path: Path, t: nat)
    requires Top(g.(previous := path)) == t
    ensures MarkTop(g.(previous := path)) == g.(arena := g.arena[t := Get(g.arena, t).(final := true)], previous := path, count := g.count + 1)
  {
  }

  lemma InsertedIsMarkTop(d: Dawg, path: Path)
    requires var c := Cut(d, path); Grow(c, Top(c), path[CommonPrefix(path, d.previous)..]).1 == Top(Grown(d, path))
    ensures Inserted(d, path) == MarkTop(Grown(d, path))
  {
    var cp := CommonPrefix(path, d.previous);
    var m := Minimize(d, cp);
    var g0 := Grow(m, Top(m), path[cp..]);
    GrownUnfold(d, path);
    GrowPrevious(m, path, Top(m), path[cp..]);
    assert Top(Cut(d, path)) == Top(m);
    MarkTopUnfold(g0.0, path, g0.1);
  }

  lemma AddIsMarkTop(d: Dawg, path: Path)
    requires !d.finalized && ComparePaths(path, d.previous) > 0
    requires var c := Cut(d, path); Grow(c, Top(c), path[CommonPrefix(path, d.previous)..]).1 == Top(Grown(d, path))
    ensures Add(d, path) == Success(MarkTop(Grown(d, path)))
  {
    AddUnfold(d, path);
    InsertedIsMarkTop(d, path);
  }

  /** A path ordered after the last one is accepted, the result is ready for
      the next insertion, no registered node changes, and the accepted paths
      gain exactly the new path. */
  lemma AddInv(d: Dawg, rank: map<nat, nat>, path: Path) returns (rank': map<nat, nat>)
    requires Ready(d, rank) && ComparePaths(path, d.previous) > 0
    ensures Add(d, path).Success? && Ready(Add(d, path).value, rank')
    ensures RegisteredKept(d, Add(d, path).value)
    ensures forall q :: Accepts(Add(d, path).value.arena, d.root, q) <==> Accepts(d.arena, d.root, q) || q == path
  {
    rank' := CutGrownInv(d, rank, path);
    var g := Grown(d, path);
    AddIsMarkTop(d, path);
    MarkTopInv(g, rank');
  }
}
