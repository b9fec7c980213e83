/** The incremental builder: sorted insertion with on-the-fly minimisation of
    the frontier, the membership query, the entry count and the one-way freeze.

    The builder is a value: every operation returns a new state, and a failed
    insertion returns an error while the caller keeps the state it had, which
    is how the original leaves its object untouched when it throws.
 */
module Builder {
  import opened Order
  import opened Graph

  /** The two ways an insertion is refused. */
  datatype Error = Finalized | OutOfOrder

  datatype Result<T> = Success(value: T) | Failure(error: Error)

  /** One frontier triple: `parent` reaches `child` over `symbol`, and `child`
      has not yet been checked against the registry. */
  datatype Unchecked = Unchecked(parent: nat, symbol: Symbol, child: nat)

  /** The builder state. `nextId` is the id the next created node receives;
      `previous` is the last path inserted; `unchecked` is the frontier stack
      (bottom first); `registry` maps each signature to its canonical node. */
  datatype Dawg = Dawg(
    arena: Arena,
    nextId: nat,
    root: nat,
    count: nat,
    previous: Path,
    unchecked: seq<Unchecked>,
    registry: map<Signature, nat>,
    finalized: bool)

  /** A fresh builder: only the root (id 0, no edges, not final), no entries,
      and `previous` the empty path. */
  function New(): Dawg
  {
    Dawg(map[0 := CreateEmptyNode(0)], 1, 0, 0, [], [], map[], false)
  }

  /** Pops the top frontier triple. If a registered node has the child's
      signature, the parent's edge is redirected to it; otherwise the child
      becomes the registered node for its signature. */
  function MinimizeStep(d: Dawg): (r: Dawg)
    requires |d.unchecked| > 0
    ensures r.unchecked == d.unchecked[..|d.unchecked| - 1]
    ensures r.root == d.root && r.nextId == d.nextId && r.count == d.count
    ensures r.previous == d.previous && r.finalized == d.finalized
  {
    var top := d.unchecked[|d.unchecked| - 1];
    var rest := d.unchecked[..|d.unchecked| - 1];
    var key := Encode(Get(d.arena, top.child));
    if key in d.registry then
      var parent := Get(d.arena, top.parent);
      var redirected := parent.(edges := parent.edges[top.symbol := d.registry[key]]);
      d.(arena := d.arena[top.parent := redirected], unchecked := rest)
    else
      d.(registry := d.registry[key := top.child], unchecked := rest)
  }

  /** Pops the frontier down to `downTo` entries (child before parent),
      leaving the bottom `downTo` entries as they were. */
  function Minimize(d: Dawg, downTo: nat): (r: Dawg)
    ensures |r.unchecked| == if |d.unchecked| <= downTo then |d.unchecked| else downTo
    ensures r.unchecked == d.unchecked[..|r.unchecked|]
    ensures r.root == d.root && r.nextId == d.nextId && r.count == d.count
    ensures r.previous == d.previous && r.finalized == d.finalized
    decreases |d.unchecked|
  {
    if |d.unchecked| <= downTo then d else Minimize(MinimizeStep(d), downTo)
  }

  /** Creates a fresh node, links it from `node` over `symbol`, and pushes the
      new triple on the frontier. */
  function Extend(d: Dawg, node: nat, symbol: Symbol): (r: Dawg)
    ensures r.unchecked == d.unchecked + [Unchecked(node, symbol, d.nextId)]
    ensures r.nextId == d.nextId + 1 && d.nextId in r.arena
    ensures r.root == d.root && r.count == d.count && r.previous == d.previous
    ensures r.registry == d.registry && r.finalized == d.finalized
  {
    var newId := d.nextId;
    var parent := Get(d.arena, node);
    var arena := d.arena[node := parent.(edges := parent.edges[symbol := newId])][newId := CreateEmptyNode(newId)];
    d.(arena := arena, nextId := newId + 1, unchecked := d.unchecked + [Unchecked(node, symbol, newId)])
  }

  /** Grows one fresh node per symbol of `suffix`, chained from `node`.
      Returns the new state and the last node of the chain. */
  function Grow(d: Dawg, node: nat, suffix: Path): (r: (Dawg, nat))
    ensures |r.0.unchecked| == |d.unchecked| + |suffix|
    ensures r.0.unchecked[..|d.unchecked|] == d.unchecked
    ensures forall i :: 0 <= i < |suffix| ==> r.0.unchecked[|d.unchecked| + i].symbol == suffix[i]
    ensures r.1 == if |suffix| == 0 then node else r.0.unchecked[|r.0.unchecked| - 1].child
    ensures r.0.nextId == d.nextId + |suffix|
    ensures r.0.root == d.root && r.0.count == d.count && r.0.previous == d.previous
    ensures r.0.registry == d.registry && r.0.finalized == d.finalized
    decreases |suffix|
  {
    if |suffix| == 0 then (d, node)
    else
      var next := Extend(d, node, suffix[0]);
      var r := Grow(next, d.nextId, suffix[1..]);
      assert r.0.unchecked[..|d.unchecked|] == next.unchecked[..|next.unchecked|][..|d.unchecked|];
      r
  }

  /** Inserts one path. Refused after `Finalize` and for a path ordered before
      the previous one; a path equal to the previous one changes nothing.
      Otherwise the frontier beyond the common prefix with the previous path
      is minimised, fresh nodes are grown for the rest of the path, and the
      last node is marked final. */
  function Add(d: Dawg, path: Path): (r: Result<Dawg>)
    ensures d.finalized ==> r == Failure(Finalized)
    ensures !d.finalized && ComparePaths(path, d.previous) < 0 ==> r == Failure(OutOfOrder)
    ensures !d.finalized && path == d.previous ==> r == Success(d)
    ensures r.Success? ==> !r.value.finalized && r.value.previous == path
    ensures r.Success? && path != d.previous ==> r.value.count == d.count + 1
    ensures r.Failure? <==> d.finalized || ComparePaths(path, d.previous) < 0
  {
    ComparePathsZero(path, d.previous);
    if d.finalized then Failure(Finalized)
    else
      var order := ComparePaths(path, d.previous);
      if order < 0 then Failure(OutOfOrder)
      else if order == 0 then Success(d)
      else
        var commonPrefix := CommonPrefix(path, d.previous);
        var m := Minimize(d, commonPrefix);
        var node := if |m.unchecked| == 0 then m.root else m.unchecked[|m.unchecked| - 1].child;
        var g := Grow(m, node, path[commonPrefix..]);
        var leaf := Get(g.0.arena, g.1);
        Success(g.0.(arena := g.0.arena[g.1 := leaf.(final := true)], previous := path, count := g.0.count + 1))
  }

  /** Membership: one edge per symbol from the root; false as soon as an edge
      is missing, otherwise the final flag of the node reached. */
  method Has(d: Dawg, path: Path) returns (b: bool)
    ensures b <==> Accepts(d.arena, d.root, path)
  {
    var node := d.root;
    var i := 0;
    while i < |path|
      invariant 0 <= i <= |path|
      invariant Walk(d.arena, d.root, path) == Walk(d.arena, node, path[i..])
    {
      var edges := Get(d.arena, node).edges;
      assert path[i..][0] == path[i] && path[i..][1..] == path[i + 1..];
      if path[i] !in edges {
        return false;
      }
      node := edges[path[i]];
      i := i + 1;
    }
    b := Get(d.arena, node).final;
  }

  function Count(d: Dawg): nat
  {
    d.count
  }

  /** Freezes the builder: the whole frontier is minimised, the frontier and
      registry are dropped, and no later insertion is accepted. A second call
      changes nothing. */
  function Finalize(d: Dawg): (r: Dawg)
    ensures r.finalized
    ensures !d.finalized ==> r.unchecked == [] && r.registry == map[]
    ensures r.count == d.count && r.previous == d.previous && r.root == d.root
  {
    if d.finalized then d
    else
      var m := Minimize(d, 0);
      m.(registry := map[], unchecked := [], finalized := true)
  }

  /** Finalising twice is finalising once, and every later insertion is
      refused. */
  lemma FinalizeIdempotent(d: Dawg, path: Path)
    ensures Finalize(Finalize(d)) == Finalize(d)
    ensures Add(Finalize(d), path) == Failure(Finalized)
  {
  }

  /** Inserts every path in order, stopping at the first refusal. */
  function AddAll(d: Dawg, paths: seq<Path>): Result<Dawg>
    decreases |paths|
  {
    if |paths| == 0 then Success(d)
    else
      match Add(d, paths[0])
      case Failure(e) => Failure(e)
      case Success(d') => AddAll(d', paths[1..])
  }

  /** A builder constructed from `paths` and then frozen. */
  function From(paths: seq<Path>): Result<Dawg>
  {
    match AddAll(New(), paths)
    case Failure(e) => Failure(e)
    case Success(d) => Success(Finalize(d))
  }
}
