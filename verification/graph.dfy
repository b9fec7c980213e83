/** Automaton states held in an arena addressed by node id, the structural
    signature used to detect interchangeable states, and the walk that reads a
    path through the graph.
 */
module Graph {
  import opened Order

  /** A state: its outgoing edges (symbol to child id), whether some entry ends
      here, and the id it was created with. */
  datatype Node = Node(edges: map<Symbol, nat>, final: bool, id: nat)

  /** All nodes ever created, by id. Nodes that minimisation bypasses stay in
      the arena, unreachable, as garbage does in the original. */
  type Arena = map<nat, Node>

  /** The registry key of a node: its final flag and its symbol-to-child map.
      The node's own id is not part of it. */
  datatype Signature = Signature(final: bool, edges: map<Symbol, nat>)

  function CreateEmptyNode(id: nat): Node
  {
    Node(map[], false, id)
  }

  function Encode(n: Node): Signature
  {
    Signature(n.final, n.edges)
  }

  /** Two nodes get the same key exactly when they have the same final flag
      and the same edges to the same children. */
  lemma EncodeInjective(a: Node, b: Node)
    ensures Encode(a) == Encode(b) <==> a.final == b.final && a.edges == b.edges
  {
  }

  /** The node stored under `id`; an absent id reads as a dead end. */
  function Get(a: Arena, id: nat): Node
  {
    if id in a then a[id] else CreateEmptyNode(id)
  }

  /** Follows one edge per symbol of `p` from node `n`: the node reached, or
      None as soon as an edge is missing. */
  function Walk(a: Arena, n: nat, p: Path): Option<nat>
    decreases |p|
  {
    if |p| == 0 then Some(n)
    else
      var edges := Get(a, n).edges;
      if p[0] in edges then Walk(a, edges[p[0]], p[1..]) else None
  }

  datatype Option<T> = None | Some(value: T)

  /** The path is read to its end and stops at a final node. */
  predicate Accepts(a: Arena, n: nat, p: Path)
  {
    match Walk(a, n, p)
    case Some(m) => Get(a, m).final
    case None => false
  }

  /** Walking `u + v` is walking `u` and then `v` from wherever `u` stopped. */
  lemma {:induction false} WalkConcat(a: Arena, n: nat, u: Path, v: Path)
    ensures Walk(a, n, u + v) == (match Walk(a, n, u) case Some(m) => Walk(a, m, v) case None => None)
    decreases |u|
  {
    if |u| > 0 {
      assert (u + v)[0] == u[0];
      assert (u + v)[1..] == u[1..] + v;
      var edges := Get(a, n).edges;
      if u[0] in edges {
        WalkConcat(a, edges[u[0]], u[1..], v);
      }
    } else {
      assert u + v == v;
    }
  }

  /** Walking one more symbol after `u`. */
  lemma WalkSnoc(a: Arena, n: nat, u: Path, s: Symbol)
    ensures Walk(a, n, u + [s]) ==
      (match Walk(a, n, u)
       case Some(m) => if s in Get(a, m).edges then Some(Get(a, m).edges[s]) else None
       case None => None)
  {
    WalkConcat(a, n, u, [s]);
    match Walk(a, n, u)
    case Some(m) =>
      assert [s][1..] == [];
    case None =>
  }

  ghost predicate SameEdges(a: Arena, b: Arena)
  {
    forall n: nat :: Get(a, n).edges == Get(b, n).edges
  }

  /** Walks only read edges: two arenas with the same edges everywhere walk
      alike. */
  lemma {:induction false} SameEdgesSameWalk(a: Arena, b: Arena, n: nat, p: Path)
    requires SameEdges(a, b)
    ensures Walk(a, n, p) == Walk(b, n, p)
    decreases |p|
  {
    if |p| > 0 {
      assert Get(a, n).edges == Get(b, n).edges;
      var edges := Get(a, n).edges;
      if p[0] in edges {
        SameEdgesSameWalk(a, b, edges[p[0]], p[1..]);
      }
    }
  }

  /** Setting the final flag of `x` adds exactly the paths that reach `x`. */
  lemma MarkFinalAccepts(a: Arena, x: nat, n: nat, p: Path)
    requires x in a
    ensures Accepts(a[x := a[x].(final := true)], n, p) <==> Accepts(a, n, p) || Walk(a, n, p) == Some(x)
  {
    var b := a[x := a[x].(final := true)];
    assert SameEdges(a, b) by {
      forall m: nat ensures Get(a, m).edges == Get(b, m).edges {
      }
    }
    SameEdgesSameWalk(a, b, n, p);
  }

  /** Every edge of every node leads to a node of the arena. */
  ghost predicate Closed(a: Arena)
  {
    forall n, s :: n in a && s in a[n].edges ==> a[n].edges[s] in a
  }

  /** Adding an edge from `x` to a fresh, empty, non-final node `y` over a
      symbol `x` had no edge for changes no node's accepted paths: the new
      node is a dead end. */
  lemma {:induction false} DeadEndPreservesAccepts(a: Arena, x: nat, s: Symbol, y: nat, n: nat, p: Path)
    requires Closed(a) && x in a && y !in a && n in a
    requires s !in a[x].edges
    ensures Accepts(a[x := a[x].(edges := a[x].edges[s := y])][y := CreateEmptyNode(y)], n, p) <==> Accepts(a, n, p)
    decreases |p|
  {
    var b := a[x := a[x].(edges := a[x].edges[s := y])][y := CreateEmptyNode(y)];
    assert n != y;
    if |p| > 0 {
      if n == x && p[0] == s {
        assert Walk(b, n, p) == Walk(b, y, p[1..]);
        if |p[1..]| > 0 {
          assert Walk(b, y, p[1..]) == None;
        }
      } else {
        var edges := Get(a, n).edges;
        if p[0] in edges {
          assert Get(b, n).edges[p[0]] == edges[p[0]];
          DeadEndPreservesAccepts(a, x, s, y, edges[p[0]], p[1..]);
        }
      }
    }
  }

  /** Redirecting the edge `x --s--> c` to a node `e` with the same final flag
      and the same edges as `c` changes no node's accepted paths. */
  lemma {:induction false} RedirectPreservesAccepts(a: Arena, x: nat, s: Symbol, c: nat, e: nat, n: nat, p: Path)
    requires x in a && s in a[x].edges && a[x].edges[s] == c
    requires Get(a, e).final == Get(a, c).final && Get(a, e).edges == Get(a, c).edges
    ensures Accepts(a[x := a[x].(edges := a[x].edges[s := e])], n, p) <==> Accepts(a, n, p)
    decreases |p|
  {
    var b := a[x := a[x].(edges := a[x].edges[s := e])];
    if |p| == 0 {
    } else {
      var edges := Get(a, n).edges;
      if n == x && p[0] == s {
        RedirectPreservesAccepts(a, x, s, c, e, e, p[1..]);
        SameTargetsSameAccepts(a, c, e, p[1..]);
      } else if p[0] in edges {
        assert Get(b, n).edges[p[0]] == edges[p[0]];
        RedirectPreservesAccepts(a, x, s, c, e, edges[p[0]], p[1..]);
      }
    }
  }

  /** Two nodes with the same final flag and edges accept the same paths. */
  lemma SameTargetsSameAccepts(a: Arena, c: nat, e: nat, p: Path)
    requires Get(a, e).final == Get(a, c).final && Get(a, e).edges == Get(a, c).edges
    ensures Accepts(a, c, p) <==> Accepts(a, e, p)
  {
  }
}
