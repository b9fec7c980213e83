/** The registry key as the original spells it: a string made of the final
    flag and one `_symbol_id` segment per edge. Symbols may themselves hold
    `_` and digits, so two states with different edges can share one key and
    be merged although they accept different paths. The builder of this
    model keys its registry by the structural `Signature` instead.
 */
module KeyCollision {
  import opened Order
  import opened Graph
  import opened Builder
  import opened Invariant
  import opened Adding
  import opened Building
  import opened Examples

  /** The decimal digit for `n`. */
  function Digit(n: nat): (c: char)
    requires n < 10
    ensures '0' <= c <= '9' && c as int - '0' as int == n
  {
    ('0' as int + n) as char
  }

  /** The number a run of decimal digits denotes, most significant first. */
  function DecimalValue(s: string): nat
    requires forall i :: 0 <= i < |s| ==> '0' <= s[i] <= '9'
    decreases |s|
  {
    if |s| == 0 then 0 else 10 * DecimalValue(s[..|s| - 1]) + (s[|s| - 1] as int - '0' as int)
  }

  /** Decimal numeral of `n`, as a template literal prints it: digits that
      denote `n`, with no leading zero. */
  function NatToString(n: nat): (s: string)
    ensures |s| > 0 && forall i :: 0 <= i < |s| ==> '0' <= s[i] <= '9'
    ensures DecimalValue(s) == n
    ensures n > 0 ==> s[0] != '0'
  {
    if n < 10 then [Digit(n)]
    else
      var t := NatToString(n / 10);
      var s := t + [Digit(n % 10)];
      assert s[..|s| - 1] == t;
      s
  }

  /** No symbol is listed twice. */
  predicate Distinct(order: seq<Symbol>)
  {
    forall i, j :: 0 <= i < j < |order| ==> order[i] != order[j]
  }

  /** `order` lists every edge symbol of `n` exactly once, so it can stand for
      the enumeration `Object.keys` makes of the node's edges. */
  predicate Listed(n: Node, order: seq<Symbol>)
  {
    Distinct(order) && forall s :: s in n.edges ==> s in order
  }

  /** Every two entries of `ks` appear in `order` in the same relative order. */
  predicate Follows(ks: seq<Symbol>, order: seq<Symbol>)
  {
    forall i, j :: 0 <= i < j < |ks| ==> Before(order, ks[i], ks[j])
  }

  /** `x` occurs in `order` at an earlier position than `y`. */
  predicate Before(order: seq<Symbol>, x: Symbol, y: Symbol)
  {
    exists a, b :: 0 <= a < b < |order| && order[a] == x && order[b] == y
  }

  /** The edge symbols of `n` in the order of `order`: what `Object.keys`
      returns for the node's edges. */
  function EdgeKeys(n: Node, order: seq<Symbol>): (ks: seq<Symbol>)
    ensures forall s :: s in ks <==> s in order && s in n.edges
    ensures Distinct(order) ==> Distinct(ks)
    ensures Follows(ks, order)
    decreases |order|
  {
    if |order| == 0 then []
    else
      var tail := order[1..];
      var rest := EdgeKeys(n, tail);
      assert forall s :: s in tail ==> s in order;
      if order[0] in n.edges then
        assert Distinct(order) ==> order[0] !in tail;
        FollowsCons(rest, order);
        [order[0]] + rest
      else
        FollowsTail(rest, order);
        rest
  }

  /** What follows the tail of `order` follows `order`. */
  lemma FollowsTail(ks: seq<Symbol>, order: seq<Symbol>)
    requires |order| > 0 && Follows(ks, order[1..])
    ensures Follows(ks, order)
  {
    var tail := order[1..];
    forall i, j | 0 <= i < j < |ks|
      ensures Before(order, ks[i], ks[j])
    {
      assert Before(tail, ks[i], ks[j]);
      var a, b :| 0 <= a < b < |tail| && tail[a] == ks[i] && tail[b] == ks[j];
      assert order[a + 1] == ks[i] && order[b + 1] == ks[j];
    }
  }

  /** Putting the head of `order` in front of a sequence drawn from its tail
      keeps it in the order of `order`. */
  lemma FollowsCons(ks: seq<Symbol>, order: seq<Symbol>)
    requires |order| > 0 && Follows(ks, order[1..]) && forall s :: s in ks ==> s in order[1..]
    ensures Follows([order[0]] + ks, order)
  {
    var tail := order[1..];
    var all := [order[0]] + ks;
    FollowsTail(ks, order);
    forall i, j | 0 <= i < j < |all|
      ensures Before(order, all[i], all[j])
    {
      if i == 0 {
        assert ks[j - 1] in tail;
        var b :| 0 <= b < |tail| && tail[b] == ks[j - 1];
        assert order[0] == all[i] && order[b + 1] == all[j];
      } else {
        assert all[i] == ks[i - 1] && all[j] == ks[j - 1];
        assert Before(order, ks[i - 1], ks[j - 1]);
      }
    }
  }

  /** A sequence without repeats has as many distinct elements as entries. */
  lemma {:induction false} DistinctCard(ks: seq<Symbol>)
    requires Distinct(ks)
    ensures |set s | s in ks| == |ks|
  {
    if |ks| > 0 {
      assert Distinct(ks[1..]);
      DistinctCard(ks[1..]);
      assert ks[0] !in ks[1..];
      assert (set s | s in ks) == {ks[0]} + (set s | s in ks[1..]);
    }
  }

  /** With every edge listed, `Object.keys` yields each edge symbol once. */
  lemma EdgeKeysCount(n: Node, order: seq<Symbol>)
    requires Listed(n, order)
    ensures |EdgeKeys(n, order)| == |n.edges|
  {
    var ks := EdgeKeys(n, order);
    DistinctCard(ks);
    assert (set s | s in ks) == n.edges.Keys;
  }

  /** With every edge listed, `Object.keys` is empty exactly for a node
      without edges. */
  lemma NoKeysNoEdges(n: Node, order: seq<Symbol>)
    requires Listed(n, order)
    ensures EdgeKeys(n, order) == [] <==> n.edges == map[]
  {
    var ks := EdgeKeys(n, order);
    if ks == [] {
      assert forall s :: s !in n.edges;
    } else {
      assert ks[0] in ks;
    }
  }

  /** One `_symbol_id` segment per listed symbol, the id in decimal. */
  function Segments(n: Node, ks: seq<Symbol>): (k: string)
    requires forall s :: s in ks ==> s in n.edges
    ensures |k| == 0 <==> |ks| == 0
    decreases |ks|
  {
    if |ks| == 0 then ""
    else "_" + ks[0] + "_" + NatToString(n.edges[ks[0]]) + Segments(n, ks[1..])
  }

  /** `encode` as written: "0" or "1" for the final flag, then one segment per
      edge. The original enumerates a node's edges in the order they were
      added, which for sorted insertion is the symbol order; `order` lists
      the symbols in that order. */
  function EncodeAsWritten(n: Node, order: seq<Symbol>): (k: string)
    requires Listed(n, order)
    ensures |k| > 0 && k[0] == if n.final then '1' else '0'
    ensures |k| == 1 <==> n.edges == map[]
  {
    var ks := EdgeKeys(n, order);
    NoKeysNoEdges(n, order);
    (if n.final then "1" else "0") + Segments(n, ks)
  }

  /** The key is the flag followed by one segment for each edge of the node,
      no edge left out and none repeated. */
  lemma EncodeAsWrittenSegments(n: Node, order: seq<Symbol>)
    requires Listed(n, order)
    ensures var ks := EdgeKeys(n, order);
      && (forall s :: s in ks <==> s in n.edges) && Distinct(ks) && |ks| == |n.edges|
      && EncodeAsWritten(n, order) == (if n.final then "1" else "0") + Segments(n, ks)
  {
    EdgeKeysCount(n, order);
  }

  /** `order` lists, once each, every symbol on an edge of the arena or on a
      frontier triple: every key the original computes is well defined. */
  ghost predicate Enumerated(d: Dawg, order: seq<Symbol>)
  {
    && Distinct(order)
    && ArenaListed(d.arena, order)
    && (forall i :: 0 <= i < |d.unchecked| ==> d.unchecked[i].symbol in order)
  }

  /** Every edge symbol of the arena appears in `order`. */
  ghost predicate ArenaListed(a: Arena, order: seq<Symbol>)
  {
    forall id, s :: id in a && s in a[id].edges ==> s in order
  }

  lemma ArenaListedUpdate(a: Arena, id: nat, n: Node, order: seq<Symbol>)
    requires ArenaListed(a, order) && forall s :: s in n.edges ==> s in order
    ensures ArenaListed(a[id := n], order)
  {
  }

  lemma EnumeratedListed(d: Dawg, order: seq<Symbol>, id: nat)
    requires Enumerated(d, order)
    ensures Listed(Get(d.arena, id), order)
  {
  }

  /** One pop of `_minimize` as written: the registry maps string keys to
      nodes. */
  function MinimizeStepAsWritten(d: Dawg, registry: map<string, nat>, order: seq<Symbol>): (r: (Dawg, map<string, nat>))
    requires |d.unchecked| > 0 && Enumerated(d, order)
    ensures r.0.unchecked == d.unchecked[..|d.unchecked| - 1]
    ensures r.0.root == d.root && r.0.count == d.count
    ensures r.0.previous == d.previous && r.0.nextId == d.nextId && r.0.finalized == d.finalized
    ensures r.0.registry == d.registry
    ensures Enumerated(r.0, order)
    ensures var top := d.unchecked[|d.unchecked| - 1];
      var key := EncodeAsWritten(Get(d.arena, top.child), order);
      var parent := Get(d.arena, top.parent);
      && (key in registry ==>
            && r.1 == registry
            && r.0.arena == d.arena[top.parent := parent.(edges := parent.edges[top.symbol := registry[key]])])
      && (key !in registry ==> r.1 == registry[key := top.child] && r.0.arena == d.arena)
  {
    var top := d.unchecked[|d.unchecked| - 1];
    var rest := d.unchecked[..|d.unchecked| - 1];
    EnumeratedListed(d, order, top.child);
    var key := EncodeAsWritten(Get(d.arena, top.child), order);
    if key in registry then
      var parent := Get(d.arena, top.parent);
      var redirected := parent.(edges := parent.edges[top.symbol := registry[key]]);
      var r := (d.(arena := d.arena[top.parent := redirected], unchecked := rest), registry);
      assert top.symbol in order;
      EnumeratedListed(d, order, top.parent);
      r
    else
      (d.(unchecked := rest), registry[key := top.child])
  }

  /** When the string key finds exactly the node the signature finds, the
      as-written pop does what the model's pop does. */
  lemma StepAgrees(d: Dawg, registry: map<string, nat>, order: seq<Symbol>)
    requires |d.unchecked| > 0 && Enumerated(d, order)
    requires var c := Get(d.arena, d.unchecked[|d.unchecked| - 1].child);
      && (EncodeAsWritten(c, order) in registry <==> Encode(c) in d.registry)
      && (EncodeAsWritten(c, order) in registry ==> registry[EncodeAsWritten(c, order)] == d.registry[Encode(c)])
    ensures MinimizeStepAsWritten(d, registry, order).0.arena == MinimizeStep(d).arena
  {
  }

  /** `_minimize` as written, popping down to `downTo` entries. */
  function MinimizeAsWritten(d: Dawg, registry: map<string, nat>, order: seq<Symbol>, downTo: nat): (r: (Dawg, map<string, nat>))
    requires Enumerated(d, order)
    ensures |r.0.unchecked| == if |d.unchecked| <= downTo then |d.unchecked| else downTo
    ensures r.0.root == d.root && r.0.count == d.count
    decreases |d.unchecked|
  {
    if |d.unchecked| <= downTo then (d, registry)
    else
      var s := MinimizeStepAsWritten(d, registry, order);
      MinimizeAsWritten(s.0, s.1, order, downTo)
  }

  /** The input that makes two states collide. */
  function Colliding(): seq<Path>
  {
    [["p", "a"], ["p", "b"], ["q", "a_2_b"]]
  }

  /** Every symbol of `Colliding()`, in code-unit order. */
  function SymbolOrder(): seq<Symbol>
  {
    ["a", "a_2_b", "b", "p", "q"]
  }

  lemma SymbolOrderDistinct()
    ensures Distinct(SymbolOrder())
  {
  }

  /** The state reached by "p" once the leaf under "pb" is merged: edges
      `{a: 2, b: 2}`. */
  function PairNode(): Node
  {
    Node(map["a" := 2, "b" := 2], false, 1)
  }

  /** The state reached by "q": the single edge `{a_2_b: 2}`. */
  function SingleNode(): Node
  {
    Node(map["a_2_b" := 2], false, 4)
  }

  lemma EdgeKeysOfPair()
    ensures EdgeKeys(PairNode(), SymbolOrder()) == ["a", "b"]
  {
    var n := PairNode();
    var o1: seq<Symbol>, o2: seq<Symbol>, o3: seq<Symbol>, o4: seq<Symbol> := ["a_2_b", "b", "p", "q"], ["b", "p", "q"], ["p", "q"], ["q"];
    assert SymbolOrder()[1..] == o1 && o1[1..] == o2 && o2[1..] == o3 && o3[1..] == o4 && o4[1..] == [];
    assert "a_2_b" !in n.edges && "p" !in n.edges && "q" !in n.edges;
    assert EdgeKeys(n, o4) == [];
    assert EdgeKeys(n, o3) == [];
    assert EdgeKeys(n, o2) == ["b"];
    assert EdgeKeys(n, o1) == ["b"];
    assert SymbolOrder()[0] == "a" && "a" in n.edges;
    assert EdgeKeys(n, SymbolOrder()) == ["a"] + ["b"];
  }

  lemma EdgeKeysOfSingle()
    ensures EdgeKeys(SingleNode(), SymbolOrder()) == ["a_2_b"]
  {
    var n := SingleNode();
    var o1: seq<Symbol>, o2: seq<Symbol>, o3: seq<Symbol>, o4: seq<Symbol> := ["a_2_b", "b", "p", "q"], ["b", "p", "q"], ["p", "q"], ["q"];
    assert SymbolOrder()[1..] == o1 && o1[1..] == o2 && o2[1..] == o3 && o3[1..] == o4 && o4[1..] == [];
    assert "a" !in n.edges && "b" !in n.edges && "p" !in n.edges && "q" !in n.edges;
    assert EdgeKeys(n, o4) == [];
    assert EdgeKeys(n, o3) == [];
    assert EdgeKeys(n, o2) == [];
    assert EdgeKeys(n, o1) == ["a_2_b"];
  }

  lemma SegmentsOfPair()
    ensures Segments(PairNode(), ["a", "b"]) == "_a_2_b_2"
  {
    assert NatToString(2) == "2";
    assert ["a", "b"][1..] == ["b"] && ["b"][1..] == [];
  }

  lemma SegmentsOfSingle()
    ensures Segments(SingleNode(), ["a_2_b"]) == "_a_2_b_2"
  {
    assert NatToString(2) == "2";
    assert ["a_2_b"][1..] == [];
  }

  lemma PairListed()
    ensures Listed(PairNode(), SymbolOrder())
  {
    SymbolOrderDistinct();
    assert PairNode().edges.Keys == {"a", "b"};
    assert "a" in SymbolOrder() && "b" in SymbolOrder();
  }

  lemma PairKey()
    ensures Listed(PairNode(), SymbolOrder()) && EncodeAsWritten(PairNode(), SymbolOrder()) == "0_a_2_b_2"
  {
    PairListed();
    EdgeKeysOfPair();
    SegmentsOfPair();
    var k := EncodeAsWritten(PairNode(), SymbolOrder());
    assert k == "0" + "_a_2_b_2";
    FlagAndSegments();
  }

  lemma FlagAndSegments()
    ensures "0" + "_a_2_b_2" == "0_a_2_b_2"
  {
  }

  lemma SingleListed()
    ensures Listed(SingleNode(), SymbolOrder())
  {
    SymbolOrderDistinct();
    assert SingleNode().edges.Keys == {"a_2_b"};
    assert "a_2_b" in SymbolOrder();
  }

  lemma SingleKey()
    ensures Listed(SingleNode(), SymbolOrder()) && EncodeAsWritten(SingleNode(), SymbolOrder()) == "0_a_2_b_2"
  {
    SingleListed();
    EdgeKeysOfSingle();
    SegmentsOfSingle();
    var k := EncodeAsWritten(SingleNode(), SymbolOrder());
    assert k == "0" + "_a_2_b_2";
    FlagAndSegments();
  }

  /** The state `{a: 2, b: 2}` reached by "p" and the state `{a_2_b: 2}`
      reached by "q" differ, yet `encode` gives both the key "0_a_2_b_2". */
  lemma EncodeAsWrittenCollides()
    ensures Listed(PairNode(), SymbolOrder()) && Listed(SingleNode(), SymbolOrder())
    ensures EncodeAsWritten(PairNode(), SymbolOrder()) == EncodeAsWritten(SingleNode(), SymbolOrder()) == "0_a_2_b_2"
    ensures Encode(PairNode()) != Encode(SingleNode())
  {
    PairKey();
    SingleKey();
    assert "a" in PairNode().edges && "a" !in SingleNode().edges;
  }

  function B1(): Arena
  {
    map[0 := Node(map["p" := 1], false, 0), 1 := Node(map["a" := 2], false, 1), 2 := Node(map[], true, 2)]
  }

  function K1(): Dawg
  {
    Dawg(B1(), 3, 0, 1, ["p", "a"], [Unchecked(0, "p", 1), Unchecked(1, "a", 2)], map[], false)
  }

  lemma CollidingFirst()
    ensures Add(New(), ["p", "a"]) == Success(K1())
  {
    var p: Path := ["p", "a"];
    assert ComparePaths(p, []) == 2;
    assert p[0..] == p;
    var e1 := Extend(New(), 0, "p");
    GrowOne(New(), 0, "p", ["a"]);
    var e2 := Extend(e1, 1, "a");
    GrowOne(e1, 1, "a", []);
    assert e2 == K1().(arena := B1()[2 := Node(map[], false, 2)], count := 0, previous := []);
    AddSteps(New(), p, 0, New(), e2, 2);
    assert B1()[2 := Node(map[], false, 2)][2 := Node(map[], true, 2)] == B1();
  }

  function B2(): Arena
  {
    B1()[1 := Node(map["a" := 2, "b" := 3], false, 1)][3 := Node(map[], true, 3)]
  }

  function K2(): Dawg
  {
    Dawg(B2(), 4, 0, 2, ["p", "b"], [Unchecked(0, "p", 1), Unchecked(1, "b", 3)], map[Signature(true, map[]) := 2], false)
  }

  lemma CollidingSecond()
    ensures Add(K1(), ["p", "b"]) == Success(K2())
  {
    var p: Path := ["p", "b"];
    assert CompareSymbols("p", "p") == 0 && CompareSymbols("b", "a") == 1;
    assert ComparePaths(p, K1().previous) == 1;
    assert CommonPrefix(p, K1().previous) == 1;
    var m := K1().(unchecked := [Unchecked(0, "p", 1)], registry := map[Signature(true, map[]) := 2]);
    assert MinimizeStep(K1()) == m;
    MinimizeOne(K1(), 1);
    assert p[1..] == ["b"];
    var e := Extend(m, 1, "b");
    GrowOne(m, 1, "b", []);
    assert e == K2().(arena := B2()[3 := Node(map[], false, 3)], count := 1, previous := ["p", "a"]);
    AddSteps(K1(), p, 1, m, e, 3);
    assert B2()[3 := Node(map[], false, 3)][3 := Node(map[], true, 3)] == B2();
  }

  function R3(): map<Signature, nat>
  {
    map[Signature(true, map[]) := 2, Signature(false, map["a" := 2, "b" := 2]) := 1]
  }

  function M3(): Dawg
  {
    K2().(arena := B2()[1 := Node(map["a" := 2, "b" := 2], false, 1)], unchecked := [], registry := R3())
  }

  /** Inserting ['q', 'a_2_b'] first minimises the whole frontier: the leaf
      under "pb" is redirected to the one under "pa", and the state reached
      by "p" is registered with edges `{a: 2, b: 2}`. */
  lemma CollidingCut()
    ensures Minimize(K2(), 0) == M3()
  {
    var s1 := MinimizeStep(K2());
    assert Encode(Get(B2(), 3)) == Signature(true, map[]);
    assert Get(B2(), 1).edges["b" := 2] == map["a" := 2, "b" := 2];
    assert s1 == K2().(arena := M3().arena, unchecked := [Unchecked(0, "p", 1)]);
    assert Signature(false, map["a" := 2, "b" := 2]) != Signature(true, map[]);
    assert MinimizeStep(s1) == M3();
    MinimizeOne(K2(), 0);
    MinimizeOne(s1, 0);
  }

  function B3(): Arena
  {
    M3().arena[0 := Node(map["p" := 1, "q" := 4], false, 0)][4 := Node(map["a_2_b" := 5], false, 4)][5 := Node(map[], true, 5)]
  }

  function K3(): Dawg
  {
    Dawg(B3(), 6, 0, 3, ["q", "a_2_b"], [Unchecked(0, "q", 4), Unchecked(4, "a_2_b", 5)], R3(), false)
  }

  lemma CollidingThird()
    ensures Add(K2(), ["q", "a_2_b"]) == Success(K3())
  {
    var p: Path := ["q", "a_2_b"];
    assert CompareSymbols("q", "p") == 1;
    assert ComparePaths(p, K2().previous) == 1;
    assert CommonPrefix(p, K2().previous) == 0;
    CollidingCut();
    assert p[0..] == p;
    var m := M3();
    var e1 := Extend(m, 0, "q");
    GrowOne(m, 0, "q", ["a_2_b"]);
    var e2 := Extend(e1, 4, "a_2_b");
    GrowOne(e1, 4, "a_2_b", []);
    assert e2 == K3().(arena := B3()[5 := Node(map[], false, 5)], count := 2, previous := ["p", "b"]);
    AddSteps(K2(), p, 0, m, e2, 5);
    assert B3()[5 := Node(map[], false, 5)][5 := Node(map[], true, 5)] == B3();
  }

  /** The registry the original holds after the three insertions: the same
      two states as `R3()`, under their string keys. */
  function StringRegistry(): map<string, nat>
  {
    map["1" := 2, "0_a_2_b_2" := 1]
  }

  /** A final state without edges has the key "1". */
  lemma LeafKey(n: Node, order: seq<Symbol>)
    requires Distinct(order) && n.final && n.edges == map[]
    ensures Listed(n, order) && EncodeAsWritten(n, order) == "1"
  {
    var k := EncodeAsWritten(n, order);
    assert |k| == 1 && k[0] == '1';
  }

  lemma RegisteredNodes()
    ensures Get(B3(), 1) == Node(map["a" := 2, "b" := 2], false, 1)
    ensures Get(B3(), 2) == Node(map[], true, 2)
  {
  }

  lemma RootBeforeFreeze()
    ensures Get(B3(), 0) == Node(map["p" := 1, "q" := 4], false, 0)
  {
  }

  lemma StringRegistryMatches()
    ensures Listed(Get(B3(), 2), SymbolOrder()) && Listed(Get(B3(), 1), SymbolOrder())
    ensures StringRegistry() == map[EncodeAsWritten(Get(B3(), 2), SymbolOrder()) := 2, EncodeAsWritten(Get(B3(), 1), SymbolOrder()) := 1]
    ensures R3() == map[Encode(Get(B3(), 2)) := 2, Encode(Get(B3(), 1)) := 1]
  {
    RegisteredNodes();
    PairKey();
    SymbolOrderDistinct();
    LeafKey(Get(B3(), 2), SymbolOrder());
  }

  /** `SymbolOrder()` lists every symbol of the builder after the three
      insertions. */
  lemma K3Enumerated()
    ensures Enumerated(K3(), SymbolOrder())
  {
    SymbolOrderDistinct();
    var o := SymbolOrder();
    assert "a" in o && "b" in o && "p" in o && "q" in o && "a_2_b" in o;
    assert ArenaListed(B1(), o);
    ArenaListedUpdate(B1(), 1, Node(map["a" := 2, "b" := 3], false, 1), o);
    ArenaListedUpdate(B1()[1 := Node(map["a" := 2, "b" := 3], false, 1)], 3, Node(map[], true, 3), o);
    ArenaListedUpdate(B2(), 1, PairNode(), o);
    var a := M3().arena;
    ArenaListedUpdate(a, 0, Node(map["p" := 1, "q" := 4], false, 0), o);
    ArenaListedUpdate(a[0 := Node(map["p" := 1, "q" := 4], false, 0)], 4, Node(map["a_2_b" := 5], false, 4), o);
    ArenaListedUpdate(a[0 := Node(map["p" := 1, "q" := 4], false, 0)][4 := Node(map["a_2_b" := 5], false, 4)], 5, Node(map[], true, 5), o);
  }

  function B4(): Arena
  {
    B3()[4 := Node(map["a_2_b" := 2], false, 4)][0 := Node(map["p" := 1, "q" := 1], false, 0)]
  }

  lemma FreezeAsWrittenFirst()
    ensures Enumerated(K3(), SymbolOrder())
    ensures MinimizeStepAsWritten(K3(), StringRegistry(), SymbolOrder()) ==
      (K3().(arena := B3()[4 := Node(map["a_2_b" := 2], false, 4)], unchecked := [Unchecked(0, "q", 4)]), StringRegistry())
  {
    K3Enumerated();
    SymbolOrderDistinct();
    assert K3().unchecked[1] == Unchecked(4, "a_2_b", 5);
    assert K3().unchecked[..1] == [Unchecked(0, "q", 4)];
    assert Get(B3(), 5) == Node(map[], true, 5);
    LeafKey(Get(B3(), 5), SymbolOrder());
    assert StringRegistry()["1"] == 2;
    assert Get(B3(), 4) == Node(map["a_2_b" := 5], false, 4);
    LeafRedirected();
  }

  lemma LeafRedirected()
    ensures map["a_2_b" := 5]["a_2_b" := 2] == map["a_2_b" := 2]
  {
  }

  /** The second pop finds the state reached by "p" under the colliding key
      and sends the root's "q" edge there. */
  lemma FreezeAsWrittenSecond()
    ensures var s := K3().(arena := B3()[4 := Node(map["a_2_b" := 2], false, 4)], unchecked := [Unchecked(0, "q", 4)]);
      && Enumerated(s, SymbolOrder())
      && MinimizeStepAsWritten(s, StringRegistry(), SymbolOrder()) == (K3().(arena := B4(), unchecked := []), StringRegistry())
  {
    FreezeAsWrittenFirst();
    var s := K3().(arena := B3()[4 := Node(map["a_2_b" := 2], false, 4)], unchecked := [Unchecked(0, "q", 4)]);
    assert s.unchecked[0] == Unchecked(0, "q", 4);
    assert Get(s.arena, 4) == Node(map["a_2_b" := 2], false, 4);
    SingleKey();
    assert StringRegistry()["0_a_2_b_2"] == 1;
    RootBeforeFreeze();
    assert Get(s.arena, 0) == Get(B3(), 0);
    RootRedirected();
  }

  lemma RootRedirected()
    ensures map["p" := 1, "q" := 4]["q" := 1] == map["p" := 1, "q" := 1]
  {
  }

  lemma FreezeAsWritten()
    ensures Enumerated(K3(), SymbolOrder())
    ensures MinimizeAsWritten(K3(), StringRegistry(), SymbolOrder(), 0).0 == K3().(arena := B4(), unchecked := [])
  {
    FreezeAsWrittenFirst();
    FreezeAsWrittenSecond();
  }

  lemma CollidingInOrder()
    ensures InOrder(Colliding())
  {
    assert CompareSymbols("p", "p") == 0 && CompareSymbols("a", "b") == -1;
    assert CompareSymbols("p", "q") == -1;
  }

  /** The three insertions go through in the model's builder. */
  lemma CollidingBuild()
    ensures AddAll(New(), Colliding()) == Success(K3())
  {
    var pa: Path, pb: Path, qa: Path := ["p", "a"], ["p", "b"], ["q", "a_2_b"];
    CollidingFirst();
    AddAllCons(New(), pa, [pb, qa]);
    CollidingSecond();
    AddAllCons(K1(), pb, [qa]);
    CollidingThird();
    AddAllCons(K2(), qa, []);
  }

  lemma MergedWalks()
    ensures Walk(B4(), 0, ["q", "a_2_b"]) == None
    ensures Accepts(B4(), 0, ["q", "a"])
  {
    assert Get(B4(), 0).edges == map["p" := 1, "q" := 1];
    assert Get(B4(), 1).edges == map["a" := 2, "b" := 2];
    assert Walk(B4(), 0, ["q", "a_2_b"]) == Walk(B4(), 1, ["a_2_b"]);
    assert Walk(B4(), 0, ["q", "a"]) == Walk(B4(), 1, ["a"]);
    assert Get(B4(), 2).final;
  }

  lemma MinimizeAsWrittenOne(d: Dawg, registry: map<string, nat>, order: seq<Symbol>, downTo: nat)
    requires Enumerated(d, order) && |d.unchecked| > downTo
    ensures var s := MinimizeStepAsWritten(d, registry, order);
      MinimizeAsWritten(d, registry, order, downTo) == MinimizeAsWritten(s.0, s.1, order, downTo)
  {
  }

  lemma K1Enumerated()
    ensures Enumerated(K1(), SymbolOrder())
  {
    SymbolOrderDistinct();
    var o := SymbolOrder();
    assert "a" in o && "p" in o;
    assert ArenaListed(B1(), o);
    assert K1().unchecked[0].symbol == "p" && K1().unchecked[1].symbol == "a";
  }

  lemma K2Enumerated()
    ensures Enumerated(K2(), SymbolOrder())
  {
    SymbolOrderDistinct();
    var o := SymbolOrder();
    assert "a" in o && "b" in o && "p" in o;
    assert ArenaListed(B1(), o);
    ArenaListedUpdate(B1(), 1, Node(map["a" := 2, "b" := 3], false, 1), o);
    ArenaListedUpdate(B1()[1 := Node(map["a" := 2, "b" := 3], false, 1)], 3, Node(map[], true, 3), o);
    assert K2().unchecked[0].symbol == "p" && K2().unchecked[1].symbol == "b";
  }

  /** Inserting ['p', 'b'] pops the leaf under "pa" as written: its key "1"
      is new, so it is registered and the arena is untouched. */
  lemma InsertAsWrittenFirst()
    ensures Enumerated(K1(), SymbolOrder())
    ensures MinimizeAsWritten(K1(), map[], SymbolOrder(), 1) == (K1().(unchecked := [Unchecked(0, "p", 1)]), map["1" := 2])
  {
    K1Enumerated();
    SymbolOrderDistinct();
    assert K1().unchecked[1] == Unchecked(1, "a", 2);
    assert K1().unchecked[..1] == [Unchecked(0, "p", 1)];
    assert Get(B1(), 2) == Node(map[], true, 2);
    LeafKey(Get(B1(), 2), SymbolOrder());
    var s := MinimizeStepAsWritten(K1(), map[], SymbolOrder());
    assert s == (K1().(unchecked := [Unchecked(0, "p", 1)]), map["1" := 2]);
    MinimizeAsWrittenOne(K1(), map[], SymbolOrder(), 1);
  }

  /** Inserting ['q', 'a_2_b'] pops the whole frontier as written: the leaf
      under "pb" finds "1" and is redirected, then the state reached by "p"
      is registered under "0_a_2_b_2". */
  lemma InsertAsWrittenSecond()
    ensures Enumerated(K2(), SymbolOrder())
    ensures MinimizeAsWritten(K2(), map["1" := 2], SymbolOrder(), 0) == (K2().(arena := M3().arena, unchecked := []), StringRegistry())
  {
    K2Enumerated();
    SymbolOrderDistinct();
    var o := SymbolOrder();
    assert K2().unchecked[1] == Unchecked(1, "b", 3);
    assert K2().unchecked[..1] == [Unchecked(0, "p", 1)];
    assert Get(B2(), 3) == Node(map[], true, 3);
    LeafKey(Get(B2(), 3), o);
    assert Get(B2(), 1).edges["b" := 2] == map["a" := 2, "b" := 2];
    var s1 := MinimizeStepAsWritten(K2(), map["1" := 2], o);
    assert s1 == (K2().(arena := M3().arena, unchecked := [Unchecked(0, "p", 1)]), map["1" := 2]);
    MinimizeAsWrittenOne(K2(), map["1" := 2], o, 0);
    assert Get(M3().arena, 1) == PairNode();
    PairKey();
    assert map["1" := 2]["0_a_2_b_2" := 1] == StringRegistry();
    var s2 := MinimizeStepAsWritten(s1.0, s1.1, o);
    assert s2 == (K2().(arena := M3().arena, unchecked := []), StringRegistry());
    MinimizeAsWrittenOne(s1.0, s1.1, o, 0);
  }

  /** During the insertions the as-written pops leave the arena and frontier
      the model's pops leave, and they build exactly `StringRegistry()`. */
  lemma InsertionAsWritten()
    ensures Enumerated(K1(), SymbolOrder()) && Enumerated(K2(), SymbolOrder())
    ensures var m1 := MinimizeAsWritten(K1(), map[], SymbolOrder(), 1);
      && m1.0.arena == Minimize(K1(), 1).arena && m1.0.unchecked == Minimize(K1(), 1).unchecked
      && m1.1 == map["1" := 2]
    ensures var m2 := MinimizeAsWritten(K2(), map["1" := 2], SymbolOrder(), 0);
      && m2.0.arena == Minimize(K2(), 0).arena && m2.0.unchecked == Minimize(K2(), 0).unchecked
      && m2.1 == StringRegistry()
  {
    InsertAsWrittenFirst();
    InsertAsWrittenSecond();
    assert MinimizeStep(K1()) == K1().(unchecked := [Unchecked(0, "p", 1)], registry := map[Signature(true, map[]) := 2]);
    MinimizeOne(K1(), 1);
    CollidingCut();
  }

  /** As written, `from([['p', 'a'], ['p', 'b'], ['q', 'a_2_b']])` builds the
      three insertions as the model does, holding the same two registered
      states under their string keys; freezing then merges the state reached
      by "q" into the one reached by "p", so the inserted ['q', 'a_2_b'] is
      lost and the never inserted ['q', 'a'] is accepted. */
  lemma AsWrittenLosesPath()
    ensures AddAll(New(), Colliding()) == Success(K3())
    ensures Enumerated(K3(), SymbolOrder())
    ensures Listed(Get(K3().arena, 2), SymbolOrder()) && Listed(Get(K3().arena, 1), SymbolOrder())
    ensures StringRegistry() == map[EncodeAsWritten(Get(K3().arena, 2), SymbolOrder()) := 2, EncodeAsWritten(Get(K3().arena, 1), SymbolOrder()) := 1]
    ensures K3().registry == map[Encode(Get(K3().arena, 2)) := 2, Encode(Get(K3().arena, 1)) := 1]
    ensures var f := MinimizeAsWritten(K3(), StringRegistry(), SymbolOrder(), 0).0;
      !Accepts(f.arena, f.root, ["q", "a_2_b"]) && Accepts(f.arena, f.root, ["q", "a"])
  {
    CollidingBuild();
    StringRegistryMatches();
    FreezeAsWritten();
    MergedWalks();
  }

  lemma NonEmptyThree(p: Path, q: Path, r: Path)
    requires p != [] && q != [] && r != [] && p != q && q != r && p != r
    ensures |set x | x in [p, q, r] && x != []| == 3
  {
    assert (set x | x in [p, q, r] && x != []) == {p, q, r};
  }

  lemma NotInserted()
    ensures ["q", "a"] !in [["p", "a"], ["p", "b"], ["q", "a_2_b"]]
  {
    assert ["q", "a"] != ["q", "a_2_b"] by {
      assert ["q", "a"][1] != ["q", "a_2_b"][1];
    }
  }

  /** With the structural key the same input keeps exactly what was
      inserted. */
  lemma StructuralKeepsPath()
    ensures From(Colliding()).Success?
    ensures var d := From(Colliding()).value;
      Accepts(d.arena, d.root, ["q", "a_2_b"]) && !Accepts(d.arena, d.root, ["q", "a"]) && d.count == 3
  {
    var pa: Path, pb: Path, qa: Path := ["p", "a"], ["p", "b"], ["q", "a_2_b"];
    assert Colliding() == [pa, pb, qa];
    CollidingInOrder();
    FromSpec([pa, pb, qa]);
    NonEmptyThree(pa, pb, qa);
    NotInserted();
  }
}
