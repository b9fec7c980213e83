/** The cases the library's tests exercise, proved on concrete input. Each
    insertion is unfolded step by step into literal builder states (`D1`,
    `D2`, ...), so the proofs show the exact graph the original builds.
 */
module Examples {
  import opened Order
  import opened Graph
  import opened Builder
  import opened Invariant
  import opened Adding
  import opened Building

  /** The string paths the tests use, one symbol per character. */
  const WordA: Path := StringPath("a")
  const WordB: Path := StringPath("b")
  const WordAb: Path := StringPath("ab")
  const WordBa: Path := StringPath("ba")
  const WordAbc: Path := StringPath("abc")
  const WordBcd: Path := StringPath("bcd")
  const WordAbcd: Path := StringPath("abcd")

  function A1(): Arena
  {
    map[0 := Node(map["a" := 1], false, 0), 1 := Node(map["b" := 2], false, 1), 2 := Node(map["c" := 3], false, 2),
      3 := Node(map["d" := 4], false, 3), 4 := Node(map[], true, 4)]
  }

  function U1(): seq<Unchecked>
  {
    [Unchecked(0, "a", 1), Unchecked(1, "b", 2), Unchecked(2, "c", 3), Unchecked(3, "d", 4)]
  }

  lemma GrowOne(d: Dawg, node: nat, s: Symbol, rest: Path)
    ensures Grow(d, node, [s] + rest) == Grow(Extend(d, node, s), d.nextId, rest)
  {
    assert ([s] + rest)[1..] == rest;
  }

  /** The chain grown for the first path. */
  lemma GrowFirst()
    ensures Grow(New(), 0, ["a", "b", "c", "d"]) == (Dawg(A1()[4 := Node(map[], false, 4)], 5, 0, 0, [], U1(), map[], false), 4)
  {
    var d0 := New();
    var e1 := Extend(d0, 0, "a");
    GrowOne(d0, 0, "a", ["b", "c", "d"]);
    var e2 := Extend(e1, 1, "b");
    GrowOne(e1, 1, "b", ["c", "d"]);
    var e3 := Extend(e2, 2, "c");
    GrowOne(e2, 2, "c", ["d"]);
    var e4 := Extend(e3, 3, "d");
    GrowOne(e3, 3, "d", []);
    assert e4 == Dawg(A1()[4 := Node(map[], false, 4)], 5, 0, 0, [], U1(), map[], false);
  }

  lemma FirstInsert()
    ensures Add(New(), ["a", "b", "c", "d"]) == Success(D1())
  {
    var p: Path := ["a", "b", "c", "d"];
    assert ComparePaths(p, []) == 4;
    assert p[0..] == p;
    GrowFirst();
    AddSteps(New(), p, 0, New(), Dawg(A1()[4 := Node(map[], false, 4)], 5, 0, 0, [], U1(), map[], false), 4);
    assert A1()[4 := Node(map[], false, 4)][4 := Node(map[], true, 4)] == A1();
  }

  function D1(): Dawg
  {
    Dawg(A1(), 5, 0, 1, ["a", "b", "c", "d"], U1(), map[], false)
  }

  function R1(): map<Signature, nat>
  {
    map[Signature(true, map[]) := 4, Signature(false, map["d" := 4]) := 3,
      Signature(false, map["c" := 3]) := 2, Signature(false, map["b" := 2]) := 1]
  }

  lemma MinimizeOne(d: Dawg, downTo: nat)
    requires |d.unchecked| > downTo
    ensures Minimize(d, downTo) == Minimize(MinimizeStep(d), downTo)
  {
  }

  /** Inserting "bcd" registers the whole chain of "abcd", one state per
      signature. */
  lemma MinimizeFirst()
    ensures Minimize(D1(), 0) == Dawg(A1(), 5, 0, 1, ["a", "b", "c", "d"], [], R1(), false)
  {
    var s1 := MinimizeStep(D1());
    assert s1 == D1().(unchecked := U1()[..3], registry := map[Signature(true, map[]) := 4]);
    var s2 := MinimizeStep(s1);
    assert s2 == D1().(unchecked := U1()[..2], registry := map[Signature(true, map[]) := 4, Signature(false, map["d" := 4]) := 3]);
    assert Encode(Get(A1(), 2)) !in s2.registry by {
      assert "c" in map["c" := 3] && "c" !in map["d" := 4];
    }
    var s3 := MinimizeStep(s2);
    assert s3 == D1().(unchecked := U1()[..1], registry := map[Signature(true, map[]) := 4, Signature(false, map["d" := 4]) := 3,
      Signature(false, map["c" := 3]) := 2]);
    assert Encode(Get(A1(), 1)) !in s3.registry by {
      assert "b" in map["b" := 2] && "b" !in map["d" := 4] && "b" !in map["c" := 3];
    }
    var s4 := MinimizeStep(s3);
    assert s4 == D1().(unchecked := [], registry := R1());
    MinimizeOne(D1(), 0);
    MinimizeOne(s1, 0);
    MinimizeOne(s2, 0);
    MinimizeOne(s3, 0);
  }

  function A2(): Arena
  {
    A1()[0 := Node(map["a" := 1, "b" := 5], false, 0)][5 := Node(map["c" := 6], false, 5)]
      [6 := Node(map["d" := 7], false, 6)][7 := Node(map[], true, 7)]
  }

  function U2(): seq<Unchecked>
  {
    [Unchecked(0, "b", 5), Unchecked(5, "c", 6), Unchecked(6, "d", 7)]
  }

  function D2(): Dawg
  {
    Dawg(A2(), 8, 0, 2, ["b", "c", "d"], U2(), R1(), false)
  }

  lemma GrowSecond()
    ensures var m := Dawg(A1(), 5, 0, 1, ["a", "b", "c", "d"], [], R1(), false);
      Grow(m, 0, ["b", "c", "d"]) == (m.(arena := A2()[7 := Node(map[], false, 7)], nextId := 8, unchecked := U2()), 7)
  {
    var m := Dawg(A1(), 5, 0, 1, ["a", "b", "c", "d"], [], R1(), false);
    var e1 := Extend(m, 0, "b");
    GrowOne(m, 0, "b", ["c", "d"]);
    var e2 := Extend(e1, 5, "c");
    GrowOne(e1, 5, "c", ["d"]);
    var e3 := Extend(e2, 6, "d");
    GrowOne(e2, 6, "d", []);
    assert e3 == m.(arena := A2()[7 := Node(map[], false, 7)], nextId := 8, unchecked := U2());
  }

  lemma SecondInsert()
    ensures Add(D1(), ["b", "c", "d"]) == Success(D2())
  {
    var p: Path := ["b", "c", "d"];
    var m := Dawg(A1(), 5, 0, 1, ["a", "b", "c", "d"], [], R1(), false);
    assert CompareSymbols("b", "a") == 1;
    assert ComparePaths(p, D1().previous) == 1;
    assert p[0..] == p;
    MinimizeFirst();
    GrowSecond();
    AddSteps(D1(), p, 0, m, m.(arena := A2()[7 := Node(map[], false, 7)], nextId := 8, unchecked := U2()), 7);
    assert A2()[7 := Node(map[], false, 7)][7 := Node(map[], true, 7)] == A2();
  }

  /** An insertion assembled from its minimised and grown stages. */
  lemma AddSteps(d: Dawg, path: Path, cp: nat, m: Dawg, g: Dawg, t: nat)
    requires !d.finalized && ComparePaths(path, d.previous) > 0 && CommonPrefix(path, d.previous) == cp
    requires Minimize(d, cp) == m && Grow(m, Top(m), path[cp..]) == (g, t)
    ensures Add(d, path) == Success(g.(arena := g.arena[t := Get(g.arena, t).(final := true)], previous := path, count := g.count + 1))
  {
    AddUnfold(d, path);
  }

  function A3(): Arena
  {
    A2()[6 := Node(map["d" := 4], false, 6)][5 := Node(map["c" := 3], false, 5)][0 := Node(map["a" := 1, "b" := 2], false, 0)]
  }

  /** Freezing after "bcd": each state of the new chain finds its twin from
      "abcd" in the registry, so the root's "b" edge lands on the state that
      "ab" reaches. */
  lemma MinimizeSecond()
    ensures Minimize(D2(), 0) == D2().(arena := A3(), unchecked := [])
  {
    var s1 := MinimizeStep(D2());
    FreezeStep1();
    var s2 := MinimizeStep(s1);
    FreezeStep2();
    FreezeStep3();
    MinimizeOne(D2(), 0);
    MinimizeOne(s1, 0);
    MinimizeOne(s2, 0);
  }

  lemma FreezeStep1()
    ensures MinimizeStep(D2()) == D2().(arena := A2()[6 := Node(map["d" := 4], false, 6)], unchecked := U2()[..2])
  {
    assert D2().unchecked[2] == Unchecked(6, "d", 7);
    assert Encode(Get(A2(), 7)) == Signature(true, map[]);
    assert R1()[Signature(true, map[])] == 4;
    assert Get(A2(), 6).edges["d" := 4] == map["d" := 4];
  }

  lemma FreezeStep2()
    ensures var s1 := D2().(arena := A2()[6 := Node(map["d" := 4], false, 6)], unchecked := U2()[..2]);
      MinimizeStep(s1) == D2().(arena := s1.arena[5 := Node(map["c" := 3], false, 5)], unchecked := U2()[..1])
  {
    var k := Signature(false, map["d" := 4]);
    assert k != Signature(true, map[]);
    assert R1()[k] == 3 by {
      assert "d" in map["d" := 4] && "d" !in map["c" := 3] && "d" !in map["b" := 2];
    }
    var a := A2()[6 := Node(map["d" := 4], false, 6)];
    assert Encode(Get(a, 6)) == k;
    assert Get(a, 5).edges["c" := 3] == map["c" := 3];
  }

  lemma FreezeStep3()
    ensures var s2 := D2().(arena := A2()[6 := Node(map["d" := 4], false, 6)][5 := Node(map["c" := 3], false, 5)], unchecked := U2()[..1]);
      MinimizeStep(s2) == D2().(arena := A3(), unchecked := [])
  {
    var k := Signature(false, map["c" := 3]);
    assert k != Signature(true, map[]);
    assert R1()[k] == 2 by {
      assert "c" in map["c" := 3] && "c" !in map["d" := 4] && "c" !in map["b" := 2];
    }
    var a := A2()[6 := Node(map["d" := 4], false, 6)][5 := Node(map["c" := 3], false, 5)];
    assert Encode(Get(a, 5)) == k;
    assert Get(a, 0).edges["b" := 2] == map["a" := 1, "b" := 2];
  }

  /** Both insertions of `from(['abcd', 'bcd'])` succeed. */
  lemma BuildSecond()
    ensures AddAll(New(), [["a", "b", "c", "d"], ["b", "c", "d"]]) == Success(D2())
  {
    var p1: Path, p2: Path := ["a", "b", "c", "d"], ["b", "c", "d"];
    FirstInsert();
    SecondInsert();
    AddAllTwo(New(), p1, p2, D1(), D2());
  }

  lemma AddAllTwo(d: Dawg, p1: Path, p2: Path, d1: Dawg, d2: Dawg)
    requires Add(d, p1) == Success(d1) && Add(d1, p2) == Success(d2)
    ensures AddAll(d, [p1, p2]) == Success(d2)
  {
    assert [p1, p2] == [p1] + [p2] && [p2] == [p2] + [];
    AddAllCons(d, p1, [p2]);
    AddAllCons(d1, p2, []);
  }

  lemma WalksShared()
    ensures Walk(A3(), 0, ["a", "b"]) == Walk(A3(), 0, ["b"]) == Some(2)
    ensures Accepts(A3(), 0, ["a", "b", "c", "d"]) && Accepts(A3(), 0, ["b", "c", "d"])
  {
    assert Walk(A3(), 0, ["a", "b"]) == Walk(A3(), 1, ["b"]);
    assert Walk(A3(), 0, ["a", "b", "c", "d"]) == Walk(A3(), 1, ["b", "c", "d"]);
    assert Walk(A3(), 2, ["c", "d"]) == Walk(A3(), 3, ["d"]);
  }

  /** `from(['abcd', 'bcd'])`: both words are in, the count is two, and the
      shared suffix "cd" is stored once: "ab" and "b" lead to the same state. */
  lemma SuffixShared()
    ensures From([WordAbcd, WordBcd]).Success?
    ensures var d := From([WordAbcd, WordBcd]).value;
      && Accepts(d.arena, d.root, WordAbcd) && Accepts(d.arena, d.root, WordBcd)
      && d.count == 2
      && Walk(d.arena, d.root, WordAb) == Walk(d.arena, d.root, WordB) == Some(2)
  {
    var p1, p2 := WordAbcd, WordBcd;
    assert p1 == ["a", "b", "c", "d"] && p2 == ["b", "c", "d"];
    assert WordAb == ["a", "b"] && WordB == ["b"];
    BuildSecond();
    MinimizeSecond();
    WalksShared();
  }

  lemma AddAllCons(d: Dawg, p: Path, rest: seq<Path>)
    requires Add(d, p).Success?
    ensures AddAll(d, [p] + rest) == AddAll(Add(d, p).value, rest)
  {
    assert ([p] + rest)[0] == p && ([p] + rest)[1..] == rest;
  }

  /** A new builder, and one built from no paths, is empty. */
  lemma EmptyBuilder()
    ensures Count(New()) == 0 && !Accepts(New().arena, New().root, WordA)
    ensures From([]).Success? && Count(From([]).value) == 0
  {
    assert WordA == ["a"];
  }

  /** The empty path compares equal to the initial `previous` and so adds
      nothing; after any non-empty path it is out of order. */
  lemma AddEmptyPath(d: Dawg)
    requires !d.finalized
    ensures Add(d, []) == if d.previous == [] then Success(d) else Failure(OutOfOrder)
  {
    if d.previous != [] {
      PrefixOrdersFirst([], d.previous);
      ComparePathsAntisymmetric([], d.previous);
    }
  }

  /** A path ordered before the previous one is refused, and so is any path
      after freezing. */
  lemma Refusals()
    ensures Add(New(), WordB).Success?
    ensures Add(Add(New(), WordB).value, WordA) == Failure(OutOfOrder)
    ensures Add(Finalize(New()), WordA) == Failure(Finalized)
  {
    assert WordA == ["a"] && WordB == ["b"];
    assert ComparePaths(["a"], ["b"]) == -1;
  }

  lemma NonEmptyOne(p: Path)
    requires p != []
    ensures |set x | x in [p] && x != []| == 1
  {
    assert (set x | x in [p] && x != []) == {p};
  }

  lemma NonEmptyTwo(p: Path, q: Path)
    requires p != [] && q != [] && p != q
    ensures |set x | x in [p, q] && x != []| == 2
  {
    assert (set x | x in [p, q] && x != []) == {p, q};
  }

  lemma TwoWordsInOrder()
    ensures InOrder([["a", "b"], ["b", "a"]])
  {
    assert CompareSymbols("a", "b") == -1;
  }

  /** `from(['ab', 'ba'])` holds both words and counts two. */
  lemma TwoWords()
    ensures From([WordAb, WordBa]).Success?
    ensures var d := From([WordAb, WordBa]).value;
      && Accepts(d.arena, d.root, WordAb) && Accepts(d.arena, d.root, WordBa)
      && !Accepts(d.arena, d.root, WordA) && d.count == 2
  {
    var ab: Path, ba: Path := ["a", "b"], ["b", "a"];
    assert WordAb == ab && WordBa == ba && WordA == ["a"];
    assert ab in [ab, ba] && ba in [ab, ba] && ["a"] !in [ab, ba];
    TwoWordsInOrder();
    FromSpec([ab, ba]);
    NonEmptyTwo(ab, ba);
  }

  /** `['abc']` is a single edge and does not accept "abc" spelled out. */
  lemma ArrayPathOneSymbol()
    ensures From([["abc"]]).Success?
    ensures var d := From([["abc"]]).value;
      Accepts(d.arena, d.root, ["abc"]) && !Accepts(d.arena, d.root, WordAbc) && d.count == 1
  {
    assert WordAbc == ["a", "b", "c"];
    assert ["abc"] in [["abc"]] && ["a", "b", "c"] !in [["abc"]];
    FromSpec([["abc"]]);
    NonEmptyOne(["abc"]);
  }

  /** `['ab', 'c']` is a path of two symbols, distinct from `['abc']`. */
  lemma ArrayPathTwoSymbols()
    ensures From([["ab", "c"]]).Success?
    ensures var d := From([["ab", "c"]]).value;
      Accepts(d.arena, d.root, ["ab", "c"]) && !Accepts(d.arena, d.root, ["abc"]) && d.count == 1
  {
    assert ["ab", "c"] in [["ab", "c"]] && ["abc"] !in [["ab", "c"]];
    FromSpec([["ab", "c"]]);
    NonEmptyOne(["ab", "c"]);
  }

  /** One insertion into a new builder: the path is in, nothing else is, and
      the count is one. */
  lemma SingleInsert(p: Path)
    requires p != []
    ensures Add(New(), p).Success?
    ensures var d := Add(New(), p).value;
      Count(d) == 1 && forall q :: Accepts(d.arena, d.root, q) <==> q == p
  {
    var ps := [p];
    var r := Built(ps);
    NonEmptyOne(p);
    AddAllCons(New(), p, []);
    assert ps == [p] + [];
  }
}
