/** Building from a list of paths: it succeeds exactly for input in order,
    and the frozen result accepts exactly the non-empty input paths, counts
    each distinct one once, and is minimal.
 */
module Building {
  import opened Order
  import opened Graph
  import opened Builder
  import opened Invariant
  import opened Adding
  import opened Finalizing

  /** Every path orders no earlier than the one before it. */
  predicate InOrder(ps: seq<Path>)
  {
    forall i :: 0 <= i < |ps| - 1 ==> ComparePaths(ps[i], ps[i + 1]) <= 0
  }

  /** What the builder has accepted so far: the previous path (unless it is
      empty) and nothing ordered after it. */
  ghost predicate History(d: Dawg)
  {
    && (d.previous != [] ==> Accepts(d.arena, d.root, d.previous))
    && forall q :: Accepts(d.arena, d.root, q) ==> ComparePaths(q, d.previous) <= 0
  }

  /** The paths of `ps` other than `prev`. */
  function Fresh(ps: seq<Path>, prev: Path): set<Path>
  {
    set p | p in ps && p != prev
  }

  lemma FreshCons(p: Path, rest: seq<Path>, prev: Path)
    requires p != prev && forall q :: q in rest ==> q != prev
    ensures Fresh([p] + rest, prev) == {p} + Fresh(rest, p) + (if p in rest then {p} else {})
    ensures |Fresh([p] + rest, prev)| == 1 + |Fresh(rest, p)|
  {
    var all := Fresh([p] + rest, prev);
    assert all == {p} + Fresh(rest, p) + (if p in rest then {p} else {});
    assert p !in Fresh(rest, p);
  }

  lemma FreshSkip(rest: seq<Path>, prev: Path)
    ensures Fresh([prev] + rest, prev) == Fresh(rest, prev)
  {
  }

  lemma InOrderTail(prev: Path, ps: seq<Path>)
    requires |ps| > 0
    ensures InOrder([prev] + ps) <==> ComparePaths(prev, ps[0]) <= 0 && InOrder(ps)
  {
    var s := [prev] + ps;
    if ComparePaths(prev, ps[0]) <= 0 && InOrder(ps) {
      forall i | 0 <= i < |s| - 1 ensures ComparePaths(s[i], s[i + 1]) <= 0 {
        if i > 0 {
          assert s[i] == ps[i - 1] && s[i + 1] == ps[i];
        }
      }
    }
    if InOrder(s) {
      assert ComparePaths(s[0], s[1]) <= 0;
      forall i | 0 <= i < |ps| - 1 ensures ComparePaths(ps[i], ps[i + 1]) <= 0 {
        assert s[i + 1] == ps[i] && s[i + 2] == ps[i + 1];
      }
    }
  }

  /** In an ordered list every path orders no earlier than the first. */
  lemma {:induction false} InOrderAfterFirst(ps: seq<Path>, j: nat)
    requires InOrder(ps) && j < |ps|
    ensures ComparePaths(ps[0], ps[j]) <= 0
  {
    ComparePathsZero(ps[0], ps[0]);
    if j > 0 {
      InOrderAfterFirst(ps, j - 1);
      ComparePathsTransitive(ps[0], ps[j - 1], ps[j]);
    }
  }

  /** One insertion keeps the history: the new path is accepted and nothing
      after it. */
  lemma AddHistory(d: Dawg, rank: map<nat, nat>, path: Path) returns (rank': map<nat, nat>)
    requires Ready(d, rank) && History(d) && ComparePaths(path, d.previous) > 0
    ensures Add(d, path).Success? && Ready(Add(d, path).value, rank') && History(Add(d, path).value)
    ensures Add(d, path).value.count == d.count + 1
    ensures forall q :: Accepts(Add(d, path).value.arena, d.root, q) <==> Accepts(d.arena, d.root, q) || q == path
  {
    rank' := AddInv(d, rank, path);
    var d' := Add(d, path).value;
    ComparePathsZero(path, path);
    forall q | Accepts(d'.arena, d'.root, q) ensures ComparePaths(q, path) <= 0 {
      if q != path {
        ComparePathsAntisymmetric(path, d.previous);
        ComparePathsTransitive(q, d.previous, path);
      }
    }
  }

  /** Inserting a list into an unfrozen builder succeeds exactly when the
      list is in order after the previous path. */
  lemma {:induction false} AddAllOrder(d: Dawg, ps: seq<Path>)
    requires !d.finalized
    ensures AddAll(d, ps).Success? <==> InOrder([d.previous] + ps)
    ensures AddAll(d, ps).Success? ==> AddAll(d, ps).value.root == d.root
    decreases |ps|
  {
    if |ps| > 0 {
      InOrderTail(d.previous, ps);
      ComparePathsAntisymmetric(ps[0], d.previous);
      assert [ps[0]] + ps[1..] == ps;
      if Add(d, ps[0]).Success? {
        AddRoot(d, ps[0]);
        AddAllOrder(Add(d, ps[0]).value, ps[1..]);
      }
    }
  }

  lemma AddRoot(d: Dawg, path: Path)
    requires Add(d, path).Success?
    ensures Add(d, path).value.root == d.root
  {
  }

  /** The list's paths other than `prev` all differ from it when the list is
      in order after a path `p` ordered strictly after `prev`. */
  lemma AfterDiffers(prev: Path, p: Path, rest: seq<Path>)
    requires ComparePaths(p, prev) > 0 && InOrder([p] + rest)
    ensures forall q :: q in rest ==> q != prev
  {
    forall q | q in rest ensures q != prev {
      var j :| 0 <= j < |rest| && rest[j] == q;
      InOrderAfterFirst([p] + rest, j + 1);
      ComparePathsAntisymmetric(p, prev);
      ComparePathsTransitive(prev, p, q);
      ComparePathsZero(prev, q);
      ComparePathsAntisymmetric(prev, q);
    }
  }

  /** Inserting a list in order: the accepted paths gain exactly the list's
      non-empty paths and the count grows by the number of distinct paths
      other than the previous one. */
  lemma {:induction false} AddAllSpec(d: Dawg, rank: map<nat, nat>, ps: seq<Path>) returns (rank': map<nat, nat>)
    requires Ready(d, rank) && History(d) && InOrder([d.previous] + ps)
    ensures AddAll(d, ps).Success?
    ensures Ready(AddAll(d, ps).value, rank') && History(AddAll(d, ps).value)
    ensures AddAll(d, ps).value.count == d.count + |Fresh(ps, d.previous)|
    ensures forall q :: Accepts(AddAll(d, ps).value.arena, d.root, q) <==> Accepts(d.arena, d.root, q) || (q in ps && q != [])
    decreases |ps|
  {
    AddAllOrder(d, ps);
    if |ps| == 0 {
      rank' := rank;
      assert Fresh(ps, d.previous) == {};
    } else {
      var p, rest := ps[0], ps[1..];
      assert ps == [p] + rest;
      InOrderTail(d.previous, ps);
      ComparePathsZero(p, d.previous);
      ComparePathsAntisymmetric(p, d.previous);
      if p == d.previous {
        FreshSkip(rest, p);
        rank' := AddAllSpec(d, rank, rest);
      } else {
        var r1 := AddHistory(d, rank, p);
        var d' := Add(d, p).value;
        AddAllOrder(d', rest);
        rank' := AddAllSpec(d', r1, rest);
        AfterDiffers(d.previous, p, rest);
        FreshCons(p, rest, d.previous);
      }
    }
  }

  /** `From(paths)` succeeds exactly for paths in order. */
  lemma FromOrder(ps: seq<Path>)
    ensures From(ps).Success? <==> InOrder(ps)
  {
    AddAllOrder(New(), ps);
    if |ps| > 0 {
      InOrderTail([], ps);
    }
  }

  /** Before freezing: inserting paths in order into a new builder. */
  lemma Built(ps: seq<Path>) returns (rank: map<nat, nat>)
    requires InOrder(ps)
    ensures AddAll(New(), ps).Success? && Inv(AddAll(New(), ps).value, rank)
    ensures AddAll(New(), ps).value.count == |set p | p in ps && p != []|
    ensures forall q :: Accepts(AddAll(New(), ps).value.arena, AddAll(New(), ps).value.root, q) <==> q in ps && q != []
  {
    var d := New();
    InvNew();
    assert forall q :: !Accepts(d.arena, d.root, q);
    if |ps| > 0 {
      InOrderTail([], ps);
    }
    AddAllOrder(d, ps);
    rank := AddAllSpec(d, map[], ps);
    assert Fresh(ps, []) == set p | p in ps && p != [];
  }

  /** For paths in order, the frozen result accepts exactly the non-empty
      input paths, counts each distinct non-empty path once, and no two of
      its reachable states are interchangeable. */
  lemma FromSpec(ps: seq<Path>)
    requires InOrder(ps)
    ensures From(ps).Success?
    ensures From(ps).value.finalized && Minimal(From(ps).value)
    ensures From(ps).value.count == |set p | p in ps && p != []|
    ensures forall q :: Accepts(From(ps).value.arena, From(ps).value.root, q) <==> q in ps && q != []
  {
    var rank := Built(ps);
    var b := AddAll(New(), ps).value;
    FinalizeSpec(b, rank);
    assert From(ps).value == Finalize(b);
  }
}
