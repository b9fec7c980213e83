/** Paths, symbols and the default comparator used to enforce insertion order.

    A path is a sequence of symbols. A string path contributes one symbol per
    character; an array path contributes one symbol per element. Symbols are
    compared character by character by Unicode scalar value, which stands in
    for the locale collation of `localeCompare`: the builder only relies on it
    being a total order whose zero result means equality.
 */
module Order {

  type Symbol = string
  type Path = seq<Symbol>

  /** Character-by-character comparison of two symbols: -1, 0 or 1. */
  function CompareSymbols(a: Symbol, b: Symbol): int
  {
    if |a| == 0 && |b| == 0 then 0
    else if |a| == 0 then -1
    else if |b| == 0 then 1
    else if a[0] < b[0] then -1
    else if b[0] < a[0] then 1
    else CompareSymbols(a[1..], b[1..])
  }

  predicate SymbolLess(a: Symbol, b: Symbol)
  {
    CompareSymbols(a, b) < 0
  }

  /** The comparison of two symbols is zero exactly when they are equal. */
  lemma {:induction false} CompareSymbolsZero(a: Symbol, b: Symbol)
    ensures CompareSymbols(a, b) == 0 <==> a == b
  {
    if |a| > 0 && |b| > 0 && a[0] == b[0] {
      CompareSymbolsZero(a[1..], b[1..]);
      assert a == [a[0]] + a[1..];
      assert b == [b[0]] + b[1..];
    }
  }

  /** Swapping the operands negates the comparison. */
  lemma {:induction false} CompareSymbolsAntisymmetric(a: Symbol, b: Symbol)
    ensures CompareSymbols(b, a) == -CompareSymbols(a, b)
  {
    if |a| > 0 && |b| > 0 && a[0] == b[0] {
      CompareSymbolsAntisymmetric(a[1..], b[1..]);
    }
  }

  /** The strict symbol order is transitive. */
  lemma {:induction false} SymbolLessTransitive(a: Symbol, b: Symbol, c: Symbol)
    requires SymbolLess(a, b) && SymbolLess(b, c)
    ensures SymbolLess(a, c)
  {
    if |a| > 0 && |b| > 0 && |c| > 0 && a[0] == b[0] && b[0] == c[0] {
      SymbolLessTransitive(a[1..], b[1..], c[1..]);
    }
  }

  /** The default array comparator: the first non-zero element comparison
      decides, otherwise the length difference. */
  function ComparePaths(a: Path, b: Path): int
  {
    if |a| == 0 || |b| == 0 then |a| - |b|
    else
      var r := CompareSymbols(a[0], b[0]);
      if r != 0 then r else ComparePaths(a[1..], b[1..])
  }

  /** Equal paths, and only they, compare zero. */
  lemma {:induction false} ComparePathsZero(a: Path, b: Path)
    ensures ComparePaths(a, b) == 0 <==> a == b
  {
    if |a| > 0 && |b| > 0 {
      CompareSymbolsZero(a[0], b[0]);
      if a[0] == b[0] {
        ComparePathsZero(a[1..], b[1..]);
        assert a == [a[0]] + a[1..];
        assert b == [b[0]] + b[1..];
      }
    }
  }

  /** Swapping the operands flips the sign of the comparison. */
  lemma {:induction false} ComparePathsAntisymmetric(a: Path, b: Path)
    ensures ComparePaths(a, b) < 0 <==> ComparePaths(b, a) > 0
  {
    if |a| > 0 && |b| > 0 {
      CompareSymbolsAntisymmetric(a[0], b[0]);
      if CompareSymbols(a[0], b[0]) == 0 {
        ComparePathsAntisymmetric(a[1..], b[1..]);
      }
    }
  }

  /** The path order is transitive (non-strict form). */
  lemma {:induction false} ComparePathsTransitive(a: Path, b: Path, c: Path)
    requires ComparePaths(a, b) <= 0 && ComparePaths(b, c) <= 0
    ensures ComparePaths(a, c) <= 0
  {
    if |a| > 0 && |b| > 0 && |c| > 0 {
      var ab := CompareSymbols(a[0], b[0]);
      var bc := CompareSymbols(b[0], c[0]);
      CompareSymbolsZero(a[0], b[0]);
      CompareSymbolsZero(b[0], c[0]);
      if ab == 0 && bc == 0 {
        ComparePathsTransitive(a[1..], b[1..], c[1..]);
      } else if ab == 0 {
        assert a[0] == b[0];
      } else if bc == 0 {
        assert b[0] == c[0];
      } else {
        SymbolLessTransitive(a[0], b[0], c[0]);
      }
    }
  }

  /** A proper prefix orders before every extension of it. */
  lemma {:induction false} PrefixOrdersFirst(a: Path, b: Path)
    requires |a| < |b| && a == b[..|a|]
    ensures ComparePaths(a, b) < 0
  {
    if |a| > 0 {
      CompareSymbolsZero(a[0], b[0]);
      PrefixOrdersFirst(a[1..], b[1..]);
    }
  }

  /** Length of the shared leading run of two paths. */
  function CommonPrefix(p: Path, q: Path): (n: nat)
    ensures n <= |p| && n <= |q|
    ensures p[..n] == q[..n]
    ensures n < |p| && n < |q| ==> p[n] != q[n]
  {
    if |p| == 0 || |q| == 0 || p[0] != q[0] then 0
    else
      var k := CommonPrefix(p[1..], q[1..]);
      assert p[..k + 1] == [p[0]] + p[1..][..k];
      assert q[..k + 1] == [q[0]] + q[1..][..k];
      k + 1
  }

  /** A path ordered strictly after `q` leaves the common run with `q` at a
      symbol greater than `q`'s, or extends `q`. */
  lemma {:induction false} GreaterDiverges(p: Path, q: Path)
    requires ComparePaths(p, q) > 0
    ensures CommonPrefix(p, q) < |p|
    ensures CommonPrefix(p, q) < |q| ==> SymbolLess(q[CommonPrefix(p, q)], p[CommonPrefix(p, q)])
  {
    if |p| > 0 && |q| > 0 && p[0] == q[0] {
      CompareSymbolsZero(p[0], q[0]);
      GreaterDiverges(p[1..], q[1..]);
    } else if |p| > 0 && |q| > 0 {
      CompareSymbolsZero(p[0], q[0]);
      CompareSymbolsAntisymmetric(p[0], q[0]);
    }
  }

  /** Every character lies below U+10000, so it is one UTF-16 code unit and
      one code point at once. */
  predicate BasicPlane(s: string)
  {
    forall i :: 0 <= i < |s| ==> s[i] < '\U{10000}'
  }

  /** The path of one-character symbols spelled by a string. `add` splits a
      string by UTF-16 code unit and `has` by code point; the two agree, and
      agree with this path, on basic-plane strings. */
  function StringPath(s: string): (p: Path)
    requires BasicPlane(s)
    ensures |p| == |s|
    ensures forall i :: 0 <= i < |s| ==> p[i] == [s[i]]
  {
    seq(|s|, i requires 0 <= i < |s| => [s[i]])
  }

  function Sign(x: int): int
  {
    if x < 0 then -1 else if x > 0 then 1 else 0
  }

  /** Comparing two whole strings (the `typeof a === 'string'` branch) agrees
      in sign with comparing their one-character paths element by element. */
  lemma {:induction false} StringCompareAgrees(s: string, t: string)
    requires BasicPlane(s) && BasicPlane(t)
    ensures Sign(CompareSymbols(s, t)) == Sign(ComparePaths(StringPath(s), StringPath(t)))
  {
    if |s| > 0 && |t| > 0 {
      assert StringPath(s)[1..] == StringPath(s[1..]);
      assert StringPath(t)[1..] == StringPath(t[1..]);
      StringCompareAgrees(s[1..], t[1..]);
      assert [s[0]][1..] == [] && [t[0]][1..] == [];
      CompareSymbolsZero([s[0]], [t[0]]);
    }
  }
}
