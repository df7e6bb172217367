/**
 * Element names and the unordered pairs that key the recipe table.
 *
 * Python orders `str` values by comparing code points from the left, a proper
 * prefix coming first.  Dafny's `<` on sequences means "proper prefix", so the
 * order `sorted([a, b])` relies on is defined here explicitly.
 */
module Names {

  /** The key of a recipe: two input names. */
  type Pair = (string, string)

  /** No name occurs twice in `s`. */
  predicate Distinct(s: seq<string>)
  {
    forall i, j :: 0 <= i < j < |s| ==> s[i] != s[j]
  }

  /** Python's `a < b` on strings. */
  predicate Less(a: string, b: string)
  {
    if b == [] then false
    else if a == [] then true
    else if a[0] != b[0] then a[0] < b[0]
    else Less(a[1..], b[1..])
  }

  lemma {:induction false} LessIrreflexive(a: string)
    ensures !Less(a, a)
  {
    if a != [] {
      LessIrreflexive(a[1..]);
    }
  }

  lemma {:induction false} LessAsymmetric(a: string, b: string)
    ensures Less(a, b) ==> !Less(b, a)
  {
    if a != [] && b != [] && a[0] == b[0] {
      LessAsymmetric(a[1..], b[1..]);
    }
  }

  lemma {:induction false} LessTransitive(a: string, b: string, c: string)
    requires Less(a, b) && Less(b, c)
    ensures Less(a, c)
  {
    if a != [] && a[0] == b[0] && b[0] == c[0] {
      LessTransitive(a[1..], b[1..], c[1..]);
    }
  }

  lemma {:induction false} LessTrichotomy(a: string, b: string)
    ensures a == b || Less(a, b) || Less(b, a)
  {
    if a != [] && b != [] && a[0] == b[0] {
      LessTrichotomy(a[1..], b[1..]);
      if a[1..] == b[1..] {
        assert a == [a[0]] + a[1..] && b == [b[0]] + b[1..];
      }
    }
  }

  /** A key is normalised when its first name is not after its second. */
  predicate IsSorted(p: Pair)
  {
    !Less(p.1, p.0)
  }

  /**
   * `tuple(sorted([a, b]))`: the two names in ascending order.  The sort
   * swaps them only when `b < a`, so equal names keep their places.
   */
  function SortedPair(a: string, b: string): (p: Pair)
    ensures IsSorted(p)
    ensures multiset{p.0, p.1} == multiset{a, b}
  {
    LessAsymmetric(a, b);
    if Less(b, a) then (b, a) else (a, b)
  }

  /** Both orders of the same two names normalise to the same key. */
  lemma SortedPairSymmetric(a: string, b: string)
    ensures SortedPair(a, b) == SortedPair(b, a)
  {
    LessTrichotomy(a, b);
    LessAsymmetric(a, b);
  }

  /** Two pairs have the same key exactly when they hold the same two names. */
  lemma SortedPairSameNames(a: string, b: string, c: string, d: string)
    ensures SortedPair(a, b) == SortedPair(c, d) <==> multiset{a, b} == multiset{c, d}
  {
    LessTrichotomy(a, b);
    LessTrichotomy(c, d);
    LessAsymmetric(a, b);
    LessAsymmetric(c, d);
    var p, q := SortedPair(a, b), SortedPair(c, d);
    if multiset{a, b} == multiset{c, d} {
      assert multiset{p.0, p.1} == multiset{q.0, q.1};
      assert p.0 in multiset{q.0, q.1} && p.1 in multiset{q.0, q.1};
      if p != q {
        assert p.0 == q.1 && p.1 == q.0;
        LessTrichotomy(p.0, p.1);
        LessAsymmetric(p.0, p.1);
      }
    }
  }
}
