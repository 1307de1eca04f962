/**
 Counting rows of a column: how many rows hold a value, or a pair of values
 across two aligned columns. Every count is tied to the set of row positions
 it counts, which is what the aggregation, the contingency table and the
 posterior all reason about.
 */
module Counting {

  /** The rows of `s` holding `x`. */
  ghost function Positions<T>(s: seq<T>, x: T): set<int> {
    set i | 0 <= i < |s| && s[i] == x
  }

  /** The rows of `s` holding any value of `xs`. */
  ghost function PositionsIn<T>(s: seq<T>, xs: set<T>): set<int> {
    set i | 0 <= i < |s| && s[i] in xs
  }

  /** The rows where column `a` holds `x` and the aligned column `b` holds `y`. */
  ghost function PairPositions<A, B>(a: seq<A>, b: seq<B>, x: A, y: B): set<int> {
    set i | 0 <= i < |a| && i < |b| && a[i] == x && b[i] == y
  }

  /** The rows where column `a` holds a value of `xs` and column `b` holds `y`. */
  ghost function PairPositionsIn<A, B>(a: seq<A>, b: seq<B>, xs: set<A>, y: B): set<int> {
    set i | 0 <= i < |a| && i < |b| && a[i] in xs && b[i] == y
  }

  /** Number of rows of `s` holding `x`. */
  function Count<T(==)>(s: seq<T>, x: T): (n: nat)
    ensures n == |Positions(s, x)|
  {
    if |s| == 0 then 0
    else
      var k := |s| - 1;
      assert Positions(s, x) == Positions(s[..k], x) + (if s[k] == x then {k} else {});
      Count(s[..k], x) + (if s[k] == x then 1 else 0)
  }

  function Zip<A, B>(a: seq<A>, b: seq<B>): seq<(A, B)>
    requires |a| == |b|
  {
    seq(|a|, i requires 0 <= i < |a| => (a[i], b[i]))
  }

  /** Number of rows where `a` holds `x` and `b` holds `y`: one cell of a cross-tabulation. */
  function CountPairs<A(==), B(==)>(a: seq<A>, b: seq<B>, x: A, y: B): (n: nat)
    requires |a| == |b|
    ensures n == |PairPositions(a, b, x, y)|
  {
    assert Positions(Zip(a, b), (x, y)) == PairPositions(a, b, x, y);
    Count(Zip(a, b), (x, y))
  }

  lemma SubsetCardinality(xs: set<int>, ys: set<int>)
    requires xs <= ys
    ensures |xs| <= |ys|
  {
    assert ys == xs + (ys - xs);
  }

  /** Rows with `x` in `a` and `y` in `b` are among the rows with `x` in `a`. */
  lemma PairsWithin<A, B>(a: seq<A>, b: seq<B>, x: A, y: B)
    ensures |PairPositions(a, b, x, y)| <= |Positions(a, x)|
  {
    SubsetCardinality(PairPositions(a, b, x, y), Positions(a, x));
  }

  /**
   When column `b` only ever holds `y1` or `y2`, the rows holding `x` in `a`
   split into those paired with `y1` and those paired with `y2`.
   */
  lemma PositionsSplit<A, B>(a: seq<A>, b: seq<B>, x: A, y1: B, y2: B)
    requires |a| == |b| && y1 != y2
    requires forall i :: 0 <= i < |b| ==> b[i] == y1 || b[i] == y2
    ensures |Positions(a, x)| == |PairPositions(a, b, x, y1)| + |PairPositions(a, b, x, y2)|
  {
    var p1 := PairPositions(a, b, x, y1);
    var p2 := PairPositions(a, b, x, y2);
    assert Positions(a, x) == p1 + p2;
    assert p1 * p2 == {};
  }

  /** Adding one value `x` to the counted set adds exactly the rows holding `x`. */
  lemma PositionsInAdd<T>(s: seq<T>, x: T, xs: set<T>)
    requires x !in xs
    ensures |PositionsIn(s, {x} + xs)| == |Positions(s, x)| + |PositionsIn(s, xs)|
  {
    assert PositionsIn(s, {x} + xs) == Positions(s, x) + PositionsIn(s, xs);
    assert Positions(s, x) * PositionsIn(s, xs) == {};
  }

  /** The same, for rows counted together with a fixed value `y` of a second column. */
  lemma PairPositionsInAdd<A, B>(a: seq<A>, b: seq<B>, x: A, xs: set<A>, y: B)
    requires x !in xs
    ensures |PairPositionsIn(a, b, {x} + xs, y)|
            == |PairPositions(a, b, x, y)| + |PairPositionsIn(a, b, xs, y)|
  {
    assert PairPositionsIn(a, b, {x} + xs, y) == PairPositions(a, b, x, y) + PairPositionsIn(a, b, xs, y);
    assert PairPositions(a, b, x, y) * PairPositionsIn(a, b, xs, y) == {};
  }
}
