/**
 The Beta-posterior parameters of `create_posterior_distribution_chart`:
 a uniform Beta(1, 1) prior updated with each arm's conversions.
 */
module Posterior {
  import opened Frames
  import opened Counting

  /** Shape parameters of one arm's Beta posterior. */
  datatype BetaParams = BetaParams(a: nat, b: nat)

  /**
   `p` is the posterior of arm `variant`: one more than its converted rows as
   `a`, and `a + b` two more than its rows, so that `b` is one more than the
   arm's unconverted rows.
   */
  ghost predicate ArmParams(labels: seq<Cell>, conv: seq<Cell>, variant: Cell, p: BetaParams) {
    && p.a == |PairPositions(labels, conv, variant, Flag(true))| + 1
    && p.a >= 1 && p.b >= 1
    && p.a + p.b == |Positions(labels, variant)| + 2
  }

  /**
   One arm: `successes` is the sum of the boolean `converted` column over the
   arm's rows, `failures` the remaining rows of the arm; each gets one
   pseudo-count.
   */
  function BetaFor(labels: seq<Cell>, conv: seq<Cell>, variant: Cell): (p: BetaParams)
    requires |labels| == |conv|
    ensures ArmParams(labels, conv, variant, p)
  {
    PairsWithin(labels, conv, variant, Flag(true));
    var successes := CountPairs(labels, conv, variant, Flag(true));
    var failures := Count(labels, variant) - successes;
    BetaParams(successes + 1, failures + 1)
  }

  /**
   The parameters for both arms, or `None` when a column is missing or the
   assignment column's distinct values (null counted as a value) are not
   exactly A and B. The `converted` column must be boolean, as the derived
   one is: `sum()` over any other column does not count conversions.
   */
  function PosteriorParams(f: Frame, assignment: string): (r: Option<map<Cell, BetaParams>>)
    requires f.Valid()
    requires ConvertedColumn in f.cols ==> BooleanColumn(f.cols[ConvertedColumn])
    ensures r.Some? <==>
              && assignment in f.cols && ConvertedColumn in f.cols
              && Elements(f.cols[assignment]) == {LabelA, LabelB}
    ensures r.Some? ==> r.value.Keys == {LabelA, LabelB}
    ensures r.Some? ==>
              forall v :: v in r.value ==> ArmParams(f.cols[assignment], f.cols[ConvertedColumn], v, r.value[v])
  {
    if assignment !in f.cols || ConvertedColumn !in f.cols then None
    else
      var variants := Unique(f.cols[assignment]);
      TwoArmGuard(f.cols[assignment]);
      if |variants| != 2 || LabelA !in variants || LabelB !in variants then None
      else
        assert forall v :: v in variants <==> v == LabelA || v == LabelB;
        Some(map v | v in variants :: BetaFor(f.cols[assignment], f.cols[ConvertedColumn], v))
  }

  /**
   With arms exactly A and B, the posterior is the map from each arm to the
   one parameter pair that its rows determine.
   */
  lemma TwoArmPosterior(f: Frame, assignment: string, pa: BetaParams, pb: BetaParams)
    requires f.Valid() && assignment in f.cols && ConvertedColumn in f.cols
    requires BooleanColumn(f.cols[ConvertedColumn])
    requires Elements(f.cols[assignment]) == {LabelA, LabelB}
    requires ArmParams(f.cols[assignment], f.cols[ConvertedColumn], LabelA, pa)
    requires ArmParams(f.cols[assignment], f.cols[ConvertedColumn], LabelB, pb)
    ensures PosteriorParams(f, assignment) == Some(map[LabelA := pa, LabelB := pb])
  {
    var r := PosteriorParams(f, assignment);
    TwoEntryMap(r.value);
  }
}
