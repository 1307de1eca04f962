/**
 `calculate_conversion_rates`: derive the `converted` flag, group the rows by
 their assignment label, count rows and conversions per group, and compute
 the relative lift of arm B over arm A.
 */
module Conversion {
  import opened Frames
  import opened Counting

  /** One output row of `groupby(...).agg(["count", "sum"])` plus its `conversion_rate`. */
  datatype GroupStats = GroupStats(count: nat, sum: nat, rate: real)

  /**
   A float64 quotient: the lift is a plain numpy division, so a zero divisor
   gives an infinity or NaN instead of an error.
   */
  datatype Lift = Finite(value: real) | PosInfinity | NegInfinity | NotANumber

  /** The pair `(conversion_rates, lift_drop)` on the success path. */
  datatype Analysis = Analysis(rates: map<Cell, GroupStats>, lift: Option<Lift>)

  /** The fail-soft guard: a non-empty frame that has all three selected columns. */
  predicate Analyzable(f: Frame, event1: string, event2: string, assignment: string) {
    !f.Empty() && event1 in f.cols && event2 in f.cols && assignment in f.cols
  }

  /**
   The column `groupby` reads. The frame has already been enriched, so choosing
   `converted` itself as the assignment column groups by the derived flag.
   */
  function GroupingColumn(f: Frame, event2: string, assignment: string): (keys: seq<Cell>)
    requires f.Valid() && event2 in f.cols && assignment in f.cols
    ensures keys == AddConverted(f, event2).cols[assignment]
    ensures |keys| == f.height
  {
    if assignment == ConvertedColumn then ConvertedFlags(f.cols[event2]) else f.cols[assignment]
  }

  /** The labels `groupby` forms groups for: null keys are dropped. */
  function GroupLabels(keys: seq<Cell>): set<Cell> {
    set g | g in keys && g != Null
  }

  /** The group labels are the column's values with null taken out. */
  lemma GroupLabelsAreNonNullValues(keys: seq<Cell>)
    ensures GroupLabels(keys) == Elements(keys) - {Null}
  {
    assert forall g :: g in Elements(keys) <==> g in keys;
  }

  /**
   What one output row says about group `g`: `count` rows carry the label,
   `sum` of them are converted, and `rate` is their ratio, within [0, 1].
   */
  ghost predicate Describes(keys: seq<Cell>, conv: seq<Cell>, g: Cell, st: GroupStats) {
    && st.count == |Positions(keys, g)| && st.count > 0
    && st.sum == |PairPositions(keys, conv, g, Flag(true))|
    && st.sum <= st.count
    && st.rate == st.sum as real / st.count as real
    && 0.0 <= st.rate <= 1.0
    && (st.rate == 0.0 <==> st.sum == 0)
  }

  /** Statistics of one group; `conv` is the boolean `converted` column. */
  function GroupStatsOf(keys: seq<Cell>, conv: seq<Cell>, g: Cell): (st: GroupStats)
    requires |keys| == |conv| && g in keys
    ensures Describes(keys, conv, g, st)
  {
    var i :| 0 <= i < |keys| && keys[i] == g;
    assert i in Positions(keys, g);
    PairsWithin(keys, conv, g, Flag(true));
    var n := Count(keys, g);
    var s := CountPairs(keys, conv, g, Flag(true));
    GroupStats(n, s, s as real / n as real)
  }

  /** `groupby(keys)["converted"].agg(["count", "sum"])` with the rate column added. */
  function GroupBy(keys: seq<Cell>, conv: seq<Cell>): (rates: map<Cell, GroupStats>)
    requires |keys| == |conv|
    ensures rates.Keys == GroupLabels(keys)
    ensures forall g :: g in rates ==> Describes(keys, conv, g, rates[g])
  {
    map g | g in GroupLabels(keys) :: GroupStatsOf(keys, conv, g)
  }

  /** numpy's float division of `num` by `den`. */
  function Divide(num: real, den: real): (q: Lift)
    ensures q.Finite? <==> den != 0.0
    ensures q.Finite? ==> q.value * den == num
    ensures q == PosInfinity <==> den == 0.0 && num > 0.0
    ensures q == NegInfinity <==> den == 0.0 && num < 0.0
  {
    if den != 0.0 then Finite(num / den)
    else if num > 0.0 then PosInfinity
    else if num < 0.0 then NegInfinity
    else NotANumber
  }

  /**
   `(rate_B - rate_A) / rate_A`, computed only when the groups are exactly
   A and B; the division itself is not guarded.
   */
  function LiftOf(rates: map<Cell, GroupStats>): (lift: Option<Lift>)
    ensures lift.Some? <==> rates.Keys == {LabelA, LabelB}
    ensures lift.Some? ==> (lift.value.Finite? <==> rates[LabelA].rate != 0.0)
    ensures lift.Some? && lift.value.Finite? ==>
              rates[LabelB].rate == rates[LabelA].rate * (1.0 + lift.value.value)
    ensures lift.Some? && rates[LabelA].rate == 0.0 ==>
              (lift.value == PosInfinity <==> rates[LabelB].rate > 0.0)
    ensures lift.Some? && rates[LabelA].rate >= 0.0 && rates[LabelB].rate >= 0.0 ==>
              lift.value != NegInfinity
  {
    var labels := rates.Keys;
    if |labels| == 2 && LabelA in labels && LabelB in labels then
      assert labels - {LabelA, LabelB} == {} by {
        assert |labels - {LabelA, LabelB}| == |labels| - |{LabelA, LabelB}|;
      }
      Some(Divide(rates[LabelB].rate - rates[LabelA].rate, rates[LabelA].rate))
    else
      None
  }

  /**
   The lift with the division guarded, as the page's fallback message for a
   missing lift suggests was meant: absent unless the groups are exactly A and
   B and arm A converts at all, so that no infinity or NaN reaches the page.
   */
  function GuardedLift(rates: map<Cell, GroupStats>): (lift: Option<real>)
    ensures lift.Some? <==> rates.Keys == {LabelA, LabelB} && rates[LabelA].rate != 0.0
    ensures lift.Some? ==> rates[LabelB].rate == rates[LabelA].rate * (1.0 + lift.value)
  {
    if rates.Keys == {LabelA, LabelB} && rates[LabelA].rate != 0.0 then
      var q := Divide(rates[LabelB].rate - rates[LabelA].rate, rates[LabelA].rate);
      Some(q.value)
    else
      None
  }

  /** The guarded lift is the unguarded one with its infinities and NaN turned into an absent value. */
  lemma GuardedLiftKeepsFiniteLift(rates: map<Cell, GroupStats>)
    ensures GuardedLift(rates).Some? <==> LiftOf(rates).Some? && LiftOf(rates).value.Finite?
    ensures GuardedLift(rates).Some? ==> GuardedLift(rates).value == LiftOf(rates).value.value
  {
  }

  /**
   `rates` aggregates the label column `keys` against the event-2 column: one
   entry per non-null label, whose `count` is the rows carrying the label,
   whose `sum` is those of them with a non-null event-2 value, and whose
   `rate` is their ratio, within [0, 1].
   */
  ghost predicate Summarises(keys: seq<Cell>, event2: seq<Cell>, rates: map<Cell, GroupStats>) {
    && rates.Keys == GroupLabels(keys)
    && forall g :: g in rates ==>
         && rates[g].count == |Positions(keys, g)| > 0
         && rates[g].sum == |set i | 0 <= i < |keys| && i < |event2| && keys[i] == g && event2[i] != Null|
         && rates[g].rate == rates[g].sum as real / rates[g].count as real
         && 0.0 <= rates[g].rate <= 1.0
  }

  /** Grouping against the derived flags aggregates against the event-2 column. */
  lemma GroupByConverted(keys: seq<Cell>, conv: seq<Cell>, event2: seq<Cell>)
    requires |keys| == |conv| == |event2|
    requires forall i :: 0 <= i < |conv| ==> (conv[i] == Flag(true) <==> event2[i] != Null)
    ensures Summarises(keys, event2, GroupBy(keys, conv))
  {
    var rates := GroupBy(keys, conv);
    forall g | g in rates
      ensures rates[g].sum == |set i | 0 <= i < |keys| && i < |event2| && keys[i] == g && event2[i] != Null|
    {
      assert Describes(keys, conv, g, rates[g]);
      assert PairPositions(keys, conv, g, Flag(true))
             == set i | 0 <= i < |keys| && i < |event2| && keys[i] == g && event2[i] != Null;
    }
  }

  /**
   Name of the rate column the aggregation adds to its output table. An
   assignment column of that name is overwritten by the rates before the
   lift's label test reads it, so the test finds no `"A"` or `"B"`.
   */
  const RateColumn: string := "conversion_rate"

  /** A finite lift is the relative gain of arm B's rate over arm A's. */
  ghost predicate RelativeGain(rates: map<Cell, GroupStats>, lift: Option<Lift>) {
    lift.Some? && lift.value.Finite? && LabelA in rates && LabelB in rates ==>
      rates[LabelB].rate == rates[LabelA].rate * (1.0 + lift.value.value)
  }

  /**
   The lift the aggregation reports for the rates grouped by `assignment`:
   none when the assignment column is the rate column, since the label test
   then reads rates rather than labels.
   */
  function ReportedLift(assignment: string, rates: map<Cell, GroupStats>): (lift: Option<Lift>)
    ensures lift.Some? <==> assignment != RateColumn && rates.Keys == {LabelA, LabelB}
    ensures lift.Some? ==> (lift.value.Finite? <==> rates[LabelA].rate != 0.0)
    ensures RelativeGain(rates, lift)
    ensures lift.Some? && rates[LabelA].rate >= 0.0 && rates[LabelB].rate >= 0.0 ==>
              lift.value != NegInfinity
  {
    if assignment == RateColumn then None else LiftOf(rates)
  }

  /**
   `calculate_conversion_rates(df, event1, event2, assignment)`. `None` stands
   for the `(None, None)` returned by the guard.
   */
  function ConversionRates(f: Frame, event1: string, event2: string, assignment: string): (r: Option<Analysis>)
    requires f.Valid()
    ensures r.Some? <==> Analyzable(f, event1, event2, assignment)
    ensures r.Some? ==> Summarises(GroupingColumn(f, event2, assignment), f.cols[event2], r.value.rates)
    ensures r.Some? ==>
              (r.value.lift.Some? <==> assignment != RateColumn && r.value.rates.Keys == {LabelA, LabelB})
    ensures r.Some? && r.value.lift.Some? ==>
              && (r.value.lift.value.Finite? <==> r.value.rates[LabelA].sum > 0)
              && r.value.lift.value != NegInfinity
    ensures r.Some? ==> RelativeGain(r.value.rates, r.value.lift)
  {
    if !Analyzable(f, event1, event2, assignment) then None
    else
      var df := AddConverted(f, event2);
      var keys := df.cols[assignment];
      var rates := GroupBy(keys, df.cols[ConvertedColumn]);
      GroupByConverted(keys, df.cols[ConvertedColumn], f.cols[event2]);
      Some(Analysis(rates, ReportedLift(assignment, rates)))
  }

  /** Sum of the `count` column over the labels `order`. */
  function TotalCount(rates: map<Cell, GroupStats>, order: seq<Cell>): nat
    requires forall j :: 0 <= j < |order| ==> order[j] in rates
  {
    if |order| == 0 then 0 else rates[order[0]].count + TotalCount(rates, order[1..])
  }

  /** Sum of the `sum` column over the labels `order`. */
  function TotalSum(rates: map<Cell, GroupStats>, order: seq<Cell>): nat
    requires forall j :: 0 <= j < |order| ==> order[j] in rates
  {
    if |order| == 0 then 0 else rates[order[0]].sum + TotalSum(rates, order[1..])
  }

  /** Summing any distinct labels' groups counts exactly the rows carrying those labels. */
  lemma {:induction false} GroupTotals(keys: seq<Cell>, conv: seq<Cell>, order: seq<Cell>)
    requires |keys| == |conv| && Distinct(order)
    requires Elements(order) <= GroupLabels(keys)
    ensures TotalCount(GroupBy(keys, conv), order) == |PositionsIn(keys, Elements(order))|
    ensures TotalSum(GroupBy(keys, conv), order)
            == |PairPositionsIn(keys, conv, Elements(order), Flag(true))|
  {
    if |order| == 0 {
      assert PositionsIn(keys, Elements(order)) == {};
      assert PairPositionsIn(keys, conv, Elements(order), Flag(true)) == {};
    } else {
      var rest := order[1..];
      assert Distinct(rest);
      assert Elements(order) == {order[0]} + Elements(rest);
      assert order[0] !in Elements(rest);
      GroupTotals(keys, conv, rest);
      PositionsInAdd(keys, order[0], Elements(rest));
      PairPositionsInAdd(keys, conv, order[0], Elements(rest), Flag(true));
    }
  }

  /** Summing every group counts the rows with a non-null label, and the converted ones among them. */
  lemma AllGroupTotals(keys: seq<Cell>, conv: seq<Cell>, event2: seq<Cell>, order: seq<Cell>)
    requires |keys| == |conv| == |event2|
    requires forall i :: 0 <= i < |conv| ==> (conv[i] == Flag(true) <==> event2[i] != Null)
    requires Distinct(order) && Elements(order) == GroupLabels(keys)
    ensures TotalCount(GroupBy(keys, conv), order) == |set i | 0 <= i < |keys| && keys[i] != Null|
    ensures TotalSum(GroupBy(keys, conv), order)
            == |set i | 0 <= i < |keys| && keys[i] != Null && event2[i] != Null|
  {
    GroupTotals(keys, conv, order);
    assert PositionsIn(keys, Elements(order)) == set i | 0 <= i < |keys| && keys[i] != Null;
    assert PairPositionsIn(keys, conv, Elements(order), Flag(true))
           == set i | 0 <= i < |keys| && keys[i] != Null && event2[i] != Null;
  }

  /**
   Partition: however the emitted groups are listed, their counts add up to
   the rows with a non-null assignment, and their sums to those rows that
   also have a non-null event-2 value.
   */
  lemma RatesPartitionRows(f: Frame, event1: string, event2: string, assignment: string, order: seq<Cell>)
    requires f.Valid() && Analyzable(f, event1, event2, assignment)
    requires Distinct(order) && Elements(order) == ConversionRates(f, event1, event2, assignment).value.rates.Keys
    ensures var rates := ConversionRates(f, event1, event2, assignment).value.rates;
            var keys := GroupingColumn(f, event2, assignment);
            && TotalCount(rates, order) == |set i | 0 <= i < f.height && keys[i] != Null|
            && TotalSum(rates, order)
               == |set i | 0 <= i < f.height && keys[i] != Null && f.cols[event2][i] != Null|
  {
    var df := AddConverted(f, event2);
    AllGroupTotals(df.cols[assignment], df.cols[ConvertedColumn], f.cols[event2], order);
  }

  /** A single non-null label: its group is reported, and no lift is computed. */
  lemma SingleLabelNoLift(f: Frame, event1: string, event2: string, assignment: string, g: Cell)
    requires f.Valid() && Analyzable(f, event1, event2, assignment)
    requires g != Null && Elements(GroupingColumn(f, event2, assignment)) == {g}
    ensures ConversionRates(f, event1, event2, assignment).value.rates.Keys == {g}
    ensures ConversionRates(f, event1, event2, assignment).value.lift.None?
  {
    GroupLabelsAreNonNullValues(GroupingColumn(f, event2, assignment));
    assert {g} != {LabelA, LabelB} by {
      assert |{g}| == 1;
    }
  }

  /**
   The lift divides by arm A's rate without a guard: when arm A has no
   conversions and arm B has some, the result is an infinity, and when
   neither has any it is NaN.
   */
  lemma UnconvertedControlLift(f: Frame, event1: string, event2: string, assignment: string)
    requires f.Valid() && Analyzable(f, event1, event2, assignment)
    requires ConversionRates(f, event1, event2, assignment).value.rates.Keys == {LabelA, LabelB}
    requires ConversionRates(f, event1, event2, assignment).value.rates[LabelA].sum == 0
    ensures var a := ConversionRates(f, event1, event2, assignment).value;
            && a.rates[LabelA].rate == 0.0
            && (assignment != RateColumn ==>
                  a.lift == Some(if a.rates[LabelB].sum > 0 then PosInfinity else NotANumber))
  {
  }

  /** `event1` is only checked for presence: any other present column gives the same result. */
  lemma Event1OnlyChecked(f: Frame, event1: string, other: string, event2: string, assignment: string)
    requires f.Valid() && event1 in f.cols && other in f.cols
    ensures ConversionRates(f, event1, event2, assignment) == ConversionRates(f, other, event2, assignment)
  {
  }
}
