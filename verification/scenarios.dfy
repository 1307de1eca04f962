/**
 Worked examples of the whole sequence: an even split, an empty result, and
 the unguarded lift division. Each example is stated for every frame whose
 relevant columns hold the listed values, whatever its other columns are.
 */
module Scenarios {
  import opened Frames
  import opened Counting
  import opened Conversion
  import opened Significance
  import opened Posterior
  import opened Dashboard

  /** Two event-2 values; any non-null cell marks its row converted. */
  const SomeEvent: Cell := Text("x")
  const OtherEvent: Cell := Text("y")

  /** A group whose `count` and `sum` are known has its rate fixed by them. */
  lemma GroupStatsFrom(keys: seq<Cell>, conv: seq<Cell>, g: Cell, count: nat, sum: nat)
    requires |keys| == |conv| && g in GroupBy(keys, conv)
    requires |Positions(keys, g)| == count && |PairPositions(keys, conv, g, Flag(true))| == sum
    ensures GroupBy(keys, conv)[g] == GroupStats(count, sum, sum as real / count as real)
  {
    assert Describes(keys, conv, g, GroupBy(keys, conv)[g]);
  }

  // Even split: arms A, A, B, B, each converting once.

  const EvenArms: seq<Cell> := [LabelA, LabelA, LabelB, LabelB]
  const EvenEvent2: seq<Cell> := [Null, SomeEvent, Null, OtherEvent]
  const EvenFlags: seq<Cell> := [Flag(false), Flag(true), Flag(false), Flag(true)]

  lemma EvenPositions()
    ensures ConvertedFlags(EvenEvent2) == EvenFlags
    ensures GroupLabels(EvenArms) == Elements(EvenArms) == {LabelA, LabelB}
    ensures Positions(EvenArms, LabelA) == {0, 1} && Positions(EvenArms, LabelB) == {2, 3}
    ensures PairPositions(EvenArms, EvenFlags, LabelA, Flag(true)) == {1}
    ensures PairPositions(EvenArms, EvenFlags, LabelB, Flag(true)) == {3}
  {
    forall i | i in Positions(EvenArms, LabelA) ensures i in {0, 1} {}
    forall i | i in Positions(EvenArms, LabelB) ensures i in {2, 3} {}
    forall i | i in PairPositions(EvenArms, EvenFlags, LabelA, Flag(true)) ensures i == 1 {}
    forall i | i in PairPositions(EvenArms, EvenFlags, LabelB, Flag(true)) ensures i == 3 {}
    assert EvenArms[0] == LabelA && EvenArms[2] == LabelB;
    GroupLabelsAreNonNullValues(EvenArms);
  }

  lemma EvenGroup(g: Cell)
    requires g == LabelA || g == LabelB
    ensures g in GroupBy(EvenArms, EvenFlags)
    ensures GroupBy(EvenArms, EvenFlags)[g] == GroupStats(2, 1, 0.5)
  {
    assert 1 as real / 2 as real == 0.5;
    EvenPositions();
    assert g in GroupLabels(EvenArms);
    assert |Positions(EvenArms, g)| == 2 by {
      if g == LabelA { assert |{0, 1}| == 2; } else { assert |{2, 3}| == 2; }
    }
    assert |PairPositions(EvenArms, EvenFlags, g, Flag(true))| == 1;
    GroupStatsFrom(EvenArms, EvenFlags, g, 2, 1);
  }

  lemma EvenGroups()
    ensures GroupBy(EvenArms, EvenFlags)
            == map[LabelA := GroupStats(2, 1, 0.5), LabelB := GroupStats(2, 1, 0.5)]
  {
    EvenPositions();
    EvenGroup(LabelA);
    EvenGroup(LabelB);
    TwoEntryMap(GroupBy(EvenArms, EvenFlags));
  }

  lemma EvenArmParams()
    ensures ConvertedFlags(EvenEvent2) == EvenFlags && BooleanColumn(EvenFlags)
    ensures Elements(EvenArms) == {LabelA, LabelB}
    ensures ArmParams(EvenArms, EvenFlags, LabelA, BetaParams(2, 2))
    ensures ArmParams(EvenArms, EvenFlags, LabelB, BetaParams(2, 2))
  {
    EvenPositions();
  }

  /** Every row of the even split converted: each arm's posterior is Beta(3, 1). */
  lemma EvenAllConvertedParams(conv: seq<Cell>)
    requires |conv| == |EvenArms|
    requires forall i :: 0 <= i < |conv| ==> conv[i] == Flag(true)
    ensures ArmParams(EvenArms, conv, LabelA, BetaParams(3, 1))
    ensures ArmParams(EvenArms, conv, LabelB, BetaParams(3, 1))
  {
    EvenPositions();
    AllConvertedPairs(EvenArms, conv, LabelA);
    AllConvertedPairs(EvenArms, conv, LabelB);
    assert |{0, 1}| == 2 && |{2, 3}| == 2;
  }

  /**
   Arms A, A, B, B with one conversion each: both rates are one half and the
   lift is zero (absent if the assignment column is the rate column). Each
   arm's posterior is Beta(2, 2), except when event 2 is the `converted`
   column itself: the page then counts every row as converted and each arm's
   posterior is Beta(3, 1), although the rates still say one half.
   */
  lemma EvenSplit(f: Frame, event1: string, event2: string, assignment: string)
    requires f.Valid() && Analyzable(f, event1, event2, assignment)
    requires GroupingColumn(f, event2, assignment) == EvenArms && f.cols[event2] == EvenEvent2
    ensures var rep := Run(f, event1, event2, assignment);
            && rep.conversion.Some?
            && rep.conversion.value.rates == map[LabelA := GroupStats(2, 1, 0.5), LabelB := GroupStats(2, 1, 0.5)]
            && rep.conversion.value.lift == (if assignment == RateColumn then None else Some(Finite(0.0)))
            && rep.table.Some?
            && rep.posterior == Some(
                 if event2 == ConvertedColumn then map[LabelA := BetaParams(3, 1), LabelB := BetaParams(3, 1)]
                 else map[LabelA := BetaParams(2, 2), LabelB := BetaParams(2, 2)])
  {
    RatesFromEnrichedFrame(f, event1, event2, assignment);
    EvenArmParams();
    EvenGroups();
    var df := AnalysedFrame(f, event1, event2, assignment);
    FlagsHoldNoArm(EnrichedFrame(f, event1, event2, assignment).cols[ConvertedColumn]);
    if event2 == ConvertedColumn {
      EvenAllConvertedParams(df.cols[ConvertedColumn]);
      TwoArmPosterior(df, assignment, BetaParams(3, 1), BetaParams(3, 1));
    } else {
      TwoArmPosterior(df, assignment, BetaParams(2, 2), BetaParams(2, 2));
    }
    if assignment != RateColumn {
      var lift := ConversionRates(f, event1, event2, assignment).value.lift.value;
      assert lift.Finite? && 0.5 == 0.5 * (1.0 + lift.value);
    }
  }

  /**
   A query result with no rows: no analysis and no posterior, and a table
   only if the result already has the assignment and `converted` columns.
   An empty query yields a frame with no columns at all, and then nothing.
   */
  lemma EmptyResult(f: Frame, event1: string, event2: string, assignment: string)
    requires f.Valid() && f.height == 0
    ensures var rep := Run(f, event1, event2, assignment);
            && rep.conversion.None?
            && rep.posterior.None?
            && (rep.table.Some? <==> assignment in f.cols && ConvertedColumn in f.cols)
            && (f.cols == map[] ==> rep == Report(None, None, None))
  {
  }

  // Unconverted control: arm A does not convert, arm B does.

  const ControlArms: seq<Cell> := [LabelA, LabelB]
  const ControlEvent2: seq<Cell> := [Null, OtherEvent]
  const ControlFlags: seq<Cell> := [Flag(false), Flag(true)]

  lemma ControlGroups()
    ensures ConvertedFlags(ControlEvent2) == ControlFlags
    ensures GroupBy(ControlArms, ControlFlags)
            == map[LabelA := GroupStats(1, 0, 0.0), LabelB := GroupStats(1, 1, 1.0)]
  {
    GroupLabelsAreNonNullValues(ControlArms);
    assert Elements(ControlArms) == {LabelA, LabelB};
    assert Positions(ControlArms, LabelA) == {0};
    assert Positions(ControlArms, LabelB) == {1};
    forall i | i in PairPositions(ControlArms, ControlFlags, LabelA, Flag(true)) ensures false {}
    assert PairPositions(ControlArms, ControlFlags, LabelB, Flag(true)) == {1};
    GroupStatsFrom(ControlArms, ControlFlags, LabelA, 1, 0);
    GroupStatsFrom(ControlArms, ControlFlags, LabelB, 1, 1);
    TwoEntryMap(GroupBy(ControlArms, ControlFlags));
  }

  /**
   Arm A never converts while arm B does: the lift is a division by zero,
   which the page receives as an infinity rather than as a missing value
   (unless the assignment column is the rate column, which hides the lift
   anyway); the guarded lift is absent instead.
   */
  lemma UnconvertedControl(f: Frame, event1: string, event2: string, assignment: string)
    requires f.Valid() && Analyzable(f, event1, event2, assignment)
    requires GroupingColumn(f, event2, assignment) == ControlArms && f.cols[event2] == ControlEvent2
    ensures var rep := Run(f, event1, event2, assignment);
            && rep.conversion.Some?
            && rep.conversion.value.rates[LabelA].rate == 0.0
            && rep.conversion.value.lift == (if assignment == RateColumn then None else Some(PosInfinity))
            && GuardedLift(rep.conversion.value.rates).None?
  {
    RatesFromEnrichedFrame(f, event1, event2, assignment);
    ControlGroups();
    UnconvertedControlLift(f, event1, event2, assignment);
  }
}
