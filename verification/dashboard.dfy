/**
 The analysis sequence the page runs after a query: the conversion
 aggregation, then the contingency table and the posterior on the frame the
 aggregation enriched; and how the three results agree with each other.
 */
module Dashboard {
  import opened Frames
  import opened Counting
  import opened Conversion
  import opened Significance
  import opened Posterior

  /** Everything the statistics core produces for one query result. */
  datatype Report = Report(
    conversion: Option<Analysis>,
    table: Option<Crosstab>,
    posterior: Option<map<Cell, BetaParams>>)

  /**
   The query result after the aggregation: it adds the `converted` column to
   the frame it was handed, in place, only when its guard passes.
   */
  function EnrichedFrame(f: Frame, event1: string, event2: string, assignment: string): (g: Frame)
    requires f.Valid()
    ensures g.Valid() && g.height == f.height
    ensures Analyzable(f, event1, event2, assignment) ==>
              && ConvertedColumn in g.cols && BooleanColumn(g.cols[ConvertedColumn])
              && assignment in g.cols && event2 in g.cols
              && g.cols[assignment] == GroupingColumn(f, event2, assignment)
              && g.cols[ConvertedColumn] == ConvertedFlags(f.cols[event2])
    ensures !Analyzable(f, event1, event2, assignment) ==> g == f
  {
    if Analyzable(f, event1, event2, assignment) then AddConverted(f, event2) else f
  }

  /**
   The frame the table and the posterior read. After a successful aggregation
   the page derives `converted` a second time, from the event-2 column of the
   frame the aggregation already enriched. That changes nothing unless event 2
   is `converted` itself: its cells are flags by then, never null, so every
   row becomes converted.
   */
  function AnalysedFrame(f: Frame, event1: string, event2: string, assignment: string): (g: Frame)
    requires f.Valid()
    ensures g.Valid() && g.height == f.height
    ensures Analyzable(f, event1, event2, assignment) ==>
              && ConvertedColumn in g.cols && BooleanColumn(g.cols[ConvertedColumn])
              && assignment in g.cols
    ensures Analyzable(f, event1, event2, assignment) && event2 != ConvertedColumn ==>
              g == EnrichedFrame(f, event1, event2, assignment)
    ensures Analyzable(f, event1, event2, assignment) && event2 == ConvertedColumn ==>
              && (forall i :: 0 <= i < g.height ==> g.cols[ConvertedColumn][i] == Flag(true))
              && (assignment != ConvertedColumn ==> g.cols[assignment] == GroupingColumn(f, event2, assignment))
    ensures !Analyzable(f, event1, event2, assignment) ==> g == f
  {
    if Analyzable(f, event1, event2, assignment) then
      var df := EnrichedFrame(f, event1, event2, assignment);
      assert event2 != ConvertedColumn ==> df.cols[ConvertedColumn := ConvertedFlags(df.cols[event2])] == df.cols;
      AddConverted(df, event2)
    else f
  }

  /**
   The three analyses in the order the page runs them. When the aggregation
   fails, the other two still run on the unenriched frame, and then they only
   find a `converted` column if the query returned one, which must be boolean.
   */
  function Run(f: Frame, event1: string, event2: string, assignment: string): (rep: Report)
    requires f.Valid()
    requires !Analyzable(f, event1, event2, assignment) && ConvertedColumn in f.cols ==>
               BooleanColumn(f.cols[ConvertedColumn])
    ensures rep.conversion.Some? <==> Analyzable(f, event1, event2, assignment)
    ensures rep.conversion.Some? ==> rep.table.Some?
    ensures rep.conversion.None? ==>
              (rep.table.Some? <==> assignment in f.cols && ConvertedColumn in f.cols)
    ensures rep.posterior.Some? ==> rep.table.Some? && rep.posterior.value.Keys == {LabelA, LabelB}
    ensures rep.conversion.Some? && rep.posterior.Some? && assignment != RateColumn ==>
              rep.conversion.value.lift.Some?
  {
    var conversion := ConversionRates(f, event1, event2, assignment);
    var df := AnalysedFrame(f, event1, event2, assignment);
    var table := ContingencyTable(df, assignment);
    var posterior := PosteriorParams(df, assignment);
    if conversion.Some? then
      PosteriorMatchesRates(f, event1, event2, assignment);
      Report(conversion, table, posterior)
    else
      Report(conversion, table, posterior)
  }

  /** The aggregation's groups are `GroupBy` over the enriched frame's two columns. */
  lemma RatesFromEnrichedFrame(f: Frame, event1: string, event2: string, assignment: string)
    requires f.Valid() && Analyzable(f, event1, event2, assignment)
    ensures var df := EnrichedFrame(f, event1, event2, assignment);
            ConversionRates(f, event1, event2, assignment).value.rates
            == GroupBy(df.cols[assignment], df.cols[ConvertedColumn])
  {
  }

  /** With a boolean `converted` column, the table's rows are the non-null labels. */
  lemma CrosstabRows(keys: seq<Cell>, conv: seq<Cell>)
    requires |keys| == |conv| && BooleanColumn(conv)
    ensures CrosstabOf(keys, conv).rowLabels == GroupLabels(keys)
    ensures CrosstabOf(keys, conv).colLabels <= {Flag(true), Flag(false)}
  {
    var t := CrosstabOf(keys, conv);
    forall r | r in GroupLabels(keys)
      ensures r in t.rowLabels
    {
      var i :| 0 <= i < |keys| && keys[i] == r;
      assert conv[i].Flag?;
    }
    forall c | c in t.colLabels
      ensures c == Flag(true) || c == Flag(false)
    {
      var i :| 0 <= i < |keys| && conv[i] == c;
      assert conv[i].Flag?;
    }
  }

  /** A cell of a labelled row counts that label's rows with the given flag, present column or not. */
  lemma CrosstabCell(keys: seq<Cell>, conv: seq<Cell>, g: Cell, b: bool)
    requires |keys| == |conv| && g in CrosstabOf(keys, conv).rowLabels
    ensures At(CrosstabOf(keys, conv), g, Flag(b)) == |PairPositions(keys, conv, g, Flag(b))|
  {
    var t := CrosstabOf(keys, conv);
    if Flag(b) !in t.colLabels {
      assert PairPositions(keys, conv, g, Flag(b)) == {};
    }
  }

  /** Each labelled row of a boolean column splits into its `True` and `False` rows. */
  lemma FlagSplit(keys: seq<Cell>, conv: seq<Cell>, g: Cell)
    requires |keys| == |conv| && BooleanColumn(conv)
    ensures |Positions(keys, g)|
            == |PairPositions(keys, conv, g, Flag(true))| + |PairPositions(keys, conv, g, Flag(false))|
  {
    forall i | 0 <= i < |conv| ensures conv[i] == Flag(true) || conv[i] == Flag(false) {
      assert conv[i].Flag?;
    }
    PositionsSplit(keys, conv, g, Flag(true), Flag(false));
  }

  /** One group's row of the table agrees with its `sum` and `count`. */
  lemma CrosstabRowMatchesGroup(keys: seq<Cell>, conv: seq<Cell>, g: Cell)
    requires |keys| == |conv| && BooleanColumn(conv) && g in GroupBy(keys, conv)
    ensures var st := GroupBy(keys, conv)[g];
            var t := CrosstabOf(keys, conv);
            && At(t, g, Flag(true)) == st.sum
            && At(t, g, Flag(true)) + At(t, g, Flag(false)) == st.count
  {
    CrosstabRows(keys, conv);
    CrosstabCell(keys, conv, g, true);
    CrosstabCell(keys, conv, g, false);
    FlagSplit(keys, conv, g);
  }

  /** Table and groups over the same label column and boolean `converted` column agree. */
  lemma CrosstabMatchesGroupBy(keys: seq<Cell>, conv: seq<Cell>)
    requires |keys| == |conv| && BooleanColumn(conv)
    ensures var rates := GroupBy(keys, conv);
            var t := CrosstabOf(keys, conv);
            && t.rowLabels == rates.Keys
            && t.colLabels <= {Flag(true), Flag(false)}
            && forall g :: g in rates ==>
                 && At(t, g, Flag(true)) == rates[g].sum
                 && At(t, g, Flag(true)) + At(t, g, Flag(false)) == rates[g].count
  {
    CrosstabRows(keys, conv);
    forall g | g in GroupBy(keys, conv) {
      CrosstabRowMatchesGroup(keys, conv, g);
    }
  }

  /**
   The contingency table agrees with the aggregation: its columns are flag
   values, its rows are exactly the emitted groups (unless assignment and
   event 2 are both `converted`), and, unless event 2 is `converted`, the
   `True` cell of a group is that group's `sum` and a row total is its
   `count`. `ConvertedAsEventTwo` states what the table holds otherwise.
   */
  lemma TableMatchesRates(f: Frame, event1: string, event2: string, assignment: string)
    requires f.Valid() && Analyzable(f, event1, event2, assignment)
    ensures var rates := ConversionRates(f, event1, event2, assignment).value.rates;
            var t := ContingencyTable(AnalysedFrame(f, event1, event2, assignment), assignment);
            && t.Some?
            && t.value.colLabels <= {Flag(true), Flag(false)}
            && (assignment != ConvertedColumn || event2 != ConvertedColumn ==> t.value.rowLabels == rates.Keys)
            && (event2 != ConvertedColumn ==>
                  forall g :: g in rates ==>
                    && At(t.value, g, Flag(true)) == rates[g].sum
                    && At(t.value, g, Flag(true)) + At(t.value, g, Flag(false)) == rates[g].count)
  {
    var df := AnalysedFrame(f, event1, event2, assignment);
    CrosstabRows(df.cols[assignment], df.cols[ConvertedColumn]);
    if event2 != ConvertedColumn {
      RatesFromEnrichedFrame(f, event1, event2, assignment);
      CrosstabMatchesGroupBy(df.cols[assignment], df.cols[ConvertedColumn]);
    }
  }

  /** A `converted` column of `True` flags only marks every labelled row converted. */
  lemma AllConvertedPairs(keys: seq<Cell>, conv: seq<Cell>, g: Cell)
    requires |keys| == |conv|
    requires forall i :: 0 <= i < |conv| ==> conv[i] == Flag(true)
    ensures PairPositions(keys, conv, g, Flag(true)) == Positions(keys, g)
    ensures PairPositions(keys, conv, g, Flag(false)) == {}
  {
    assert forall i :: i in PairPositions(keys, conv, g, Flag(false)) ==> conv[i] == Flag(false);
  }

  /**
   Event 2 chosen as the query's own `converted` column (the assignment being
   another column): the aggregation counts the rows whose `converted` cell
   is not null, but the page's second derivation marks every row converted.
   The table then has no `False` counts, its `True` cell of a group is the
   group's `count`, and each arm's posterior takes all its rows as successes.
   */
  lemma ConvertedAsEventTwo(f: Frame, event1: string, event2: string, assignment: string)
    requires f.Valid() && Analyzable(f, event1, event2, assignment)
    requires event2 == ConvertedColumn && assignment != ConvertedColumn
    ensures var rates := ConversionRates(f, event1, event2, assignment).value.rates;
            var df := AnalysedFrame(f, event1, event2, assignment);
            var t := ContingencyTable(df, assignment).value;
            var post := PosteriorParams(df, assignment);
            && t.rowLabels == rates.Keys
            && (forall g :: g in rates ==>
                  && At(t, g, Flag(true)) == rates[g].count
                  && At(t, g, Flag(false)) == 0)
            && (post.Some? ==>
                  forall v :: v in post.value ==>
                    && v in rates
                    && post.value[v] == BetaParams(rates[v].count + 1, 1))
  {
    var rates := ConversionRates(f, event1, event2, assignment).value.rates;
    var df := AnalysedFrame(f, event1, event2, assignment);
    var keys := df.cols[assignment];
    var conv := df.cols[ConvertedColumn];
    CrosstabMatchesGroupBy(keys, conv);
    forall g | g in rates
      ensures GroupBy(keys, conv)[g].sum == rates[g].count
    {
      AllConvertedPairs(keys, conv, g);
      assert Describes(keys, conv, g, GroupBy(keys, conv)[g]);
    }
    PosteriorMatchesGroupBy(df, assignment);
  }

  /** Column totals over the groups follow from the per-group agreement. */
  lemma {:induction false} ColumnTotalsMatch(t: Crosstab, rates: map<Cell, GroupStats>, order: seq<Cell>)
    requires forall j :: 0 <= j < |order| ==> order[j] in rates
    requires forall g :: g in rates ==>
               && At(t, g, Flag(true)) == rates[g].sum
               && At(t, g, Flag(true)) + At(t, g, Flag(false)) == rates[g].count
    ensures ColumnTotal(t, Flag(true), order) == TotalSum(rates, order)
    ensures ColumnTotal(t, Flag(true), order) + ColumnTotal(t, Flag(false), order)
            == TotalCount(rates, order)
  {
    if |order| > 0 {
      ColumnTotalsMatch(t, rates, order[1..]);
    }
  }

  /** Grand totals over the groups follow from per-row totals alone. */
  lemma {:induction false} RowTotalsMatch(t: Crosstab, rates: map<Cell, GroupStats>, order: seq<Cell>)
    requires forall j :: 0 <= j < |order| ==> order[j] in rates
    requires forall g :: g in rates ==> At(t, g, Flag(true)) + At(t, g, Flag(false)) == rates[g].count
    ensures ColumnTotal(t, Flag(true), order) + ColumnTotal(t, Flag(false), order)
            == TotalCount(rates, order)
  {
    if |order| > 0 {
      RowTotalsMatch(t, rates, order[1..]);
    }
  }

  /** A `False` column that is zero in every group totals zero. */
  lemma {:induction false} NoFalseColumnTotal(t: Crosstab, rates: map<Cell, GroupStats>, order: seq<Cell>)
    requires forall j :: 0 <= j < |order| ==> order[j] in rates
    requires forall g :: g in rates ==> At(t, g, Flag(false)) == 0
    ensures ColumnTotal(t, Flag(false), order) == 0
  {
    if |order| > 0 {
      NoFalseColumnTotal(t, rates, order[1..]);
    }
  }

  /**
   Totals of the contingency table. Unless event 2 is `converted`, the `True`
   column adds up to the sum of all group `sum`s, which is the number of
   converted rows with a label. Unless assignment and event 2 are both
   `converted`, the grand total is the number of rows whose assignment is not
   null: with event 2 alone `converted`, every labelled row sits in the
   `True` column.
   */
  lemma TableTotals(f: Frame, event1: string, event2: string, assignment: string, order: seq<Cell>)
    requires f.Valid() && Analyzable(f, event1, event2, assignment)
    requires Distinct(order) && Elements(order) == ConversionRates(f, event1, event2, assignment).value.rates.Keys
    ensures var rates := ConversionRates(f, event1, event2, assignment).value.rates;
            var t := ContingencyTable(AnalysedFrame(f, event1, event2, assignment), assignment).value;
            var keys := GroupingColumn(f, event2, assignment);
            && (event2 != ConvertedColumn ==>
                  && ColumnTotal(t, Flag(true), order) == TotalSum(rates, order)
                  && ColumnTotal(t, Flag(true), order)
                     == |set i | 0 <= i < f.height && keys[i] != Null && f.cols[event2][i] != Null|)
            && (assignment != ConvertedColumn || event2 != ConvertedColumn ==>
                  ColumnTotal(t, Flag(true), order) + ColumnTotal(t, Flag(false), order)
                  == |set i | 0 <= i < f.height && keys[i] != Null|)
            && (event2 == ConvertedColumn && assignment != ConvertedColumn ==>
                  ColumnTotal(t, Flag(true), order) == |set i | 0 <= i < f.height && keys[i] != Null|)
  {
    var rates := ConversionRates(f, event1, event2, assignment).value.rates;
    var t := ContingencyTable(AnalysedFrame(f, event1, event2, assignment), assignment).value;
    forall j | 0 <= j < |order| ensures order[j] in rates {
      assert order[j] in Elements(order);
    }
    RatesPartitionRows(f, event1, event2, assignment, order);
    if event2 != ConvertedColumn {
      TableMatchesRates(f, event1, event2, assignment);
      ColumnTotalsMatch(t, rates, order);
    } else if assignment != ConvertedColumn {
      ConvertedAsEventTwo(f, event1, event2, assignment);
      RowTotalsMatch(t, rates, order);
      NoFalseColumnTotal(t, rates, order);
    }
  }

  /**
   The posterior's guard and the lift's guard see the same labels: either
   both read the aggregation's grouping column, or (assignment and event 2
   both `converted`) both read a column of flags, which holds neither A nor B.
   */
  lemma GuardColumnsAgree(f: Frame, event1: string, event2: string, assignment: string)
    requires f.Valid() && Analyzable(f, event1, event2, assignment)
    ensures Elements(AnalysedFrame(f, event1, event2, assignment).cols[assignment]) == {LabelA, LabelB}
            <==> Elements(GroupingColumn(f, event2, assignment)) == {LabelA, LabelB}
  {
    var g := AnalysedFrame(f, event1, event2, assignment);
    var keys := GroupingColumn(f, event2, assignment);
    if assignment == ConvertedColumn {
      FlagsHoldNoArm(g.cols[assignment]);
      FlagsHoldNoArm(keys);
    }
  }

  /** A boolean column holds no arm label. */
  lemma FlagsHoldNoArm(col: seq<Cell>)
    requires BooleanColumn(col)
    ensures LabelA !in Elements(col)
  {
    forall i | 0 <= i < |col| ensures col[i] != LabelA {
      assert col[i].Flag?;
    }
  }

  /**
   The posterior agrees with the aggregation: it exists exactly when the
   assignment column holds A and B and nothing else (no nulls), and then the
   lift exists too (unless the assignment column is the rate column). Unless
   event 2 is `converted`, each arm has `a = sum + 1` and
   `b = (count - sum) + 1` of its group.
   */
  lemma PosteriorMatchesRates(f: Frame, event1: string, event2: string, assignment: string)
    requires f.Valid() && Analyzable(f, event1, event2, assignment)
    ensures var analysis := ConversionRates(f, event1, event2, assignment).value;
            var post := PosteriorParams(AnalysedFrame(f, event1, event2, assignment), assignment);
            && (post.Some? <==> Elements(GroupingColumn(f, event2, assignment)) == {LabelA, LabelB})
            && (post.Some? && assignment != RateColumn ==> analysis.lift.Some?)
            && (post.Some? && event2 != ConvertedColumn ==>
                  forall v :: v in post.value ==>
                    && v in analysis.rates
                    && post.value[v].a == analysis.rates[v].sum + 1
                    && post.value[v].b == analysis.rates[v].count - analysis.rates[v].sum + 1)
  {
    var df := AnalysedFrame(f, event1, event2, assignment);
    GuardColumnsAgree(f, event1, event2, assignment);
    GroupLabelsAreNonNullValues(GroupingColumn(f, event2, assignment));
    if event2 != ConvertedColumn {
      RatesFromEnrichedFrame(f, event1, event2, assignment);
      PosteriorMatchesGroupBy(df, assignment);
    }
  }

  /** `PosteriorMatchesRates` on the enriched frame, against `GroupBy` directly. */
  lemma PosteriorMatchesGroupBy(df: Frame, assignment: string)
    requires df.Valid() && assignment in df.cols && ConvertedColumn in df.cols
    requires BooleanColumn(df.cols[ConvertedColumn])
    ensures var rates := GroupBy(df.cols[assignment], df.cols[ConvertedColumn]);
            var post := PosteriorParams(df, assignment);
            && (post.Some? <==> Elements(df.cols[assignment]) == {LabelA, LabelB})
            && (post.Some? ==>
                  && rates.Keys == {LabelA, LabelB}
                  && forall v :: v in post.value ==>
                       && v in rates
                       && post.value[v].a == rates[v].sum + 1
                       && post.value[v].b == rates[v].count - rates[v].sum + 1)
  {
    var keys := df.cols[assignment];
    var post := PosteriorParams(df, assignment);
    if post.Some? {
      GroupLabelsAreNonNullValues(keys);
      forall v | v in post.value {
        ArmMatchesGroup(df, assignment, v);
      }
    }
  }

  /** One arm of the posterior against the same label's group of the aggregation. */
  lemma ArmMatchesGroup(df: Frame, assignment: string, v: Cell)
    requires df.Valid() && assignment in df.cols && ConvertedColumn in df.cols
    requires BooleanColumn(df.cols[ConvertedColumn])
    requires PosteriorParams(df, assignment).Some? && v in PosteriorParams(df, assignment).value
    ensures var rates := GroupBy(df.cols[assignment], df.cols[ConvertedColumn]);
            var p := PosteriorParams(df, assignment).value[v];
            && v in rates
            && p.a == rates[v].sum + 1
            && p.b == rates[v].count - rates[v].sum + 1
  {
    var keys := df.cols[assignment];
    var conv := df.cols[ConvertedColumn];
    GroupLabelsAreNonNullValues(keys);
    assert v in GroupLabels(keys);
    assert ArmParams(keys, conv, v, PosteriorParams(df, assignment).value[v]);
    assert Describes(keys, conv, v, GroupBy(keys, conv)[v]);
  }

  /**
   `groupby` drops null labels but `unique()` keeps them: with arms A and B
   plus unassigned rows, the lift is computed and the posterior is not.
   */
  lemma NullLabelsSplitTheGuards(f: Frame, event1: string, event2: string, assignment: string)
    requires f.Valid() && Analyzable(f, event1, event2, assignment)
    requires Elements(GroupingColumn(f, event2, assignment)) == {LabelA, LabelB, Null}
    ensures assignment != RateColumn ==> ConversionRates(f, event1, event2, assignment).value.lift.Some?
    ensures PosteriorParams(AnalysedFrame(f, event1, event2, assignment), assignment).None?
  {
    var keys := GroupingColumn(f, event2, assignment);
    GroupLabelsAreNonNullValues(keys);
    PosteriorMatchesRates(f, event1, event2, assignment);
    assert Null in Elements(keys);
  }

  /**
   A single non-null label: its group is reported, but neither the lift nor
   the posterior is.
   */
  lemma SingleLabelNoComparison(f: Frame, event1: string, event2: string, assignment: string, g: Cell)
    requires f.Valid() && Analyzable(f, event1, event2, assignment)
    requires g != Null && Elements(GroupingColumn(f, event2, assignment)) == {g}
    ensures var rep := Run(f, event1, event2, assignment);
            && rep.conversion.Some?
            && rep.conversion.value.rates.Keys == {g}
            && rep.conversion.value.lift.None?
            && rep.posterior.None?
  {
    SingleLabelNoLift(f, event1, event2, assignment, g);
    SingleLabelNoPosterior(f, event1, event2, assignment, g);
  }

  lemma SingleLabelNoPosterior(f: Frame, event1: string, event2: string, assignment: string, g: Cell)
    requires f.Valid() && Analyzable(f, event1, event2, assignment)
    requires Elements(GroupingColumn(f, event2, assignment)) == {g}
    ensures PosteriorParams(AnalysedFrame(f, event1, event2, assignment), assignment).None?
  {
    PosteriorMatchesRates(f, event1, event2, assignment);
    assert {g} != {LabelA, LabelB} by {
      assert |{g}| == 1;
    }
  }
}
