# A/B-test conversion analytics — a Dafny model

This project models the counting core of a small Streamlit page,
`streamlit_app.py`, which analyses the result of an A/B-test query. The page:

1. derives a boolean `converted` column. A row is converted when its event-2
   cell is not null.
2. groups the rows by the assignment column, reporting `count`, `sum` and
   `conversion_rate` for each group.
3. computes the relative lift of arm B over arm A when the groups are exactly
   `"A"` and `"B"`.
4. builds the contingency table `pd.crosstab(assignment, converted)` for a
   chi-squared test.
5. derives the Beta posterior parameters of each arm from a uniform prior:
   `a = successes + 1` and `b = failures + 1`.

The page's steps and the model's modules line up as follows:

| module | file | models |
|---|---|---|
| `Frames` | `frames.dfy` | The frame: named columns of nullable cells, each holding text or a boolean. Also the derived `converted` column and `Series.unique()`. |
| `Counting` | `counting.dfy` | The index sets of matching rows, and the recursive counters whose results are proved equal to those sets' sizes. |
| `Conversion` | `conversion.dfy` | `calculate_conversion_rates`: the fail-soft guard, the group-by, the rates and the lift. |
| `Significance` | `significance.dfy` | The contingency table of `perform_chi_squared_test`. |
| `Posterior` | `posterior.dfy` | The guard and the Beta parameters of `create_posterior_distribution_chart`. |
| `Dashboard` | `dashboard.dfy` | The page's sequence on one query result, and how the three analyses agree with each other. |
| `Scenarios` | `scenarios.dfy` | Worked examples: an even split, an empty result and an unconverted control arm. |

Modelling choices:

- **Frames are column-major.** A frame is `Frame(height, cols)`, a map from
  column name to a sequence of cells.
- **Column aliasing is modelled.** The aggregation adds `converted` to the
  query result in place (line 34), and after it succeeds the page derives
  `converted` once more from that same frame (line 163).
  - An assignment column named `converted` groups by the derived flag, as
    pandas does.
  - An event-2 column named `converted` holds flags, never null, by the time
    of the second derivation. The table and the posterior then count every
    row as converted, while the rates do not
    (`Dashboard.ConvertedAsEventTwo`, `Scenarios.EvenSplit`).
  - An assignment column named `conversion_rate` is overwritten by the rates
    (line 38) before the lift's label test reads it, so there is no lift
    (`Conversion.ReportedLift`).
- **Nulls are dropped in one place and kept in another.** `groupby` drops rows
  whose label is null, but `unique()` keeps null as a value.
  - Labels A, B and null therefore give a lift but no posterior
    (`Dashboard.NullLabelsSplitTheGuards`).
- **The lift is a float64 quotient.** A zero divisor gives an infinity or NaN,
  as numpy does (`Conversion.Lift`).
- **Rates are exact reals.** Float rounding is not modelled.
- **The crosstab is zero-filled.** `Significance.CrosstabOf` has a cell for
  every row-label and column-label pair, as pandas does, and `At` reads an
  absent pair as 0.
- **Group order is abstract.** The groups are a map from label to statistics,
  not a sorted table. Column sums are taken over any duplicate-free listing of
  the labels.
- **The lift division is unguarded, as written.** The page's fallback message
  for a missing lift (line 171) suggests that a lift was not meant to be
  reported when it cannot be computed. The code divides by arm A's rate
  without a guard (line 45), and the model follows the code (see Findings).

## Model

| member | source | states |
|---|---|---|
| Frames.ConvertedFlags | streamlit_app.py:34 | The derived column has one cell per row, and cell i is `True` exactly when event-2 cell i is not null. |
| Frames.AddConverted | streamlit_app.py:34 | Adding `converted` keeps the frame rectangular and the height unchanged. The new column is all booleans and `True` exactly on rows whose event-2 cell is not null. Every other column is unchanged, and the column set gains `converted`. |
| Frames.Unique | streamlit_app.py:88 | `unique()` lists each value of the column once, nulls included, and nothing else. |
| Frames.UniqueCount | streamlit_app.py:89 | `len(unique())` is the number of distinct values of the column. |
| Frames.TwoArmGuard | streamlit_app.py:88-90 | The test "two distinct values, `"A"` among them and `"B"` among them" holds exactly when the column's values are A and B and nothing else. This holds in both directions. |
| Counting.Count | streamlit_app.py:36 | The `count` aggregate equals the number of rows carrying the label. |
| Counting.CountPairs | streamlit_app.py:36 | The `sum` of a boolean column within a group equals the number of the group's rows where it is `True`. |
| Counting.PairsWithin | streamlit_app.py:36 | A group's `sum` never exceeds its `count`. |
| Counting.PositionsSplit | streamlit_app.py:80 | In a column holding only two values, a label's rows split into those paired with each value. |
| Conversion.ConversionRates | streamlit_app.py:31-51 | The result is present exactly when the frame is non-empty and has all three selected columns; otherwise it is `(None, None)`. When present, the groups summarise the assignment column against event 2 (see `Summarises`). The lift is present exactly when the assignment column is not `conversion_rate` and the groups are exactly A and B. It is finite exactly when arm A has a conversion, and then `rate_B = rate_A × (1 + lift)`. It is never minus infinity. |
| Conversion.ReportedLift | streamlit_app.py:38-49 | The lift the aggregation returns is absent when the assignment column is `conversion_rate`, since line 38 has replaced its labels by rates. It is also absent when the groups are not exactly A and B. Otherwise it is finite exactly when A's rate is non-zero, and then `rate_B = rate_A × (1 + lift)`. |
| Conversion.GroupByConverted | streamlit_app.py:34-40 | Grouping against the derived flag gives, for every non-null label: `count` = the label's rows; `sum` = those rows with non-null event 2; `rate` = `sum / count`, within [0, 1]. |
| Conversion.GroupBy | streamlit_app.py:35-40 | Exactly one group per non-null label. Each group's `count` is positive, `sum` ≤ `count`, and `rate` is 0 exactly when `sum` is 0. |
| Conversion.GroupStatsOf | streamlit_app.py:36-40 | One group's statistics: row count, converted count, and their ratio in [0, 1]. |
| Conversion.GroupingColumn | streamlit_app.py:34-36 | The column `groupby` reads is the assignment column of the enriched frame. |
| Conversion.GroupLabelsAreNonNullValues | streamlit_app.py:36 | Group labels are the column's value set minus null. |
| Conversion.Divide | streamlit_app.py:45 | Float division: finite exactly when the divisor is non-zero, and then quotient × divisor = dividend. A zero divisor gives +∞ or −∞ by the dividend's sign, and NaN for 0/0. |
| Conversion.LiftOf | streamlit_app.py:41-49 | The lift is computed exactly when the groups are exactly A and B. It is finite exactly when A's rate is non-zero, and then `rate_B = rate_A × (1 + lift)`. With A's rate 0 it is +∞ exactly when B's rate is positive. With non-negative rates it is never −∞. |
| Conversion.GuardedLift | streamlit_app.py:41-49 | Corrected lift: present exactly when the groups are A and B and A's rate is non-zero, and then `rate_B = rate_A × (1 + lift)`. |
| Conversion.GuardedLiftKeepsFiniteLift | streamlit_app.py:45 | The guarded lift is the unguarded one where the unguarded one is finite, and absent elsewhere. |
| Conversion.GroupTotals | streamlit_app.py:35-37 | The counts of any distinct labels' groups add up to the rows carrying those labels. Their sums add up to the converted rows among them. |
| Conversion.AllGroupTotals | streamlit_app.py:34-37 | Over all groups, the counts add up to the rows with a non-null label. The sums add up to those rows whose event-2 cell is also non-null. |
| Conversion.RatesPartitionRows | streamlit_app.py:34-37 | The groups partition the labelled rows, however the groups are listed. The total count is the number of labelled rows, and the total sum the number of labelled rows with event 2 set. |
| Conversion.SingleLabelNoLift | streamlit_app.py:41-49 | With only one non-null label, the result has that single group and no lift. |
| Conversion.UnconvertedControlLift | streamlit_app.py:43-45 | With groups A and B and no conversion in A, A's rate is 0. Unless the assignment column is `conversion_rate`, the lift is +∞ when B has a conversion and NaN when B has none. |
| Conversion.Event1OnlyChecked | streamlit_app.py:31-34 | The event-1 column is only checked for presence. Any other present column gives the same result. |
| Significance.CrosstabOf | streamlit_app.py:80 | Rows where either factor is null are dropped. The row labels are the remaining rows' assignment values and the column labels their flag values. There is one cell per row and column label pair. Every pair of non-null values reads as the number of rows carrying it, 0 when it never occurs. |
| Significance.CrosstabTabulates | streamlit_app.py:80 | The labels and zero-filled counts the crosstab builds satisfy that characterisation. |
| Significance.OccurringPairsHaveCells | streamlit_app.py:80 | A non-null pair that occurs on some row has a cell in the table. |
| Significance.ContingencyTable | streamlit_app.py:77-80 | The table exists exactly when the assignment and `converted` columns exist. Its labels are the two columns' values on rows where neither is null, it has a cell per label pair, and every non-null pair reads as the number of rows carrying it. |
| Posterior.BetaFor | streamlit_app.py:96-102 | For an arm: `a` = its converted rows + 1, `a, b ≥ 1`, and `a + b` = its rows + 2. |
| Posterior.PosteriorParams | streamlit_app.py:84-102 | The parameters exist exactly when both columns exist and the assignment column's values, null counted, are exactly A and B. They then cover arms A and B, each with the parameters `BetaFor` states. |
| Posterior.TwoArmPosterior | streamlit_app.py:88-102 | With arms exactly A and B, the posterior is the two-entry map of the unique parameter pairs the arms' rows determine. |
| Dashboard.EnrichedFrame | streamlit_app.py:31-34 | When the aggregation's guard passes, the query result gains the boolean `converted` column, and its assignment column is the one the group-by reads. Otherwise it is unchanged. |
| Dashboard.AnalysedFrame | streamlit_app.py:156-163 | After a successful aggregation the page derives `converted` again from the enriched frame. That leaves the enriched frame as it is unless event 2 is `converted`, and then every `converted` cell is `True`. After a failed aggregation the frame is the query result unchanged. |
| Dashboard.Run | streamlit_app.py:156-196 | A report exists exactly when the guard passes. After a successful aggregation there is always a table. After a failed one there is a table exactly when the query already had the assignment and `converted` columns. A posterior implies a table and covers arms A and B. With a successful aggregation it also implies a lift, unless the assignment column is `conversion_rate`. |
| Dashboard.RatesFromEnrichedFrame | streamlit_app.py:34-36 | The groups are the group-by of the enriched frame's assignment and `converted` columns. |
| Dashboard.CrosstabRows | streamlit_app.py:80 | With a boolean `converted` column, the table's rows are exactly the groups' labels, and its columns are among `True` and `False`. |
| Dashboard.CrosstabCell | streamlit_app.py:80 | A table cell, read as 0 when absent, counts the label's rows with that flag. |
| Dashboard.FlagSplit | streamlit_app.py:80 | A label's rows split into its `True` and `False` rows. |
| Dashboard.CrosstabRowMatchesGroup | streamlit_app.py:36-40 | A table row's `True` cell is the group's `sum`, and its two cells add up to the group's `count`. |
| Dashboard.CrosstabMatchesGroupBy | streamlit_app.py:80 | The table's rows are the groups, row by row as above. |
| Dashboard.TableMatchesRates | streamlit_app.py:156-175 | The chi-squared table agrees with the aggregation. Its columns are flag values. Its rows are the group labels, unless assignment and event 2 are both `converted`. Unless event 2 is `converted`, its `True` column holds the sums and each row totals the group count. |
| Dashboard.AllConvertedPairs | streamlit_app.py:80 | When every `converted` cell is `True`, a label's `True` rows are all its rows and it has no `False` rows. |
| Dashboard.ConvertedAsEventTwo | streamlit_app.py:162-163 | With event 2 = `converted` and another assignment column, the table's rows are still the groups. Each group's `True` cell is its `count` and its `False` cell 0. Each arm's posterior is Beta(count + 1, 1), whatever the group's `sum`. |
| Dashboard.ColumnTotalsMatch | streamlit_app.py:80 | Summed over the labels, the `True` column equals the total of the sums, and both columns together equal the total of the counts. |
| Dashboard.RowTotalsMatch | streamlit_app.py:80 | Summed over the labels, both columns together equal the total of the counts whenever each row totals its group's count. |
| Dashboard.NoFalseColumnTotal | streamlit_app.py:80 | Summed over the labels, a `False` column that is 0 in every group totals 0. |
| Dashboard.TableTotals | streamlit_app.py:80 | Unless event 2 is `converted`, the table's `True` column totals the converted labelled rows. Unless assignment and event 2 are both `converted`, both columns together total the labelled rows; with event 2 alone `converted` every labelled row is in the `True` column. |
| Dashboard.FlagsHoldNoArm | streamlit_app.py:34 | A column of derived flags never holds the label A. |
| Dashboard.GuardColumnsAgree | streamlit_app.py:88-90 | The posterior's A/B test on the analysed frame's assignment column agrees with the same test on the grouping column, also when columns are named `converted`. |
| Dashboard.PosteriorMatchesRates | streamlit_app.py:156-192 | The posterior exists exactly when the grouping column holds only A and B. Then the lift exists too, unless the assignment column is `conversion_rate`. Unless event 2 is `converted`, each arm has `a = sum + 1` and `b = count − sum + 1` of its group. |
| Dashboard.PosteriorMatchesGroupBy | streamlit_app.py:88-102 | The same on the enriched frame: the posterior exists exactly when the column is {A, B}, and then the groups are A and B with those parameters. |
| Dashboard.ArmMatchesGroup | streamlit_app.py:96-98 | One arm's parameters against the same label's group. |
| Dashboard.NullLabelsSplitTheGuards | streamlit_app.py:41-49 | With labels A, B and null, the lift is computed (unless the assignment column is `conversion_rate`) but the posterior is absent, because `unique()` counts the null. |
| Dashboard.SingleLabelNoComparison | streamlit_app.py:41-90 | With a single non-null label, its group is reported with no lift and no posterior. |
| Dashboard.SingleLabelNoPosterior | streamlit_app.py:88-90 | With a single value in the assignment column there is no posterior. |
| Scenarios.GroupStatsFrom | streamlit_app.py:36-40 | A group with known count and sum has rate `sum / count`. |
| Scenarios.EvenGroups | streamlit_app.py:35-40 | Arms A, A, B, B with flags F, T, F, T give A and B each count 2, sum 1, rate 0.5. |
| Scenarios.EvenAllConvertedParams | streamlit_app.py:96-98 | With arms A, A, B, B and every row converted, each arm's parameters are Beta(3, 1). |
| Scenarios.EvenSplit | streamlit_app.py:31-102 | On such a frame, both rates are 0.5 and the lift is 0, or absent for an assignment column named `conversion_rate`. Both posteriors are Beta(2, 2), except with event 2 = `converted`: every row then counts as converted and both are Beta(3, 1). |
| Scenarios.EmptyResult | streamlit_app.py:32-33 | A result with no rows gives no rates and no posterior, and a table exactly when it already has the assignment and `converted` columns. A result with no columns, which is what an empty query gives, yields nothing at all. |
| Scenarios.ControlGroups | streamlit_app.py:35-40 | Arms A, B with flags F, T give A count 1, sum 0, rate 0, and B count 1, sum 1, rate 1. |
| Scenarios.UnconvertedControl | streamlit_app.py:43-45 | On such a frame the lift is +∞ as written (absent for an assignment column named `conversion_rate`), while the guarded lift is absent. |

## Left out

- `run_query` and the BigQuery client (lines 12-29): network I/O. The model starts from the query result as a frame.
- The Streamlit UI (lines 113-198): widgets, session state and text output. `Dashboard.Run` keeps only the order of the three analyses and which frame each one reads.
- The `df is None` checks (lines 78, 85, 151): a failed query is not modelled, because the model always has a frame.
- The charts (lines 53-75 and 92-111) and `beta.pdf` (line 104): plotting and floating-point densities.
- `chi2_contingency` (line 81): the statistic, p-value, degrees of freedom and expected frequencies. The model stops at the contingency table.
- The 0.05 significance decision (lines 183-187): it depends on the p-value, which is not modelled.
- Conversion.ConversionRates: rates are exact reals, so float64 rounding is not modelled.
- Conversion.ConversionRates: the groups are a map, so pandas' sorted row order of the output table is not stated.
- Conversion.ConversionRates: picking `count` or `sum` as the assignment column is not modelled. `reset_index` would then fail on a duplicate column name.
- Conversion.ConversionRates: with an assignment column named `conversion_rate`, the returned table's label column holds the rates (line 38). The model keeps the labels as map keys and models only the effect on the lift.
- Posterior.PosteriorParams: requires a boolean `converted` column. pandas' `sum()` over a `converted` column from the query holding other values does not count conversions.
- Dashboard.Run: the same requirement, on the frame the query returned.
- Dashboard.Run: when no row has both an assignment value and a `converted` value, the table is empty and `chi2_contingency` raises `ValueError` (line 81). The page then stops before the posterior (line 192), while `Run` reports the empty table and goes on to the posterior.
- Dashboard.TableTotals: with assignment and event 2 both `converted`, no total is stated. The table's rows are then second-pass flags (all `True`) while the listed labels are the aggregation's first-pass flags, so a sum over those labels can miss the table's rows.
- Dashboard.TableMatchesRates: with assignment and event 2 both `converted`, the table is not related to the groups. The groups then read first-pass flags and the table second-pass flags; the posterior is absent (`Dashboard.PosteriorMatchesRates`).

## Findings

| source | as written | input that shows it | evidently intended | confidence | as-written member | corrected member |
|---|---|---|---|---|---|---|
| streamlit_app.py:45 | `(variant_b_rate - variant_a_rate) / variant_a_rate` divides without a guard. When arm A never converts, the lift is `inf` (or `nan`), and the page prints it as a percentage. | Arms `[A, B]`, event 2 `[null, "y"]`: A's rate is 0, B's rate is 1. | The lift is absent when arm A's rate is 0, so the page shows its "could not calculate lift/drop" message (line 171). | not executed; high | Scenarios.UnconvertedControl | Conversion.GuardedLift |

The model of the page keeps the code's behaviour: `Conversion.ConversionRates` reports the unguarded lift (`Conversion.ReportedLift`, built on `Conversion.LiftOf`). `Conversion.GuardedLift` is the corrected definition, with its property proved. `Conversion.GuardedLiftKeepsFiniteLift` relates the two.
