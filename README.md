# RFM scoring and dashboard queries of the AprendiZAP teacher analysis

This project models the AprendiZAP teacher-engagement analysis in Dafny and
proves properties of the model. The analysis has two parts.

- **The RFM batch** (`data_transformation.py`). It reads the interaction
  table and gives each teacher three metrics:
  - **Recency**: whole days from the day after the latest interaction back
    to the teacher's own latest start.
  - **Frequency**: the number of interactions.
  - **Duration**: the total minutes.

  Each metric is scored 1 to 5 with `pandas.qcut` quintiles. Frequency is
  first ranked with `rank(method='first')`. The scores are combined into a
  three-digit segment code and a 3-to-15 score. The result is then
  inner-joined with the teacher dimension and with the interactions, and
  each teacher gets the Monday of their registration week.
- **The three Shiny dashboards** (`app.py`, `app2.py`, `explanatory.py`).
  They cover:
  - the load-time row filters and the `usuario_valido` flag;
  - the sorted lists of distinct scores;
  - the slider defaults;
  - the inclusive date, score and validity filters;
  - weekly `groupby().size()` counts;
  - the last-thirty-days count;
  - the thousands-separated counters;
  - the four-way choice of the registrations chart.

How the model represents the data:
- **Instants** are whole seconds since 1970-01-01, with time zones already
  stripped.
- **Durations and quantile edges** are exact reals.
- **User ids** are integers.
- **Tables** are sequences of rows.

Module layout:
- `Tables`: masks, `unique`/`sort`, `groupby().size()` and the inner merge.
- `Calendar`: weekdays and week buckets.
- `Quantiles`: `qcut` and `rank(method='first')`.
- `DataTransformation`: the batch.
- `Thousands`: `format(n, ',d')`.
- `Dashboard`: what the three front-ends share.
- `App`, `App2`, `Explanatory`: one module per front-end.

The in-place `list.sort()` the dashboards run at load time is modelled as a
method. It copies the distinct values into an array and sorts that array in
place.

### Behaviour of the code worth knowing

The model follows the code in each case.

- **Empty interaction table.** The batch does not give an empty result.
  The code calls `qcut` on an empty column, which raises (`Quantiles.QcutEmptyFails`, `DataTransformation.ScoreNeedsTwoUsers`).
- **Degenerate quantiles.** There is no fallback. The code uses `qcut` with its default `duplicates='raise'`, so repeated edges raise
  (`Quantiles.QcutConstantFails`, `Quantiles.ManyTiesRaise`).
- **Five distinct values is not the condition for `qcut` to succeed.** It is
  neither necessary nor sufficient:
  - four distinct values bin fine, to 1, 2, 4 and 5 (`Quantiles.FourValuesBin`);
  - five distinct values can still raise when one value fills most of the
    column (`Quantiles.ManyTiesRaise`);
  - what does hold is that any two or more pairwise-distinct values bin
    without error (`Quantiles.QcutDistinctSucceeds`), so scoring succeeds
    whenever Recency and Duration have no ties
    (`DataTransformation.ScoreSucceeds`).
- **Ten users with Frequencies 1 to 10.** They are not split into halves of
  F scores {1, 2} and {4, 5}. The code pairs the ranks up and
  gives 1, 1, 2, 2, 3, 3, 4, 4, 5, 5 (`DataTransformation.FScoreTenUsers`).
- **Duplicate teachers.** Nothing checks that the teacher dimension has one
  row per teacher. The merge therefore fans out on duplicated keys
  (`Tables.DuplicateKeyFansOut`). The row count is bounded only when the
  keys on the right are distinct (`DataTransformation.MergeTeachers`).

## Model

| member | source | states |
|---|---|---|
| DataTransformation.DurationMinutes | data_transformation.py:8-9 | minutes times 60 is the end minus the start in seconds; negative exactly when the session ends before it starts (nothing rejects it) |
| DataTransformation.MaxStart | data_transformation.py:13 | the latest start is the start of some row and no row starts later |
| DataTransformation.RefDate | data_transformation.py:13 | `ref_date` is later than every start and is exactly one day after some start |
| DataTransformation.Transform | data_transformation.py:8-38 | the batch fails exactly when scoring the aggregated table fails, with that error, and otherwise yields no more teachers than dimension rows |
| DataTransformation.Users | data_transformation.py:14 | the `unique_id` column, row by row |
| DataTransformation.UserHasEvents | data_transformation.py:14 | a user of the table has at least one event |
| DataTransformation.MaxStartWithin | data_transformation.py:13-15 | a user's latest start is no later than the table's |
| DataTransformation.AggregateOver | data_transformation.py:14-22 | one record per listed user, in list order |
| DataTransformation.UserMetrics | data_transformation.py:14-17 | a user with events gets Frequency ≥ 1 and Recency ≥ 1, because `ref_date` is one day after the latest start |
| DataTransformation.Aggregate | data_transformation.py:14-22 | one record per distinct user of the event table and no other, users strictly ascending as `groupby` sorts them, Frequency and Recency ≥ 1 |
| DataTransformation.AggregateUsers | data_transformation.py:14-22 | the aggregate is the per-user metrics over the sorted distinct users, one record each |
| DataTransformation.FrequencyIsRowCount | data_transformation.py:16 | a user's event count is the multiplicity of the user in the `unique_id` column |
| DataTransformation.TotalFrequencyOver | data_transformation.py:16 | Frequencies over a list of users add up to the tally of those users' rows |
| DataTransformation.FrequenciesSumToRows | data_transformation.py:14-16 | the Frequencies add up to the number of event rows |
| DataTransformation.RecencyOneIffLastDay | data_transformation.py:13-15 | Recency is 1 exactly when the user's latest start is less than a day before the table's latest start |
| DataTransformation.LatestEventOwnerRecencyOne | data_transformation.py:13-15 | the owner of the latest event has Recency 1 |
| DataTransformation.TotalMinutesAppend | data_transformation.py:17 | summing minutes distributes over concatenation |
| DataTransformation.EventsOfSnoc | data_transformation.py:14 | a new row joins its own user's group and no other |
| DataTransformation.MinutesByUserSnoc | data_transformation.py:17 | a new row adds its minutes to the per-user total exactly when its user is listed |
| DataTransformation.MinutesByUserCovers | data_transformation.py:17 | summing per user over every user sums all minutes |
| DataTransformation.MinutesByUserEmpty | data_transformation.py:17 | no events give zero minutes for any users |
| DataTransformation.TotalDurationOver | data_transformation.py:17 | the Durations over a list of users are those users' minutes |
| DataTransformation.DurationsSumToMinutes | data_transformation.py:17 | grouping loses no minutes: the Durations add up to the minutes of the whole table |
| DataTransformation.Segment | data_transformation.py:30 | three characters whose digits read back as the R, F and M scores |
| DataTransformation.LabelsAreScores | data_transformation.py:25-27 | every label `qcut` hands out is a score from 1 to 5 |
| DataTransformation.Records | data_transformation.py:25-31 | row i carries the metrics of user i and the three labels of row i |
| DataTransformation.Score | data_transformation.py:25-31 | the three `qcut`s in the order R, F, M, the first failure naming its column; on success one row per user with the metrics carried over, scores in 1..5, `RFM_Score` = R + F + M in 3..15, and the segment built from the three scores |
| DataTransformation.ScoreIsRecords | data_transformation.py:25-31 | a successful scoring means all three `qcut`s succeeded and each row holds their labels |
| DataTransformation.LabelOfBin | data_transformation.py:25-27 | bin b gets label 6 − b for Recency and b for the others |
| DataTransformation.ScoresAreBins | data_transformation.py:25-27 | the R score is 6 minus the Recency bin, F the bin of the Frequency rank, M the bin of Duration |
| DataTransformation.RScoreMonotone | data_transformation.py:25 | a smaller Recency never gets a lower R score |
| DataTransformation.MScoreMonotone | data_transformation.py:27 | a larger Duration never gets a lower M score |
| DataTransformation.EqualMetricsEqualScores | data_transformation.py:25-27 | equal Recency gives equal R scores, and equal Duration gives equal M scores |
| DataTransformation.FScoreFollowsRank | data_transformation.py:26 | a row ranked before another never gets the higher F score |
| DataTransformation.FScoreMonotone | data_transformation.py:26 | a higher Frequency never gets a lower F score |
| DataTransformation.FScoreTiesByRow | data_transformation.py:26 | equal Frequencies are split in row order, that is by ascending user: the earlier user never gets the higher F score |
| DataTransformation.ScoreNeedsTwoUsers | data_transformation.py:25 | with no user or a single one the Recency `qcut` raises |
| DataTransformation.FScoreNeverRaises | data_transformation.py:26 | from two users on, the Frequency `qcut` never raises |
| DataTransformation.ScoreSucceeds | data_transformation.py:25-27 | with two or more users whose Recency values differ pairwise and whose Durations differ pairwise, scoring succeeds |
| DataTransformation.FrequenciesAscending | data_transformation.py:26 | ascending Frequencies give an ascending Frequency column |
| DataTransformation.FScoresOfRanks | data_transformation.py:26 | every F score is the bin of that user's Frequency rank |
| DataTransformation.FScoreTenUsers | data_transformation.py:26 | ten users: F score = (rank + 1) / 2, so ascending Frequencies score 1, 1, 2, 2, 3, 3, 4, 4, 5, 5 |
| DataTransformation.FScoreFiveUsers | data_transformation.py:26 | five users: F score = rank, so five equal Frequencies still score 1 to 5 in row order |
| DataTransformation.AscendingRanks | data_transformation.py:26 | with all Frequencies equal, `rank(method='first')` numbers the rows 1, 2, … in row order |
| DataTransformation.TeacherJoinNoFanOut | data_transformation.py:34 | with one `rfm` row per user the teacher merge has at most as many rows as the dimension |
| DataTransformation.MergeTeachers | data_transformation.py:34-36 | a row exactly for each dimension row and `rfm` row of the same user, with `semana_entrada` the date of the entry moved back to Monday; when `rfm` users are distinct, no fan-out and the dimension rows come out once each, in their own order, exactly those whose user has an `rfm` row |
| DataTransformation.MergeEntries | data_transformation.py:38 | a row exactly for each event and teacher of the same user, with the event's minutes; when teacher users are distinct, the events come out once each, in their own order, exactly those whose user has a teacher row |
| DataTransformation.TeacherJoinInOrder | data_transformation.py:34 | with distinct `rfm` users, the dimension column of the teacher merge is the dimension filtered to users with an `rfm` row, in order |
| DataTransformation.EntryJoinInOrder | data_transformation.py:38 | with distinct teacher users, the event column of the entry merge is the event table filtered to users with a teacher row, in order |
| DataTransformation.EntriesInOrder | data_transformation.py:34-38 | with distinct dimension users, the event column of `entries` is the event table filtered to users with a dimension row, in order |
| DataTransformation.EntriesOfTeachers | data_transformation.py:38 | when `teachers` is the dimension filtered to users with events, merging the events with it keeps, in order, the events whose user has a dimension row |
| DataTransformation.TeacherKeysDistinct | data_transformation.py:34-36 | distinct dimension users give distinct users in `teachers` |
| DataTransformation.TeacherOwners | data_transformation.py:38 | an event has a `teachers` row of its user exactly when it has a dimension row of its user |
| DataTransformation.SameUsers | data_transformation.py:14-31 | the scored rows, one per aggregated user in ascending order, cover exactly the users of the events |
| DataTransformation.ScoredUsers | data_transformation.py:14-31 | the scored table has one row per user with events, users strictly ascending, and no other users |
| DataTransformation.TransformTeachers | data_transformation.py:34-36 | `teachers` holds exactly the dimension rows whose user has events, each with that user's `rfm` row and the Monday at midnight of its entry week; its dimension column is the dimension table filtered to users with events, in order; no more rows than the dimension |
| DataTransformation.UserOfEvent | data_transformation.py:14 | the user of every event is in the `unique_id` column |
| DataTransformation.EntryOfTeacher | data_transformation.py:38 | every event meets every teacher row of its user in the merge |
| DataTransformation.TransformEntries | data_transformation.py:38 | `entries` pairs every event with every `teachers` row of its user and holds nothing else; when dimension users are distinct, its event column is the event table filtered to users with a dimension row, in order |
| Quantiles.Insert | data_transformation.py:25-27 | inserting into ascending values keeps them ascending and adds exactly that value |
| Quantiles.SortedTail | data_transformation.py:25-27 | dropping the first of ascending values keeps them ascending |
| Quantiles.SortedCons | data_transformation.py:25-27 | a value no larger than ascending values can go in front of them |
| Quantiles.LowerBoundOfInsert | data_transformation.py:25-27 | inserting a larger value keeps the first value below everything after it |
| Quantiles.Sort | data_transformation.py:25-27 | the sorted values are ascending and a permutation of the column |
| Quantiles.Edges | data_transformation.py:25-27 | six edges, the quantiles at 0, 0.2, …, 1 |
| Quantiles.Quantile | data_transformation.py:25-27 | the quantile at k/5 of the sorted column; stated by `Quantiles.Edges` and the edge lemmas |
| Quantiles.BinOf | data_transformation.py:25-27 | the bin of a value: the number of edges strictly below it, with the lowest edge itself in bin 1 (right-closed bins, `include_lowest=True`); stated by `Quantiles.BinOfTenRanks`, `Quantiles.BinOfFiveRanks` and the qcut lemmas |
| Quantiles.CountBelow | data_transformation.py:25-27 | never more than the number of edges |
| Quantiles.QcutBins | data_transformation.py:25-27 | on success one bin per value, each from 1 to 5 |
| Quantiles.Qcut | data_transformation.py:25-27 | succeeds exactly when binning does, and then gives each value the label of its bin |
| Quantiles.SortedMembers | data_transformation.py:25-27 | every value lies between the least and the greatest sorted value |
| Quantiles.EdgesSpan | data_transformation.py:25-27 | the first edge is at most and the last at least every value |
| Quantiles.InterpolateBracket | data_transformation.py:25-27 | an interpolated quantile lies between its two neighbouring order statistics |
| Quantiles.Interpolate | data_transformation.py:25-27 | linear interpolation between the order statistics at position h/5, as `qcut` computes its edges; stated by the Interpolate lemmas below |
| Quantiles.InterpolateMonotone | data_transformation.py:25-27 | interpolation never decreases along the position |
| Quantiles.NeighboursStrict | data_transformation.py:25-27 | in ascending values without repeats each value is strictly below the next |
| Quantiles.InterpolateStrictBracket | data_transformation.py:25-27 | over distinct values, a quantile off a whole position lies strictly between its two neighbouring order statistics |
| Quantiles.SameGapStrict | data_transformation.py:25-27 | over distinct values, later positions between the same two order statistics give strictly larger quantiles |
| Quantiles.CrossGapStrict | data_transformation.py:25-27 | over distinct values, positions between different order statistics give strictly larger quantiles |
| Quantiles.InterpolateStrict | data_transformation.py:25-27 | over distinct values, interpolation strictly increases with the position |
| Quantiles.QcutDistinctSucceeds | data_transformation.py:25-27 | two or more pairwise-distinct values never make `qcut` raise |
| Quantiles.QuantileMonotone | data_transformation.py:25-27 | a higher quantile level never gives a lower quantile |
| Quantiles.EdgesNonDecreasing | data_transformation.py:25-27 | the edges never decrease, so they are distinct exactly when strictly ascending |
| Quantiles.AscendingChain | data_transformation.py:25-27 | edges that each rise above the previous one are strictly ascending |
| Quantiles.CountBelowMonotone | data_transformation.py:25-27 | a larger value has at least as many edges below it |
| Quantiles.CountBelowLast | data_transformation.py:25-27 | a value no larger than the last edge has fewer edges below it than there are edges |
| Quantiles.BinInRange | data_transformation.py:25-27 | every value between the first and the last edge gets a bin from 1 to 5 |
| Quantiles.BinMonotone | data_transformation.py:25-27 | a larger value never lands in a lower bin |
| Quantiles.CountBelowSplit | data_transformation.py:25-27 | on ascending edges those below a value form a prefix |
| Quantiles.CountBelowNone | data_transformation.py:25-27 | a value no larger than every edge has none below it |
| Quantiles.BinIsInterval | data_transformation.py:25-27 | the bin chosen is exactly the right-closed interval holding the value, the lowest edge included in bin 1 |
| Quantiles.NonDecreasingChain | data_transformation.py:25-27 | neighbour-wise non-decreasing values are ascending |
| Quantiles.QcutBinsMonotone | data_transformation.py:25-27 | binning is monotone in the value |
| Quantiles.QcutBinsInterval | data_transformation.py:25-27 | each value lies in the interval of its bin |
| Quantiles.QcutConstantFails | data_transformation.py:25-27 | a column of equal values raises |
| Quantiles.EdgeAt | data_transformation.py:25-27 | edge k is the quantile at k/5 of the sorted values |
| Quantiles.SortConstant | data_transformation.py:25-27 | sorting a column of one repeated value leaves only that value |
| Quantiles.InterpolateConstant | data_transformation.py:25-27 | interpolating between equal values gives that value |
| Quantiles.QcutEmptyFails | data_transformation.py:25-27 | an empty column raises |
| Quantiles.CountBefore | data_transformation.py:26 | at most the number of rows looked at |
| Quantiles.RanksFirst | data_transformation.py:26 | one rank per row |
| Quantiles.CountBeforeSelf | data_transformation.py:26 | a row never ranks before itself |
| Quantiles.RankFirstBounds | data_transformation.py:26 | every rank is between 1 and the number of rows |
| Quantiles.RankFirst | data_transformation.py:26 | `rank(method='first')`: the number of smaller values plus the number of equal values up to the row; stated by `Quantiles.RankFirstBounds` and the rank lemmas |
| Quantiles.CountBeforeGrows | data_transformation.py:26 | whatever ranks before a row also ranks before any row it precedes |
| Quantiles.RankFirstOrder | data_transformation.py:26 | a smaller value, or an equal value in an earlier row, gets a smaller rank |
| Quantiles.RankFirstOfNonDecreasing | data_transformation.py:26 | a non-decreasing column is ranked 1, 2, …, n in row order |
| Quantiles.CountBeforeOfNonDecreasing | data_transformation.py:26 | in a non-decreasing column exactly the earlier rows rank before a row |
| Quantiles.Iota | data_transformation.py:26 | the sequence 1, 2, …, n |
| Quantiles.DistinctMultiplicity | data_transformation.py:26 | distinct values occur at most once each |
| Tables.TwoOccurrences | data_transformation.py:26 | a value at two positions occurs at least twice; used for the ties of `rank` and for the duplicates `unique()` drops (app.py:27) |
| Quantiles.SortDistinct | data_transformation.py:26 | sorting keeps distinct values distinct |
| Quantiles.LowerBounds | data_transformation.py:26 | the i-th of ascending distinct whole numbers from 1 is at least i + 1 |
| Quantiles.UpperBounds | data_transformation.py:26 | the i-th of n ascending distinct whole numbers up to n is at most i + 1 |
| Quantiles.SortedRanksAreIota | data_transformation.py:26 | the ranks are a permutation of 1..n |
| Quantiles.InterpolateIota | data_transformation.py:26 | interpolating in 1..n at position h/5 gives 1 + h/5 |
| Quantiles.QuantileOfIota | data_transformation.py:26 | the quantiles of 1..n are 1 + (n−1)k/5 |
| Quantiles.RankEdges | data_transformation.py:26 | the edges of a ranked column are 1 + (n−1)k/5 |
| Quantiles.RanksBinIffTwoRows | data_transformation.py:26 | binning the ranks succeeds exactly when there are at least two rows |
| Quantiles.CountBelowSix | data_transformation.py:25-27 | the edges below a value counted one edge at a time |
| Quantiles.QcutBinsValue | data_transformation.py:25-27 | each value gets the bin of its interval among the edges |
| Quantiles.TenRankEdges | data_transformation.py:26 | the edges of ten ranks are 1, 2.8, 4.6, 6.4, 8.2, 10 |
| Quantiles.FiveRankEdges | data_transformation.py:26 | the edges of five ranks are 1, 1.8, 2.6, 3.4, 4.2, 5 |
| Quantiles.BinOfTenRanks | data_transformation.py:26 | against the edges of ten ranks, rank x lands in bin (x + 1) / 2 |
| Quantiles.BinOfFiveRanks | data_transformation.py:26 | against the edges of five ranks, rank x lands in bin x |
| Quantiles.TenRanksPairUp | data_transformation.py:26 | ten ranked rows fall two to a bin |
| Quantiles.FiveRanksSpread | data_transformation.py:26 | five ranked rows get one bin each, the bin being the rank |
| Quantiles.SortedUnique | data_transformation.py:25-27 | two ascending orders of the same values are equal |
| Quantiles.SortedHeads | data_transformation.py:25-27 | two ascending orders of the same values start with the same value |
| Quantiles.SortedRest | data_transformation.py:25-27 | the rest of a sequence holds its values less the first |
| Quantiles.SortOfSorted | data_transformation.py:25-27 | sorting ascending values changes nothing |
| Quantiles.SortedByNeighbours | data_transformation.py:25-27 | neighbour-wise ascending values are sorted |
| Quantiles.EdgeOfSorted | data_transformation.py:25-27 | the edges of ascending values are their quantiles |
| Quantiles.QuantileOfEleven | data_transformation.py:25-27 | the quantile at k/5 of eleven values is the value at position 2k |
| Quantiles.QuantileOfFour | data_transformation.py:25-27 | the quantile at k/5 of four values sits at position 3k/5 |
| Quantiles.RepeatedEdgesRaise | data_transformation.py:25-27 | repeated edges make `qcut` raise |
| Quantiles.FourValuesSorted | data_transformation.py:25-27 | the column 1, 2, 3, 4 is ascending |
| Quantiles.ManyTiesSorted | data_transformation.py:25-27 | the column of seven 1s then 2, 3, 4, 5 is ascending |
| Quantiles.FourValuesEdges | data_transformation.py:25-27 | the edges of 1, 2, 3, 4 are 1, 1.6, 2.2, 2.8, 3.4, 4 |
| Quantiles.ManyTiesEdges | data_transformation.py:25-27 | seven 1s then 2, 3, 4, 5 give equal first and second edges |
| Quantiles.FourValuesBins | data_transformation.py:25-27 | against those edges 1, 2, 3, 4 land in bins 1, 2, 4, 5 |
| Quantiles.FourValuesBin | data_transformation.py:25-27 | four distinct values bin without error, to 1, 2, 4, 5 |
| Quantiles.ManyTiesRaise | data_transformation.py:25-27 | five distinct values with one of them repeated seven times raise |
| Calendar.DayOfWeek | data_transformation.py:36 | a weekday index from 0 (Monday) to 6 |
| Calendar.ShiftByDays | data_transformation.py:36 | moving by whole days moves the day number alike and keeps the time of day |
| Calendar.ShiftWeekday | data_transformation.py:36 | moving by k days moves the weekday by k modulo 7 |
| Calendar.BackToMondayIsMonday | explanatory.py:38 | subtracting the weekday index lands on a Monday at the same time of day, on or before the instant and less than a week earlier |
| Calendar.BackToMonday | explanatory.py:38 | the instant minus its weekday index in days, time of day kept; stated by `Calendar.BackToMondayIsMonday` |
| Calendar.WeekStartDate | app.py:38 | the date minus its weekday index in days, at midnight; stated by `Calendar.WeekStartDateIsMonday`, `Calendar.WeekStartDateUnique` and `Calendar.WeekStartDateLatest` |
| Calendar.WeekStartDateIsMonday | app.py:38 | the week bucket is a Monday at midnight, on or before the instant and less than a week earlier |
| Calendar.WeekStartDateUnique | app.py:38 | no other Monday midnight is on or before the instant and less than a week earlier |
| Calendar.DateOfBackToMonday | data_transformation.py:36 | the date of the shifted instant equals the shifted date |
| Calendar.WeekStartDateLatest | app.py:37-38 | every Monday midnight on or before the instant is on or before its bucket |
| Tables.Select | app.py:24 | a boolean mask keeps exactly the rows that satisfy it, in order, and every copy of each: a kept row occurs as often as in the table, a dropped row not at all |
| Tables.SelectAll | app.py:152-155 | a mask true on every row keeps the whole table |
| Tables.SelectSelect | app.py:148-155 | two masks in a row select what their conjunction selects |
| Tables.SelectExt | app2.py:151-160 | masks that agree on every row select the same rows |
| Tables.InsertUnique | app.py:27-28 | inserting into strictly ascending values keeps them strictly ascending, adding the value only if absent |
| Tables.SortedDistinct | app.py:27-28 | the distinct values of a column, strictly ascending |
| Tables.StrictlySortedUnique | app.py:27-28 | two strictly ascending lists with the same members are equal |
| Tables.Tally | app.py:204 | one count per listed key, each the key's multiplicity |
| Tables.TallySnoc | app.py:204 | a new row adds one to its own key's count only |
| Tables.DistinctOnce | app.py:204 | in a list of distinct keys each occurs once |
| Tables.TallyTotal | app.py:204 | counts over all distinct keys add up to the rows |
| Tables.EmptyTally | app.py:204 | no rows give zero counts |
| Tables.GroupSizes | app.py:204 | `groupby().size()`: one pair per distinct key, keys ascending, each count ≥ 1 and equal to the key's multiplicity |
| Tables.GroupSizesTotal | app.py:204 | the sizes add up to the number of rows |
| Tables.MatchesOf | data_transformation.py:34 | the right rows whose key matches one left row |
| Tables.InnerJoin | data_transformation.py:34 | an inner merge holds exactly the pairs with matching keys |
| Tables.MatchesOfInOrder | data_transformation.py:34 | the right rows joined to one left row are that row's matches, in the right table's order |
| Tables.InnerJoinInOrder | data_transformation.py:34 | with distinct right keys, the left column of an inner merge is the left table filtered to rows with a match, in order, each once |
| Tables.SelectKeepsDistinctKeys | data_transformation.py:34-38 | filtering a table with distinct keys keeps them distinct, so the teacher table again has one row per user |
| Tables.MatchesOfUnique | data_transformation.py:34 | distinct right keys match a left row at most once |
| Tables.NoMatches | data_transformation.py:34 | no matching key gives no pairs |
| Tables.InnerJoinNoFanOut | data_transformation.py:34 | distinct right keys give at most one joined row per left row |
| Tables.DuplicateKeyFansOut | data_transformation.py:34 | a repeated right key fans one left row out into two |
| Thousands.DigitChar | app.py:185 | a digit character whose value is the digit |
| Thousands.Digits | app.py:185 | decimal digits only, no leading zero except "0" for zero, one digit below 10 and at most three below 1000 |
| Thousands.Pad3 | app.py:185 | three digits |
| Thousands.Grouped | app2.py:165 | `format(n, ',d')`: digits and separators, a separator exactly every fourth place from the right, never at the front (length not a multiple of four), and a leading zero only for "0" |
| Thousands.GroupPositions | app2.py:165 | a separator and a three-digit group appended keep the separators exactly every fourth place from the right |
| Thousands.ReadDigits | app2.py:165 | the digits read back as the number |
| Thousands.ReadGroup | app2.py:165 | a separator and three digits multiply the number read so far by 1000 and add the group |
| Thousands.GroupedRoundTrip | app2.py:165 | reading the formatted count back, separators skipped, gives the count |
| Thousands.ReplaceChar | app.py:185 | `str.replace` of one character: same length, that character swapped everywhere and nothing else changed |
| Thousands.SwapSeparator | app.py:185 | formatting with commas then swapping them for dots is formatting with dots |
| Thousands.GroupedLength | app.py:185 | the separator does not change the length |
| Thousands.GroupedDigitsAgree | app.py:185 | the digits are the same whatever the separator |
| Thousands.DotGrouped | app.py:185 | the count grouped with dots, and read back it is the count |
| Dashboard.MarkValidity | app.py:26 | one row per teacher, valid exactly when `selectedstages` is present |
| Dashboard.TeacherRows | app.py:26 | the teacher rows under the flag |
| Dashboard.RowsOfMarked | app.py:26 | adding the flag keeps the rows |
| Dashboard.MarkedMembers | app2.py:20 | a flagged row is a teacher whose flag is true exactly when `selectedstages` is present |
| Dashboard.CappedTeachers | explanatory.py:24-26 | the loaded teachers keep their order and are exactly those with Frequency below 9000, each as often as in the table, valid exactly when `selectedstages` is present |
| Dashboard.Column | app.py:27-33 | a score column |
| Dashboard.Unique | app.py:27 | `unique()`: each value of the column exactly once, in order of first appearance: a value listed later than another first appears later in the column |
| Dashboard.SubseqSnoc | app.py:27 | appending a row to both keeps a kept-rows relation |
| Dashboard.SubseqOfLast | app.py:27 | the last row alone is kept from a table |
| Dashboard.SubseqExtend | app.py:27 | a kept-rows relation survives a row added to the table |
| Dashboard.SortInPlace | app.py:28 | `list.sort()` leaves the list ascending and a permutation of what it held |
| Dashboard.SortedDistinctValues | app.py:27-28 | sorting distinct values gives them strictly ascending, same members |
| Dashboard.ScoreList | app.py:27-28 | the list is strictly ascending, has exactly the column's values, and is the sorted distinct column |
| Dashboard.ScoreLists | app.py:27-34 | the four lists are the sorted distinct R, F, M and RFM scores |
| Dashboard.Ends | app2.py:49-51 | `l[0]`, `l[-1]` (the RFM slider's `min`, `max` and default `value`), absent exactly for an empty list; on a strictly ascending list the least and greatest member |
| Dashboard.Min | app.py:53 | `min()`: a member no greater than any other |
| Dashboard.Max | app.py:54 | `max()`: a member no smaller than any other |
| Dashboard.Range | app.py:53-55 | the slider defaults: absent exactly for an empty column, else members bracketing every value |
| Dashboard.EntryWeeks | app.py:53-55 | the `semana_entrada` column |
| Dashboard.StartWeeks | app.py:360 | the `semana_inicio` column |
| Dashboard.WeeklyCounts | app.py:204 | one count per distinct week, weeks ascending, each ≥ 1 and its multiplicity, adding up to the rows |
| Dashboard.OnlyValid | app.py:149 | keeps the valid rows, in order, each as often as in the table, and no other row |
| Dashboard.RegistrationsPerWeek | app.py:202-204 | registrations per week: weeks ascending, exactly the weeks of the filtered teachers, each with its number of teachers (≥ 1), counts adding up to the filtered teachers |
| Dashboard.InteractionsPerWeek | app.py:357-360 | interactions per week: weeks ascending, exactly the week buckets of the filtered entries, each with its number of entries (≥ 1), counts adding up to the filtered entries |
| App.FirstDayIsMonday | app.py:37 | 2022-01-03 is a Monday at midnight |
| App.EntryRows | app.py:36-38 | the entry rows under the week column |
| App.WithWeekStart | app.py:38 | each entry gets the Monday midnight of its week |
| App.LoadEntries | app.py:36-38 | the loaded entries keep their order and are exactly those starting on or after 2022-01-03, each as often as in the table, with the Monday midnight of its week |
| App.LoadedWeeks | app.py:37-38 | every loaded bucket is a Monday midnight, at most the start and less than a week before it, and not before 2022-01-03 |
| App.TeachersFiltrado | app.py:145-155 | the same rows, order and repeats as the single combined mask: registration week in [start, end], only valid teachers when the switch is on |
| App.InvertedRangeEmpty | app.py:152-155 | start after end shows no teacher |
| App.DefaultsKeepAllTeachers | app.py:50-55 | at the slider defaults with the switch off every teacher is shown |
| App.ValidUsers | app.py:162 | exactly the users having a valid teacher row (one entry per valid row; `.unique()` is not modelled since only `isin` uses the list) |
| App.EntriesFiltrado | app.py:157-169 | the same rows, order and repeats as the single combined mask: week in [start, end], only entries of users with a valid teacher row when the switch is on |
| App.QtdProfessores | app.py:184-185 | the count grouped with dots, and read back it is the number of filtered teachers |
| App.PlotCadastros | app.py:267-277 | each of the four labels selects its own chart, and any other text none |
| App2.TeachersFiltrado | app2.py:146-160 | keeps, in order, exactly the teachers whose week is in [startDate, endDate] and whose `RFM_Score` is in [startRfm, endRfm], only valid ones when the switch is on: the single combined mask |
| App2.RfmDefaultsAreBounds | app2.py:27-28 | the RFM slider defaults are the least and greatest `RFM_Score` of the table |
| App2.DefaultsKeepAll | app2.py:146-160 | with all controls at their defaults every teacher is shown |
| App2.InvertedRangesEmpty | app2.py:155-160 | an inverted date range or score range shows no teacher |
| App2.QtdProfessores | app2.py:163-165 | exactly `Thousands.Grouped` of the number of filtered teachers: digits and commas, a comma every fourth place from the right, none at the front, no leading zero unless "0", and read back it is that number |
| Explanatory.LoadEntries | explanatory.py:36-38 | every entry kept, in order, with its start moved back to Monday at the same time of day |
| Explanatory.LoadedWeeks | explanatory.py:38 | every bucket is a Monday at the entry's time of day, at most the start and less than a week before it, whose date is the app.py bucket |
| Explanatory.SameWeekApart | explanatory.py:135 | grouping by the explanatory bucket, which keeps the time of day (explanatory.py:38), turns a Monday 10:00 and a Tuesday 11:00 entry of one calendar week (one app.py bucket) into exactly two weeks of one interaction each |
| Explanatory.FilteredEntries | explanatory.py:113-119 | keeps, in order, exactly the entries starting in [start, end], each as often as in the table |
| Explanatory.Starts | explanatory.py:128 | the `data_inicio` column |
| Explanatory.LastThirtyDays | explanatory.py:128 | keeps, in order, exactly the entries starting at most thirty days before the latest start, each as often as in the table; none for no entries, at least one otherwise |
| Explanatory.InteracoesD30 | explanatory.py:126-129 | the last-thirty-days count grouped with dots; read back it is that count, at most the filtered count and at least one when anything was filtered |

## Left out

- Parquet reads and writes (data_transformation.py:4-5 and 40-41, and the dashboards' `read_parquet` calls): input and output. The tables are parameters and results.
- Time-zone handling (`tz_localize(None)`, data_transformation.py:10-11, 35): instants are already naive whole seconds. Nanosecond resolution is not modelled.
- Missing timestamps: a `NaT` start or end gives a `NaN` duration, and pandas skips `NaN` in the `sum` and `NaT` in the `max` of data_transformation.py:13-17. Every `Event` here has both instants, so these rows are not modelled.
- Floating point: durations, quantiles and ranks are exact reals, so rounding in `qcut`'s edges and in minute totals is not modelled.
- User ids are integers. The string ids of the data only need equality and the ascending order `groupby` sorts by.
- In-place column assignment on the batch and load tables is modelled as functions returning the new table. Only `list.sort()` is modelled in place, on an array.
- The Shiny UI construction, reactive wiring, plotnine charts, colours and icons: rendering only. The four-way dispatch is modelled; the charts it calls are not.
- The float means and their `:,.2f` formatting (app.py:187-200, app2.py:167-180), the three mean-per-week charts (app.py:219-265) and the heatmap on mean durations (app.py:330-355, app2.py:249-268): float display numerics.
- The `estado` and `utm_origin` `value_counts()` bar charts (app.py:280-328, app2.py:200-248): display only. Their columns are carried in the teacher rows.
- `cadastros_d30` (explanatory.py:122-123) only echoes a UI input.
- The entries slider defaults of app.py (app.py:58-65) and explanatory.py (explanatory.py:64-71): they are `Dashboard.Range` of the entry column, as for registrations, and have no lemma of their own.
- The R/F/M selectize inputs of explanatory.py (explanatory.py:43-63) are filled with the score lists but never applied to any table.
- App.ValidUsers: keeps one entry per valid row rather than applying `.unique()`; its only use is the `isin` membership test at app.py:163, which duplicates do not change.
- Explanatory.LastThirtyDays: the empty case follows pandas, where the maximum of no rows is `NaT` and every comparison is false; `NaT` itself is not modelled.
