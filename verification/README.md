# Trading-agent dashboard: leaderboard and performance chart

This project models the data logic behind two views of the trading-agent
dashboard in Dafny. Both views take the same performance snapshots: a
timestamp, the model's name and id, and the net portfolio value.

- The **leaderboard** does the following:
  - It keeps the snapshots inside a trailing window of 24 hours, 7 days or 30 days.
  - It groups them by model name (`r.model?.name || r.modelId || "unknown"`).
  - It summarises every model that has at least two finite values. A summary holds:
    - the first and last value in time order;
    - the absolute and percentage PnL;
    - the maximum drawdown from `computeMaxDrawdown`.
  - It ranks the summaries by the selected metric, largest first. Rows without the metric go last.
  - A vendor icon is chosen from the lower-cased model name.
- The **performance chart** does the following:
  - It turns the snapshots into finite points sorted by time, with one series per model name (`model?.name ?? modelId ?? "unknown"`).
  - It derives a bucketing tolerance from the median gap between the distinct timestamps: 1.5 × the median, clamped to between 5 s and 5 min.
  - It sweeps the points into buckets of successive points that lie within that tolerance of each other.
  - It emits one row per bucket. The row's time is the bucket centre, and each series column holds the last value written in the bucket.

## Modules

| module | contents |
|---|---|
| `Wrappers` | `Option` and `Result` |
| `Seqs` | Generic sequence tools:<br>• order-preserving `Filter`<br>• `FilterMap`, the "push some, skip others" loop<br>• `Distinct`, the first-appearance order of a JavaScript `Set` or `Map` |
| `StableSort` | A stable insertion sort over a strict weak order. It is the model of `Array.prototype.sort` with a numeric comparator. |
| `Snapshots` | The snapshot record and the two name fallbacks |
| `Drawdown` | `computeMaxDrawdown` |
| `Leaderboard` | `WINDOW_MS`, grouping, summaries and ranking |
| `Icons` | `getIconName` |
| `Chart` | The `useMemo` body of the performance chart |

Numbers are modelled as follows:
- Timestamps are integers (milliseconds).
- Portfolio values are mathematical reals.
- A value that `Number(...)` does not make finite is `None`.

## Model

| member | source | states |
|---|---|---|
| Snapshots.GroupKey | frontend/src/pages/Leaderboard.tsx:69 | The key is never empty. It is the model name when that is present and non-empty; otherwise the id when that is present and non-empty; otherwise "unknown". |
| Snapshots.SeriesName | frontend/src/components/PerformanceChart.tsx:31 | The series name is the model name whenever it is present, even if empty; otherwise the id when present; otherwise "unknown". |
| Snapshots.NameFallbacksAgree | frontend/src/pages/Leaderboard.tsx:69 | The leaderboard key and the chart series name coincide exactly when the first present name field is not the empty string. |
| Drawdown.RunningPeak | frontend/src/pages/Leaderboard.tsx:21-24 | The running peak is one of the values seen and is at least every one of them. |
| Drawdown.Fall | frontend/src/pages/Leaderboard.tsx:25 | The fall `(v - peak) / peak` times the peak is `v - peak` for any non-zero peak, and it is never positive while the peak is positive and at least `v`. |
| Drawdown.DeepestFall | frontend/src/pages/Leaderboard.tsx:22-26 | The running `maxDd`, which starts at 0, is never positive. |
| Drawdown.MaxDrawdown | frontend/src/pages/Leaderboard.tsx:19-29 | `null` exactly for no values; otherwise a non-negative number. |
| Drawdown.ComputeMaxDrawdown | frontend/src/pages/Leaderboard.tsx:19-29 | The loop with its running peak and most negative fall computes the scan's result. |
| Drawdown.MaxDrawdownIsLargestDecline | frontend/src/pages/Leaderboard.tsx:19-29 | For positive values, the result is the largest fractional decline `(earlier - later) / earlier` over all pairs of an earlier and a later value, and some pair attains it. |
| Drawdown.MaxDrawdownBelowOne | frontend/src/pages/Leaderboard.tsx:25-28 | For positive values the drawdown is a fraction in [0, 1). |
| Drawdown.MaxDrawdownZeroIffNonDecreasing | frontend/src/pages/Leaderboard.tsx:25-28 | For positive values the drawdown is 0 exactly when the values never fall. |
| Drawdown.MaxDrawdownExample | frontend/src/pages/Leaderboard.tsx:19-29 | 100, 80, 120 gives a 20% drawdown. The later recovery does not erase the fall. |
| Leaderboard.WindowMs | frontend/src/pages/Leaderboard.tsx:13-17 | Every window is a positive whole number of days. `Leaderboard.WindowsNested` orders the three windows. |
| Leaderboard.InWindow | frontend/src/pages/Leaderboard.tsx:62-68 | A snapshot is kept unless its time is strictly before `now - WINDOW_MS[win]`. |
| Leaderboard.WindowsNested | frontend/src/pages/Leaderboard.tsx:62-68 | A snapshot inside the 24h window is inside the 7d one, and one inside the 7d window is inside the 30d one. The 30d window keeps exactly the times no earlier than `now - 30 days`. |
| Leaderboard.AddToGroup | frontend/src/pages/Leaderboard.tsx:70-72 | Adding to the map adds at most one key. |
| Leaderboard.AddToGroupExisting | frontend/src/pages/Leaderboard.tsx:70-72 | Pushing under an existing key appends to that group only. |
| Leaderboard.AddToGroupNew | frontend/src/pages/Leaderboard.tsx:70-72 | A new key is appended at the end, as a `Map` keeps insertion order. |
| Leaderboard.GroupByModel | frontend/src/pages/Leaderboard.tsx:64-73 | The grouping loop over the snapshots, skipping those outside the window, makes no more groups than there are snapshots. `GroupByModelGroups` characterises its groups. |
| Leaderboard.GroupByModelGroups | frontend/src/pages/Leaderboard.tsx:64-73 | The grouping loop yields one group per distinct in-window key, in order of first appearance. Each group holds exactly the in-window snapshots with that key, in input order. |
| Leaderboard.GroupKeysDistinct | frontend/src/pages/Leaderboard.tsx:64-73 | No two groups share a key, and there are as many groups as distinct in-window keys. |
| Leaderboard.OldSnapshotsIgnored | frontend/src/pages/Leaderboard.tsx:66-68 | Removing the out-of-window snapshots first leaves the leaderboard unchanged. |
| Leaderboard.RecentOfRecent | frontend/src/pages/Leaderboard.tsx:66-68 | The window filter is idempotent, and a key's members are the same before and after it. |
| Leaderboard.Samples | frontend/src/pages/Leaderboard.tsx:77-79 | The finite-value filter never adds points. |
| Leaderboard.SamplesMembers | frontend/src/pages/Leaderboard.tsx:77-79 | The samples are exactly the snapshots with a finite value, each as `(t, v)`. Being a filter-map, they keep the input order. |
| Leaderboard.SamplesCount | frontend/src/pages/Leaderboard.tsx:77-79 | There are exactly as many samples as snapshots with a finite value. |
| Leaderboard.MembersFiniteCount | frontend/src/pages/Leaderboard.tsx:77-81 | A group's sample count is the number of its in-window snapshots with a finite value. |
| Leaderboard.OrUndefined | frontend/src/pages/Leaderboard.tsx:86 | `computeMaxDrawdown(...) \|\| undefined` keeps a non-zero drawdown and turns `null` and 0 into `undefined`. |
| Leaderboard.Summarize | frontend/src/pages/Leaderboard.tsx:76-88 | A model is summarised exactly when it has at least two finite samples. For such a model:<br>• the row carries the model's key;<br>• `pnlAbs = end - start`;<br>• `pnlPct` is `undefined` exactly when `start` is 0, and otherwise `pnlPct * start = pnlAbs`. |
| Leaderboard.PnlPctOf | frontend/src/pages/Leaderboard.tsx:85 | `pnlPct` is `undefined` exactly when `first` is 0. Otherwise, multiplied by `first`, it gives back `pnlAbs`. |
| Leaderboard.Summaries | frontend/src/pages/Leaderboard.tsx:75-88 | `result` is the summaries pushed while iterating the groups in order, at most one per group. |
| Leaderboard.Earlier | frontend/src/pages/Leaderboard.tsx:80 | The comparator `(a, b) => a.t - b.t`: a sample goes before another exactly when its time is smaller. |
| Leaderboard.EarlierIsStrictWeakOrder | frontend/src/pages/Leaderboard.tsx:80 | The sample comparator is a strict weak order, so the stable-sort results apply to the sort by time. |
| Leaderboard.Values | frontend/src/pages/Leaderboard.tsx:86 | `sorted.map((s) => s.v)`: one value per sample, in the same order. |
| Leaderboard.RowFigures | frontend/src/pages/Leaderboard.tsx:77-83 | `start` is the value of the earliest sample, taking the first in input order among ties. `end` is the value of the latest sample, taking the last in input order among ties. |
| Leaderboard.RowOfOrderedSamples | frontend/src/pages/Leaderboard.tsx:77-87 | For samples already in time order, `start`, `end` and the drawdown are read straight off the input order. |
| Leaderboard.RowDrawdown | frontend/src/pages/Leaderboard.tsx:80-86 | In whatever order the snapshots arrive, a row's drawdown is `computeMaxDrawdown(...) \|\| undefined` of its values sorted by time, and it is positive when present. For positive values it is below 1, and it is `undefined` exactly when the time-ordered values never fall. |
| Leaderboard.PnlPctSign | frontend/src/pages/Leaderboard.tsx:84-85 | With a positive start, `pnlPct` is defined and its sign is the sign of `end - start`. |
| Leaderboard.SummariesFromGroups | frontend/src/pages/Leaderboard.tsx:76-88 | Every pushed row is the summary of some group. |
| Leaderboard.GroupsToSummaries | frontend/src/pages/Leaderboard.tsx:76-88 | Every group that has a summary has its row pushed. |
| Leaderboard.SummaryNameIsKey | frontend/src/pages/Leaderboard.tsx:76-88 | Every row's name is the key of some group. |
| Leaderboard.SummariesNamesDistinct | frontend/src/pages/Leaderboard.tsx:76-88 | Distinct group keys give rows with distinct names. |
| Leaderboard.SummaryOfMembers | frontend/src/pages/Leaderboard.tsx:76-88 | Every row is the summary of the in-window snapshots that carry its own name. |
| Leaderboard.MembersSummarized | frontend/src/pages/Leaderboard.tsx:76-88 | A key with at least two finite in-window values has its summary among the rows. |
| Leaderboard.Metric | frontend/src/pages/Leaderboard.tsx:91-92 | The `a[sortKey]` / `b[sortKey]` lookup. `pnlAbs` is always present, while `pnlPct` and `drawdown` may be `undefined`. |
| Leaderboard.Outranks | frontend/src/pages/Leaderboard.tsx:90-94 | The comparator puts `a` first when `a` has the metric and `b` has none or a smaller one. |
| Leaderboard.LeaderboardRows | frontend/src/pages/Leaderboard.tsx:60-96 | The `rows` memo: no rows before `data` has loaded, and never more rows than snapshots. `LeaderboardRanked`, `LeaderboardRowIff` and `LeaderboardNamesUnique` characterise the rows. |
| Leaderboard.RankOrder | frontend/src/pages/Leaderboard.tsx:90-94 | The comparator passed to `result.sort`: `a` goes before `b` exactly when it outranks `b` on the selected metric. |
| Leaderboard.RankOrderIsStrictWeakOrder | frontend/src/pages/Leaderboard.tsx:90-94 | The comparator, with a missing metric read as -Infinity and two missing metrics as a tie, is a strict weak order. |
| Leaderboard.TiedIffSameMetric | frontend/src/pages/Leaderboard.tsx:90-94 | Two rows compare equal exactly when their selected metrics are equal, both missing counting as equal. |
| Leaderboard.RankingIsStable | frontend/src/pages/Leaderboard.tsx:90-94 | The rows tied with any given row keep their relative order through the sort. |
| Leaderboard.LeaderboardRanked | frontend/src/pages/Leaderboard.tsx:60-96 | The rows are the summaries rearranged. They are ordered by the selected metric, largest first, with rows lacking it last. Before the data has loaded there are no rows. |
| Leaderboard.LeaderboardTiesKeepOrder | frontend/src/pages/Leaderboard.tsx:90-95 | Rows with equal metric values keep the order of the per-model summaries. |
| Leaderboard.LeaderboardRowIff | frontend/src/pages/Leaderboard.tsx:60-96 | A model has a row exactly when it has at least two finite in-window values. |
| Leaderboard.RankingKeepsNamesDistinct | frontend/src/pages/Leaderboard.tsx:90-94 | Sorting does not duplicate a name. |
| Leaderboard.LeaderboardNamesUnique | frontend/src/pages/Leaderboard.tsx:60-96 | No model appears twice, and there are no more rows than distinct in-window keys. |
| Icons.Lower | frontend/src/pages/Leaderboard.tsx:99 | Lower-casing keeps the length and maps every character through ASCII lower-casing. |
| Icons.IconName | frontend/src/pages/Leaderboard.tsx:98-104 | The Anthropic icon is chosen exactly when the lower-cased name contains "claude". DeepSeek is chosen exactly when the name contains "deepseek" but not "claude". Alibaba Cloud is chosen exactly when it contains "qwen" but neither of the others. Otherwise there is no icon. |
| Icons.IconIgnoresCase | frontend/src/pages/Leaderboard.tsx:98-104 | Upper- or lower-casing the name does not change its icon. |
| Icons.ClaudeWins | frontend/src/pages/Leaderboard.tsx:100 | A name with the Anthropic icon keeps it whatever text is added before or after it. |
| Icons.IconNameExamples | frontend/src/pages/Leaderboard.tsx:98-104 | "DeepSeek-V3" gets the DeepSeek icon. "Qwen3 vs Claude" gets the Anthropic icon, because "claude" is checked first. |
| StableSort.Sort | frontend/src/components/PerformanceChart.tsx:35 | Sorting is a permutation of its input. |
| StableSort.SortIsSorted | frontend/src/components/PerformanceChart.tsx:35 | Under a strict weak order, no element of the result is strictly ahead of an earlier one. |
| StableSort.SortIsStable | frontend/src/pages/Leaderboard.tsx:90-94 | Elements the comparator calls equal keep their input order. |
| StableSort.SortKeepsCount | frontend/src/pages/Leaderboard.tsx:90-94 | Every property holds of as many elements after sorting as before. |
| StableSort.SortFirst | frontend/src/pages/Leaderboard.tsx:80-82 | The first element after sorting is the first, in input order, of the least elements. |
| StableSort.SortLast | frontend/src/pages/Leaderboard.tsx:80-83 | The last element after sorting is the last, in input order, of the greatest elements. |
| StableSort.SortOfSorted | frontend/src/pages/Leaderboard.tsx:80 | Already sorted input comes back unchanged. |
| StableSort.SortKeepsNoDuplicates | frontend/src/components/PerformanceChart.tsx:40 | Sorting distinct elements keeps them distinct. |
| Seqs.Distinct | frontend/src/components/PerformanceChart.tsx:37-38 | A `Set` holds each element once and exactly the elements of its input. |
| Seqs.DistinctFirstAppearanceOrder | frontend/src/components/PerformanceChart.tsx:37-38 | A `Set` iterates its elements in order of their first appearance in the input. |
| Seqs.FilterMapFrom | frontend/src/pages/Leaderboard.tsx:76-88 | Every result pushed by the loop comes from some element. |
| Seqs.FilterMapTo | frontend/src/pages/Leaderboard.tsx:76-88 | Every element with a result has that result pushed. |
| Seqs.FilterMapKeysDistinct | frontend/src/pages/Leaderboard.tsx:76-88 | When each result carries its element's key, distinct keys stay distinct. |
| Chart.ToPoint | frontend/src/components/PerformanceChart.tsx:29-33 | The `{ t, name, v }` object built for a snapshot: its time, its series name and its value. |
| Chart.CleanPoints | frontend/src/components/PerformanceChart.tsx:28-34 | Mapping to points and dropping non-finite values never adds points. |
| Chart.ByTime | frontend/src/components/PerformanceChart.tsx:35 | The comparator `(a, b) => a.t - b.t`: a point goes before another exactly when its time is smaller. |
| Chart.ByTimeIsStrictWeakOrder | frontend/src/components/PerformanceChart.tsx:35 | The point comparator is a strict weak order, so the stable-sort results apply to `points`. |
| Chart.Points | frontend/src/components/PerformanceChart.tsx:28-35 | `points` is a rearrangement of the finite points. |
| Chart.CleanPointsMembers | frontend/src/components/PerformanceChart.tsx:28-34 | The points are exactly the snapshots with a finite value, each under its series name. |
| Chart.PointsTimeOrdered | frontend/src/components/PerformanceChart.tsx:28-35 | `points` is in time order and is a permutation of the finite points. |
| Chart.Less | frontend/src/components/PerformanceChart.tsx:40-43 | The numeric comparator `(a, b) => a - b` of the two number sorts: ascending order. |
| Chart.LessIsStrictWeakOrder | frontend/src/components/PerformanceChart.tsx:40-43 | The numeric comparator is a strict weak order, so the stable-sort results apply to the sorted times and gaps. |
| Chart.UniqueTimes | frontend/src/components/PerformanceChart.tsx:40 | There are no more distinct times than points. |
| Chart.UniqueTimesIncrease | frontend/src/components/PerformanceChart.tsx:40 | `uniqueTs` strictly increases and holds exactly the point times. |
| Chart.Gaps | frontend/src/components/PerformanceChart.tsx:41-42 | There are `n - 1` gaps for `n >= 2` times and none otherwise. Each gap is the difference of neighbouring times. |
| Chart.GapsSpan | frontend/src/components/PerformanceChart.tsx:41-42 | The gaps add up to the span from the first time to the last. |
| Chart.GapsPositive | frontend/src/components/PerformanceChart.tsx:40-42 | Strictly increasing times have positive gaps. |
| Chart.MedianGap | frontend/src/components/PerformanceChart.tsx:43 | With no gaps the median is one minute. Otherwise it is one of the gaps. `Chart.MedianGapIsMedian` shows that it is a median. |
| Chart.MedianGapIsMedian | frontend/src/components/PerformanceChart.tsx:43 | `medianGap` is one of the gaps, at most half of the gaps are smaller, and the rest of the larger ones fit in the other half. |
| Chart.MedianGapPositive | frontend/src/components/PerformanceChart.tsx:43 | Positive gaps have a positive median. With no gaps, the median is the one-minute default. |
| Chart.MedianGapOfPointsPositive | frontend/src/components/PerformanceChart.tsx:40-44 | The median of the chart's gaps is always positive, so the `\|\| 60_000` fallback never applies. |
| Chart.Tolerance | frontend/src/components/PerformanceChart.tsx:44 | The tolerance lies between 5 seconds and 5 minutes. |
| Chart.ToleranceUnclamped | frontend/src/components/PerformanceChart.tsx:44 | Away from the clamps the tolerance is `floor(1.5 × median)`. |
| Chart.ToleranceMonotone | frontend/src/components/PerformanceChart.tsx:44 | A wider median gap never gives a smaller tolerance. |
| Chart.ToleranceExamples | frontend/src/components/PerformanceChart.tsx:44 | One minute gives 90 s, and so does a zero median. One second clamps to 5 s, and one hour clamps to 5 min. |
| Chart.ChartTolerance | frontend/src/components/PerformanceChart.tsx:43-44 | The chart's tolerance lies between 5 seconds and 5 minutes. |
| Chart.Center | frontend/src/components/PerformanceChart.tsx:52 | `Math.round((start + end) / 2)` lies between start and end and is the midpoint, with halves rounded up. |
| Chart.Store | frontend/src/components/PerformanceChart.tsx:49-65 | `bucketRows[name] = v` on a plain object sets or overwrites the column `name` and leaves every other column alone. The key "__proto__" reaches the prototype setter, which ignores a number, so that key never becomes a column. |
| Chart.Cols | frontend/src/components/PerformanceChart.tsx:49-65 | `bucketRows` after the points of one bucket are stored in order. `ColsKeys` and `ColsLastWins` say what it holds. |
| Chart.ColsKeys | frontend/src/components/PerformanceChart.tsx:49-65 | A bucket's columns are exactly the series of its points, except "__proto__". |
| Chart.ColsLastWins | frontend/src/components/PerformanceChart.tsx:65 | A series' column holds the value of its last point in the bucket. The series "__proto__" has no column. |
| Chart.Flush | frontend/src/components/PerformanceChart.tsx:51-55 | `flush()` appends exactly one row and keeps the earlier rows. That row's time lies between the bucket's start and end, and it carries the bucket's columns. |
| Chart.Step | frontend/src/components/PerformanceChart.tsx:57-66 | One iteration flushes exactly when the point lies more than the tolerance after the bucket's end. The bucket's end then reaches the point's time, and the point's value is stored under its series unless that is "__proto__". |
| Chart.Sweep | frontend/src/components/PerformanceChart.tsx:46-66 | After any prefix of the points, the open bucket starts no later than it ends, and no more rows than points have been flushed. |
| Chart.BucketRows | frontend/src/components/PerformanceChart.tsx:46-67 | The final `flush()` guarantees at least one row. |
| Chart.BucketSweep | frontend/src/components/PerformanceChart.tsx:46-67 | The loop with `bucketStart`, `bucketEnd`, `bucketRows` and `flush()` produces the sweep's rows. |
| Chart.StartsAreBreaks | frontend/src/components/PerformanceChart.tsx:59-63 | A point opens a bucket exactly when it is the first point or lies more than the tolerance after its predecessor. |
| Chart.BoundsAreBreaks | frontend/src/components/PerformanceChart.tsx:59-63 | After the first point, a bucket boundary falls exactly at each point that lies more than the tolerance after its predecessor. |
| Chart.BucketRowsAreBlocks | frontend/src/components/PerformanceChart.tsx:46-67 | Over time-ordered points, the loop emits exactly one row per maximal run of points that each lie within the tolerance of their predecessor. A row's time is the centre of its run, and its columns are the last value of each series in the run. |
| Chart.BucketCount | frontend/src/components/PerformanceChart.tsx:57-67 | There is one row more than there are gaps between successive points that are wider than the tolerance. |
| Chart.RowTimesIncrease | frontend/src/components/PerformanceChart.tsx:46-67 | Row times strictly increase and stay within the span of the points. |
| Chart.PointInItsRow | frontend/src/components/PerformanceChart.tsx:49-66 | Every point's series has a column in the row of its bucket exactly when the series is not "__proto__". That column holds the point's value when no later point of the series shares the bucket. |
| Chart.PrepareChart | frontend/src/components/PerformanceChart.tsx:25-70 | Empty input gives empty output. The computation fails, because `points[0].t` throws, exactly when the input is non-empty but no point survives the filter. Otherwise there is at least one row. |
| Chart.ChartFailsIffNoFiniteValue | frontend/src/components/PerformanceChart.tsx:26-47 | The chart fails exactly on non-empty input in which no value is finite. |
| Chart.ChartRowsAreBuckets | frontend/src/components/PerformanceChart.tsx:25-70 | The chart rows are the buckets of the time-sorted points under the chart's tolerance, in strictly increasing time. |
| Chart.ChartSeriesNames | frontend/src/components/PerformanceChart.tsx:37-38 | Each series name is listed once. A name is a series exactly when some snapshot with a finite value carries it. |
| Chart.ChartSeriesOrder | frontend/src/components/PerformanceChart.tsx:37-38 | Series are listed in the order of their first point along the time-sorted points. |
| Chart.RecordAsWritten | frontend/src/components/PerformanceChart.tsx:53 | In `{ t: center, ...bucketRows }` every column is copied and wins over the time. The time survives under "t" only when no series is named "t". |
| Chart.SeriesNamedTHidesTime | frontend/src/components/PerformanceChart.tsx:53 | In the row object as written, a series named "t" replaces the bucket time. |
| Chart.Record | frontend/src/components/PerformanceChart.tsx:53 | The corrected row object always holds the bucket time under "t", holds every other series' value, and nothing else. |
| Chart.RecordsAgreeOffT | frontend/src/components/PerformanceChart.tsx:53 | The written and the corrected row objects agree on every key except "t". |
| Chart.ChartRecords | frontend/src/components/PerformanceChart.tsx:53 | Every corrected row object carries its bucket time under "t". |
| Chart.ChartRecordTimesIncrease | frontend/src/components/PerformanceChart.tsx:52-53 | With the corrected objects, the x-axis values strictly increase along the rows. |

## Left out

- Fetching `/performance`, the React state (`loading`, `error`, `win`, `sortKey`), `useEffect` and the memoisation are not modelled. They are I/O and UI plumbing. The selected window and sort key become parameters, and the not-yet-loaded `data` is `None`.
- `Date.now()` is not modelled, because it is a clock. It is the parameter `now`.
- All rendering is not modelled: JSX, the colour list, the `Icon` component, axis and tooltip formatters. It is presentation, not data logic.
- Date parsing is not modelled, because it is foreign code. Every snapshot has an integer time. In particular, an unparsable `createdAt` gives `NaN`, which the window test `t < cutoff` would keep, and the time comparator would then misbehave.
- `Number(...)` parsing and IEEE-754 doubles are not modelled: values are exact reals. Rounding, overflow to ±Infinity and `NaN` arithmetic are left out, apart from the `Number.isFinite` filter, which becomes `None`.
- Drawdown.MaxDrawdown: whenever the running peak is 0 and a later value is negative, JavaScript divides by a zero peak. That gives `-Infinity`, so the result is `Infinity`. This happens for `[0, -1]`, and also for `[-5, 0, -3]`, where the peak rises to 0. The model takes such a fall as 0 (`Drawdown.Fall`), because Infinity is not a real.
- Icons.Lower: lower-cases ASCII letters only, because Dafny has no Unicode case tables. JavaScript's `toLowerCase` also maps other letters, e.g. KELVIN SIGN U+212A to "k", which would turn "deepseeK" into a DeepSeek name.
- Chart.PrepareChart: the `!Array.isArray(data)` guard is not modelled, because the input is typed as a sequence.
- Leaderboard.RankOrderIsStrictWeakOrder: the comparator's `NaN` on two missing metrics is taken as the tie that ECMAScript's `SortCompare` makes of it. `Infinity - Infinity` on non-finite metrics is not modelled, since values are reals.
- StableSort.Sort: the engine's sorting algorithm is not modelled. Sorting is a stable insertion sort, and any stable sort gives the same output for a strict weak order.
- `RecentInvocations.tsx`, `Performance.tsx` and the other pages and components are not part of this model. They only fetch and display.

## Findings

| source | as written | input that shows it | evidently intended | confidence | as-written member | corrected member |
|---|---|---|---|---|---|---|
| frontend/src/components/PerformanceChart.tsx:53 | `rows.push({ t: center, ...bucketRows })` spreads the series columns after the time, so a column named "t" overwrites it | a model whose name is "t": a bucket at time 1000 with `bucketRows = { t: 5 }` gives the row `{ t: 5 }` | the x-axis key `t` always holds the bucket centre | low, not executed | Chart.SeriesNamedTHidesTime | Chart.ChartRecordTimesIncrease |
