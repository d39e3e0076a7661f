# Foresight health analytics: KPI aggregation and reliability preparation

This project is a Dafny model of the two deterministic analytics of a
monitoring application for an industrial flow subsystem.

- **KPI aggregation** (`compute_kpis`) turns a sensor table and an event table
  into three numbers:
  - availability, the percentage of readings whose flow is strictly above
    4500;
  - demand failures, the number of times the flow drops from at least 4300
    to below 4300, counted as the 1s of `low.diff().fillna(0)`;
  - open work orders, the number of `wo_open` events minus the number of
    `wo_close` events, never clamped.
- **Reliability preparation** (the `/reliability` handler) does the discrete
  work that comes before the Weibull rank regression:
  - it selects the failure events and sorts their start times;
  - it falls back to the fixed intervals `[100, 140, 220, 300]` when fewer
    than three failures are recorded;
  - otherwise it takes the gaps between consecutive failures in whole
    minutes, rounding down;
  - it sorts the intervals and computes Benard's median ranks
    `(i - 0.3) / (n + 0.4)`.

The design documentation asks for an insufficient-data error on an empty
sensor table. The code raises none: the mean of an empty mask is NaN. The
model follows the code and reports availability as `NotANumber` in that
case. The same documentation asks for non-positive intervals to be refused
before the logarithm; the code does not do this (see Findings).

Modules:

- `Tables`: the sensor reading, event and KPI records. Timestamps are whole
  seconds and flows are exact reals.
- `Seqs`: mask selection (`Filter`), column projection (`Map`), sums and
  sortedness, with the counting and permutation facts used by the others.
- `Sorting`: an ascending sort. It is shown to be the unique ascending
  permutation of its input.
- `Arith`: small facts about real ratios used by the rank proofs.
- `Kpi`: `compute_kpis`. The chain `(flow < 4300).astype(int)`, `.diff()`,
  `.fillna(0)`, `== 1` is modelled step by step (`LowFlags`, `Diff` with an
  explicit missing-value cell, `FillNa`, `EdgeSignal`). Each KPI is then
  proved equal to an independent definition: a set of indices for
  availability and for work orders, and the set of nominal-to-low transitions
  for demand failures.
- `Reliability`: failure times, whole-minute intervals, the fallback branch,
  median ranks, and a checked variant that refuses non-positive intervals
  before any logarithm would be taken.

## Model

| member | source | states |
|---|---|---|
| `Kpi.AvailabilityAt` | src/health/kpi.py:5 | For a non-empty table, the result is 100 times the share of readings with flow strictly above the threshold. It lies in [0, 100]. It is exactly 100 iff every reading is above the threshold, and exactly 0 iff none is. |
| `Kpi.AvailabilityAntitone` | src/health/kpi.py:5 | Raising the threshold never raises availability. |
| `Kpi.Availability` | src/health/kpi.py:5 | The mean of the mask, as a percentage, is NaN exactly when there are no readings. Otherwise it lies in [0, 100] and equals 100 times the share of readings above 4500. |
| `Kpi.BoundaryFlowNotAvailable` | src/health/kpi.py:5 | The comparison with 4500 is strict. A reading at exactly 4500 is not counted, and its presence keeps availability below 100%. |
| `Kpi.LowFlags` | src/health/kpi.py:6 | The flag is 1 exactly at the low readings (< 4300) and 0 exactly at the nominal ones, one flag per reading. |
| `Kpi.Diff` | src/health/kpi.py:7 | `diff()` is missing at the first position. Every later cell is a number that takes the previous value to the current one. |
| `Kpi.FillNa` | src/health/kpi.py:7 | `fillna(v)` keeps every number and puts `v` in every missing cell. |
| `Kpi.EdgeSignal` | src/health/kpi.py:6-7 | `low.diff().fillna(0)` is 0 at the first position and lies in -1..1 everywhere. It equals 1 exactly at the positions where a nominal reading is followed by a low one. |
| `Kpi.DemandFailures` | src/health/kpi.py:6-7 | The count of 1s in `low.diff().fillna(0)` equals the number of positions i > 0 where reading i is low (< 4300) and reading i-1 is nominal (>= 4300). |
| `Kpi.DemandFailuresSnoc` | src/health/kpi.py:6-7 | Appending one reading adds exactly one failure when the previous reading is nominal and the new one is low, and adds nothing otherwise. |
| `Kpi.DemandFailuresConcat` | src/health/kpi.py:6-7 | The count for a concatenation is the sum of the two counts, plus one when the junction is a nominal-to-low transition. |
| `Kpi.SustainedLowRunCountsOnce` | src/health/kpi.py:6-7 | A run of low readings that follows a nominal reading counts once, however long the run is. |
| `Kpi.LowStartNotCounted` | src/health/kpi.py:6-7 | A stream that starts low counts no failure for its first reading: the leading NaN of `diff` is filled with 0. |
| `Kpi.DemandFailuresBounds` | src/health/kpi.py:6-7 | There are never more failures than low readings. Failures plus one for a trailing nominal reading never exceed the nominal readings. |
| `Kpi.OpenWorkOrders` | src/health/kpi.py:8 | The balance is the number of `wo_open` positions minus the number of `wo_close` positions. |
| `Kpi.OpenWorkOrdersSnoc` | src/health/kpi.py:8 | Appending a `wo_open` adds one and a `wo_close` subtracts one. Any other event type, `failure` included, leaves the balance unchanged. |
| `Kpi.UnmatchedClosesGoNegative` | src/health/kpi.py:8 | With no opens and at least one close the balance is negative: it is not clamped. |
| `Kpi.OpenWorkOrdersPermutationInvariant` | src/health/kpi.py:8 | The balance does not depend on the order of the events. |
| `Kpi.ComputeKpis` | src/health/kpi.py:4-13 | Availability is NaN exactly when there are no readings. Otherwise it is the bounded percentage of readings above 4500. The demand failures are the nominal-to-low transitions, bounded by the low and by the nominal counts. The work-order balance is opens minus closes. |
| `Kpi.ReadingKpisIgnoreEvents` | src/health/kpi.py:5-7 | Availability and demand failures are the same whatever the event table holds. |
| `Kpi.KpisIgnoreEventOrder` | src/health/kpi.py:4-13 | Reordering the event rows changes none of the KPIs. |
| `Reliability.FailureTimes` | app.py:72-73 | The failure start times sorted ascending: a permutation (equal multiset) of the start times of the `failure` events, repeated starts included. A time occurs iff some failure event starts at it. |
| `Reliability.WholeMinutes` | app.py:77 | The cast to whole minutes rounds down: 60·m <= seconds < 60·(m+1). |
| `Reliability.Intervals` | app.py:77 | `np.diff` in minutes has one entry fewer than the times. Entry i is the rounded-down minutes between times i and i+1. |
| `Reliability.IntervalsCoverSpan` | app.py:77 | The intervals sum to the first-to-last span in minutes. Truncation loses less than one minute per interval. |
| `Reliability.IntervalsNonNegative` | app.py:73-77 | Because the times are sorted first, no interval is negative. |
| `Reliability.RawIntervals` | app.py:74-77 | Fewer than three failures give exactly `[100, 140, 220, 300]`. Otherwise there is one non-negative whole-minute gap per pair of consecutive sorted failure times. |
| `Reliability.FallbackAlreadySorted` | app.py:75-79 | The fallback list is already ascending, so `np.sort` leaves it unchanged. |
| `Sorting.Sort` | app.py:79 | The result is ascending and has the same multiset of values as the input. |
| `Sorting.SortPermutationInvariant` | app.py:79 | Two inputs with the same values sort to the same sequence. |
| `Reliability.PrepareReliability` | app.py:73-79 | The fallback is taken iff fewer than three failures are recorded, and then the intervals are the four fixed values. Otherwise there are (failures − 1) >= 2 intervals. Either way the intervals are non-negative, ascending, and a permutation of the raw list. |
| `Reliability.SortedIntervalsShape` | app.py:74-79 | Sorting the raw list preserves its shape: the fallback stays unchanged, a measured list keeps one entry per gap, and no entry is negative. |
| `Reliability.PrepareIgnoresEventOrder` | app.py:72-79 | Reordering the event rows does not change the prepared intervals. |
| `Reliability.OnlyFailuresMatter` | app.py:73 | Dropping every non-failure event does not change the prepared intervals. |
| `Reliability.BenardRank` | app.py:80 | F·(n + 0.4) = i − 0.3 and 0 < F < 1, so 1/(1−F) > 1 and `log(log(1/(1−F)))` is defined. |
| `Reliability.BenardRankIncreasing` | app.py:80 | Higher ranks give strictly larger F. |
| `Reliability.BenardRankSymmetric` | app.py:80 | In exact reals, F_i + F_(n+1−i) = 1. |
| `Reliability.MedianRanks` | app.py:80-81 | n values, in exact reals. Each satisfies the Benard formula and lies strictly inside (0, 1) with 1/(1−F) > 1. They are strictly increasing and symmetric about one half. |
| `Reliability.OrderedFailureTimes` | app.py:73 | Three failure events already in start order produce their starts in that order. |
| `Reliability.CloseFailuresRawIntervals` | app.py:77 | Three ascending failures whose first two start less than 60 s apart give two raw intervals, the first of which is 0 minutes. |
| `Reliability.ZeroIntervalReachesLogarithm` | app.py:77-82 | In that situation the fallback is not taken, the smallest sorted interval is 0, and `np.log(x)` is undefined for the list as written. |
| `Reliability.CheckedReliability` | app.py:79-82 | The checked preparation accepts iff every sorted interval is strictly positive, and then returns the same intervals. A rejection reports the smallest interval, which is <= 0 and occurs in the list. Runs with fewer than three failures are always accepted. |

## Left out

- The anomaly detector (an IsolationForest over the four sensor channels) is
  not part of this model. Its results come from a randomised ensemble fit.
- The Weibull fit is left out: `np.log`, `np.linalg.lstsq` and `np.exp`, and
  the resulting β and η. It works on floating point. The model stops at the
  regression inputs: the sorted intervals and their median ranks. Where a
  logarithm would be taken, the model states only when it is defined.
- The Flask routes, chart rendering, CSV reading and the mock-data generator
  are I/O. The model takes the two tables as in-memory sequences.
- Kpi.ComputeKpis: does not model the final `round(…, 2)`. The percentage is
  kept exact, because rounding to two decimals is a floating-point display
  step.
- Kpi.ComputeKpis: flows are exact reals, so NaN flow values are not
  modelled. In the source a NaN flow compares false both with `> 4500` and
  with `< 4300`. It therefore counts as not available while still counting in
  the denominator. Its low flag is 0, so the edge count treats it exactly like
  a nominal reading, and a NaN reading followed by a low one counts as a
  demand failure.
- Timestamps are whole seconds. Sub-second timestamps are not modelled, so
  the minute cast rounds down the whole-second difference.
- The fallback flag: `PreparedIntervals.usedFallback` records which branch of
  the `len(failures) < 3` test was taken. The handler itself discards that
  information.
- Reliability.MedianRanks: the ranks are exact reals, while the source
  computes them in float64. The bounds 0 < F < 1 and the strict increase also
  hold in float64 for any realistic n. The symmetry F_i + F_(n+1−i) = 1 holds
  only in exact arithmetic: in double precision the fallback case n = 4 gives
  F_1 + F_4 = 0.9999999999999999.
- Reliability.BenardRankSymmetric: exact-real arithmetic only, for the same
  reason as the line above.
- The ranks are not stored with the intervals. The regression pairs the
  i-th sorted interval with `MedianRanks(n)[i]`, where n is the number of
  intervals.

## Findings

| source | as written | input that shows it | evidently intended | confidence | as-written member | corrected member |
|---|---|---|---|---|---|---|
| app.py:77-82 | The gaps between failures are rounded down to whole minutes and passed to `np.log` without a check. Two failures less than a minute apart give a 0-minute interval, and `np.log(0)` is −∞, which poisons the least-squares fit. | Three failure events starting at 0 s, 30 s and 7200 s give the sorted intervals `[0, 119]`. | A non-positive interval is refused before any logarithm is taken. | not executed | `Reliability.ZeroIntervalReachesLogarithm` | `Reliability.CheckedReliability` |
