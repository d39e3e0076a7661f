/** The discrete front half of the reliability page: failure start times,
    inter-failure intervals in whole minutes, the fixed fallback used when
    too few failures are recorded, and Benard's median ranks, which feed a
    Weibull rank regression on `ln(ln(1/(1-F)))`. */
module Reliability {
  import opened Seqs
  import opened Sorting
  import opened Tables
  import opened Arith

  /** Fewer failures than this and the fallback intervals are used. */
  const MinFailures: nat := 3
  /** Synthetic intervals, in minutes, used when failures are too few. */
  const FallbackIntervals: seq<int> := [100, 140, 220, 300]

  predicate IsFailure(e: Event) { e.kind == FailureType }

  function StartOf(e: Event): (t: int) { e.start }

  // ---------------------------------------------------------------------
  // Failure times and intervals
  // ---------------------------------------------------------------------

  /** The start times of the failure events, in ascending order: a
      permutation of those start times, repeated starts included. */
  function FailureTimes(events: seq<Event>): (times: seq<int>)
    ensures Sorted(times)
    ensures |times| == |Filter(IsFailure, events)|
    ensures multiset(times) == multiset(Map(StartOf, Filter(IsFailure, events)))
    ensures forall t :: t in times <==> exists i :: 0 <= i < |events| && IsFailure(events[i]) && events[i].start == t
  {
    FailureTimesMembers(events);
    Sort(Map(StartOf, Filter(IsFailure, events)))
  }

  lemma FailureTimesMembers(events: seq<Event>)
    ensures forall t :: t in Sort(Map(StartOf, Filter(IsFailure, events))) <==>
      exists i :: 0 <= i < |events| && IsFailure(events[i]) && events[i].start == t
  {
    var failures := Filter(IsFailure, events);
    var starts := Map(StartOf, failures);
    FilterMembers(IsFailure, events);
    forall t ensures t in Sort(starts) <==> t in starts {
      assert t in Sort(starts) <==> t in multiset(starts);
    }
    forall t | t in starts ensures exists i :: 0 <= i < |events| && IsFailure(events[i]) && events[i].start == t {
      MapFilterSource(StartOf, IsFailure, events, t);
    }
    forall t | exists i :: 0 <= i < |events| && IsFailure(events[i]) && events[i].start == t ensures t in starts {
      var i :| 0 <= i < |events| && IsFailure(events[i]) && events[i].start == t;
      MapFilterTarget(StartOf, IsFailure, events, i);
    }
  }

  /** A duration in seconds converted to whole minutes, rounding down as
      numpy's cast to `timedelta64[m]` does. */
  function WholeMinutes(seconds: int): (m: int)
    ensures 60 * m <= seconds < 60 * (m + 1)
  {
    seconds / 60
  }

  /** `np.diff` of the times, each difference in whole minutes: one
      interval fewer than times, each the truncated gap between neighbours. */
  function Intervals(times: seq<int>): (x: seq<int>)
    ensures |x| == if |times| == 0 then 0 else |times| - 1
    ensures forall i :: 0 <= i < |x| ==>
      60 * x[i] <= times[i + 1] - times[i] < 60 * (x[i] + 1)
    decreases |times|
  {
    if |times| < 2 then []
    else
      var n := |times|;
      var init := times[..n - 1];
      assert forall i :: 0 <= i < n - 1 ==> init[i] == times[i];
      Intervals(init) + [WholeMinutes(times[n - 1] - times[n - 2])]
  }

  lemma SumSnoc(s: seq<int>, v: int)
    ensures Sum(s + [v]) == Sum(s) + v
  {
    assert (s + [v])[..|s|] == s;
  }

  /** The intervals account for the whole span from first to last failure,
      losing less than a minute to truncation per interval. */
  lemma {:induction false} IntervalsCoverSpan(times: seq<int>)
    requires |times| >= 2
    ensures 60 * Sum(Intervals(times)) <= times[|times| - 1] - times[0]
    ensures times[|times| - 1] - times[0] < 60 * (Sum(Intervals(times)) + |Intervals(times)|)
    decreases |times|
  {
    var n := |times|;
    var last := WholeMinutes(times[n - 1] - times[n - 2]);
    var init := times[..n - 1];
    SumSnoc(Intervals(init), last);
    if n > 2 {
      IntervalsCoverSpan(init);
      assert init[0] == times[0] && init[n - 2] == times[n - 2];
    }
  }

  /** The interval list before sorting: the fallback when fewer than three
      failures are recorded, otherwise the minutes between consecutive
      failure starts. */
  function RawIntervals(events: seq<Event>): (x: seq<int>)
    ensures forall i :: 0 <= i < |x| ==> x[i] >= 0
    ensures |Filter(IsFailure, events)| < MinFailures ==> x == FallbackIntervals
    ensures |Filter(IsFailure, events)| >= MinFailures ==>
      var times := FailureTimes(events);
      && |x| == |times| - 1
      && forall i :: 0 <= i < |x| ==>
        0 <= x[i] && 60 * x[i] <= times[i + 1] - times[i] < 60 * (x[i] + 1)
  {
    var times := FailureTimes(events);
    if |times| < MinFailures then FallbackIntervals
    else
      IntervalsNonNegative(times);
      Intervals(times)
  }

  /** Ascending times never give a negative gap. */
  lemma IntervalsNonNegative(times: seq<int>)
    requires Sorted(times)
    ensures forall i :: 0 <= i < |Intervals(times)| ==> Intervals(times)[i] >= 0
  {
    var x := Intervals(times);
    forall i | 0 <= i < |x| ensures x[i] >= 0 {
      assert times[i] <= times[i + 1];
    }
  }

  // ---------------------------------------------------------------------
  // Median ranks
  // ---------------------------------------------------------------------

  /** Benard's approximation `(i - 0.3) / (n + 0.4)` of the median rank of
      the i-th smallest of n values (1-based). */
  function BenardRank(i: nat, n: nat): (f: real)
    requires 1 <= i <= n
    ensures f * (n as real + 0.4) == i as real - 0.3
    ensures 0.0 < f < 1.0
    ensures 1.0 / (1.0 - f) > 1.0
  {
    var a, d := i as real - 0.3, n as real + 0.4;
    UnitRatio(a, d);
    InverseAboveOne(1.0 - a / d);
    a / d
  }

  lemma BenardRankIncreasing(i: nat, j: nat, n: nat)
    requires 1 <= i < j <= n
    ensures BenardRank(i, n) < BenardRank(j, n)
  {
    RatioOrder(i as real - 0.3, j as real - 0.3, n as real + 0.4);
  }

  lemma BenardRankSymmetric(i: nat, n: nat)
    requires 1 <= i <= n
    ensures BenardRank(i, n) + BenardRank(n + 1 - i, n) == 1.0
  {
    var d := n as real + 0.4;
    var k: nat := n + 1 - i;
    RatioSum(i as real - 0.3, k as real - 0.3, d);
    assert (i as real - 0.3) + (k as real - 0.3) == d;
    assert d / d == 1.0;
  }

  /** The empirical CDF values `F_1 .. F_n`: all strictly inside (0, 1),
      strictly increasing, and symmetric about one half. */
  function MedianRanks(n: nat): (f: seq<real>)
    ensures |f| == n
    ensures forall i :: 0 <= i < n ==> f[i] * (n as real + 0.4) == (i + 1) as real - 0.3
    ensures forall i :: 0 <= i < n ==> 0.0 < f[i] < 1.0 && 1.0 / (1.0 - f[i]) > 1.0
    ensures StrictlyIncreasing(f)
    ensures forall i :: 0 <= i < n ==> f[i] + f[n - 1 - i] == 1.0
  {
    var f := seq(n, i requires 0 <= i < n => BenardRank(i + 1, n));
    MedianRanksShape(n, f);
    f
  }

  lemma MedianRanksShape(n: nat, f: seq<real>)
    requires |f| == n
    requires forall i :: 0 <= i < n ==> f[i] == BenardRank(i + 1, n)
    ensures StrictlyIncreasing(f)
    ensures forall i :: 0 <= i < n ==> f[i] + f[n - 1 - i] == 1.0
  {
    forall i, j | 0 <= i < j < n ensures f[i] < f[j] {
      BenardRankIncreasing(i + 1, j + 1, n);
    }
    forall i | 0 <= i < n ensures f[i] + f[n - 1 - i] == 1.0 {
      BenardRankSymmetric(i + 1, n);
    }
  }

  // ---------------------------------------------------------------------
  // The prepared regression input
  // ---------------------------------------------------------------------

  /** Sorted intervals (minutes) and whether the fallback branch was taken.
      The regression pairs the i-th interval with `MedianRanks(n)[i]`, where
      n is the number of intervals. */
  datatype PreparedIntervals = PreparedIntervals(intervals: seq<int>, usedFallback: bool)

  lemma SortKeepsNonNegative(x: seq<int>)
    requires forall i :: 0 <= i < |x| ==> x[i] >= 0
    ensures forall i :: 0 <= i < |Sort(x)| ==> Sort(x)[i] >= 0
  {
    var sorted := Sort(x);
    forall i | 0 <= i < |sorted| ensures sorted[i] >= 0 {
      assert sorted[i] in multiset(x);
    }
  }

  /** The interval list the reliability page fits, before taking logarithms. */
  function PrepareReliability(events: seq<Event>): (p: PreparedIntervals)
    ensures p.usedFallback <==> |Filter(IsFailure, events)| < MinFailures
    ensures p.usedFallback ==> p.intervals == FallbackIntervals
    ensures !p.usedFallback ==> |p.intervals| == |Filter(IsFailure, events)| - 1 >= 2
    ensures forall i :: 0 <= i < |p.intervals| ==> p.intervals[i] >= 0
    ensures Sorted(p.intervals) && multiset(p.intervals) == multiset(RawIntervals(events))
  {
    var fallback := |Filter(IsFailure, events)| < MinFailures;
    var sorted := Sort(RawIntervals(events));
    SortedIntervalsShape(events);
    PreparedIntervals(sorted, fallback)
  }

  /** What sorting does to the raw interval list: the fallback is already
      ascending, a measured list keeps one entry per gap, and no entry is
      negative. */
  lemma SortedIntervalsShape(events: seq<Event>)
    ensures |Filter(IsFailure, events)| < MinFailures ==> Sort(RawIntervals(events)) == FallbackIntervals
    ensures |Filter(IsFailure, events)| >= MinFailures ==>
      |Sort(RawIntervals(events))| == |Filter(IsFailure, events)| - 1
    ensures forall i :: 0 <= i < |Sort(RawIntervals(events))| ==> Sort(RawIntervals(events))[i] >= 0
  {
    var raw := RawIntervals(events);
    if |Filter(IsFailure, events)| < MinFailures {
      FallbackAlreadySorted();
    } else {
      assert |raw| == |FailureTimes(events)| - 1;
    }
    SortKeepsNonNegative(raw);
  }

  lemma FallbackAlreadySorted()
    ensures Sort(FallbackIntervals) == FallbackIntervals
  {
    assert Sorted(FallbackIntervals);
    SortKeepsSorted(FallbackIntervals);
  }

  /** Only the failure events and their start times matter: the order of
      the event rows is irrelevant. */
  lemma PrepareIgnoresEventOrder(a: seq<Event>, b: seq<Event>)
    requires multiset(a) == multiset(b)
    ensures PrepareReliability(a) == PrepareReliability(b)
  {
    FilterPermutation(IsFailure, a, b);
    MapPermutation(StartOf, Filter(IsFailure, a), Filter(IsFailure, b));
    SortPermutationInvariant(Map(StartOf, Filter(IsFailure, a)), Map(StartOf, Filter(IsFailure, b)));
  }

  /** Events of any other type can be dropped without changing the result. */
  lemma OnlyFailuresMatter(events: seq<Event>)
    ensures PrepareReliability(Filter(IsFailure, events)) == PrepareReliability(events)
  {
    FilterIdempotent(IsFailure, events);
  }

  // ---------------------------------------------------------------------
  // Logarithm domain
  // ---------------------------------------------------------------------

  /** Every interval is strictly positive, so `ln(x)` is defined for each. */
  predicate LogDefined(x: seq<int>)
  {
    forall i :: 0 <= i < |x| ==> x[i] > 0
  }

  /** Three failure events already in start order keep that order. */
  lemma OrderedFailureTimes(a: Event, b: Event, c: Event)
    requires IsFailure(a) && IsFailure(b) && IsFailure(c)
    requires a.start <= b.start <= c.start
    ensures FailureTimes([a, b, c]) == [a.start, b.start, c.start]
  {
    var events := [a, b, c];
    assert Filter(IsFailure, events) == events by {
      FilterKeepsAll(IsFailure, events);
    }
    var starts := [a.start, b.start, c.start];
    assert Map(StartOf, events) == starts;
    SortKeepsSorted(starts);
  }

  /** With at least three failures the raw list is the measured one. */
  lemma MeasuredRawIntervals(events: seq<Event>)
    requires |Filter(IsFailure, events)| >= MinFailures
    ensures RawIntervals(events) == Intervals(FailureTimes(events))
  {
  }

  /** Three ascending failures, the first two less than a minute apart,
      give two raw intervals of which the first is zero minutes. */
  lemma CloseFailuresRawIntervals(a: Event, b: Event, c: Event)
    requires IsFailure(a) && IsFailure(b) && IsFailure(c)
    requires a.start <= b.start < a.start + 60 && b.start <= c.start
    ensures |RawIntervals([a, b, c])| == 2 && RawIntervals([a, b, c])[0] == 0
  {
    var times := [a.start, b.start, c.start];
    OrderedFailureTimes(a, b, c);
    MeasuredRawIntervals([a, b, c]);
    var x := Intervals(times);
    assert 60 * x[0] <= b.start - a.start < 60 * (x[0] + 1);
  }

  /** Two failures less than a minute apart give a zero interval, which the
      unchecked preparation passes on to the logarithm (for instance
      failures starting at 0 s, 30 s and 7200 s). */
  lemma ZeroIntervalReachesLogarithm(a: Event, b: Event, c: Event)
    requires IsFailure(a) && IsFailure(b) && IsFailure(c)
    requires a.start <= b.start < a.start + 60 && b.start <= c.start
    ensures !PrepareReliability([a, b, c]).usedFallback
    ensures PrepareReliability([a, b, c]).intervals[0] == 0
    ensures !LogDefined(PrepareReliability([a, b, c]).intervals)
  {
    var raw := RawIntervals([a, b, c]);
    var p := PrepareReliability([a, b, c]);
    CloseFailuresRawIntervals(a, b, c);
    assert raw[0] in multiset(raw);
    assert 0 in multiset(p.intervals);
    var k :| 0 <= k < |p.intervals| && p.intervals[k] == 0;
    assert p.intervals[0] <= p.intervals[k];
  }

  datatype ReliabilityError = InvalidInterval(minutes: int)

  datatype Checked = Ready(input: PreparedIntervals) | Rejected(error: ReliabilityError)

  /** The preparation with the positivity check the regression needs: it
      refuses exactly the inputs whose intervals include a non-positive one,
      reporting the smallest. */
  function CheckedReliability(events: seq<Event>): (c: Checked)
    ensures c.Ready? <==> LogDefined(PrepareReliability(events).intervals)
    ensures c.Ready? ==> c.input == PrepareReliability(events)
    ensures c.Rejected? ==>
      && c.error.minutes <= 0
      && c.error.minutes in PrepareReliability(events).intervals
      && forall v :: v in PrepareReliability(events).intervals ==> c.error.minutes <= v
    ensures |Filter(IsFailure, events)| < MinFailures ==> c.Ready?
  {
    var p := PrepareReliability(events);
    if |p.intervals| > 0 && p.intervals[0] <= 0 then Rejected(InvalidInterval(p.intervals[0]))
    else Ready(p)
  }
}
