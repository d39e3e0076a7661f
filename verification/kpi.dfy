/** The KPI aggregator: availability, rising-edge demand failures and the
    open-work-order balance, computed from the sensor and event tables. */
module Kpi {
  import opened Seqs
  import opened Tables
  import opened Arith

  /** A reading is available when its flow is strictly above this value. */
  const HighFlow: real := 4500.0
  /** A reading is low when its flow is strictly below this value. */
  const LowFlow: real := 4300.0

  predicate IsLow(r: SensorReading) { r.flow < LowFlow }

  predicate IsNominal(r: SensorReading) { r.flow >= LowFlow }

  // ---------------------------------------------------------------------
  // Availability
  // ---------------------------------------------------------------------

  /** Positions whose flow lies strictly above `threshold`. */
  ghost function AboveIndices(readings: seq<SensorReading>, threshold: real): set<int>
  {
    set i | 0 <= i < |readings| && readings[i].flow > threshold
  }

  /** `100 * count / n` is a percentage, reaching its ends exactly at `0` and `n`. */
  lemma Percentage(count: nat, n: nat)
    requires 0 < n && count <= n
    ensures var pct := 100.0 * (count as real) / (n as real);
      && 0.0 <= pct <= 100.0
      && pct * (n as real) == 100.0 * (count as real)
      && (pct == 100.0 <==> count == n)
      && (pct == 0.0 <==> count == 0)
  {
    var pct := 100.0 * (count as real) / (n as real);
    var c, m := count as real, n as real;
    assert pct * m == 100.0 * c;
    assert c <= m;
    if pct == 100.0 {
      assert 100.0 * m == 100.0 * c;
    }
    if pct == 0.0 {
      assert 100.0 * c == 0.0;
    }
  }

  lemma PercentageMonotone(c1: nat, c2: nat, n: nat)
    requires c1 <= c2 && 0 < n
    ensures 100.0 * (c1 as real) / (n as real) <= 100.0 * (c2 as real) / (n as real)
  {
    var m := n as real;
    var p1, p2 := 100.0 * (c1 as real) / m, 100.0 * (c2 as real) / m;
    assert p1 * m == 100.0 * (c1 as real);
    assert p2 * m == 100.0 * (c2 as real);
    ScaledOrder(p1, p2, m);
  }

  /** Percentage of readings whose flow is strictly above `threshold`: the
      mean of the boolean mask `flow > threshold`, times 100. */
  function AvailabilityAt(readings: seq<SensorReading>, threshold: real): (pct: real)
    requires |readings| > 0
    ensures 0.0 <= pct <= 100.0
    ensures pct == 100.0 * (|AboveIndices(readings, threshold)| as real) / (|readings| as real)
    ensures pct == 100.0 <==> forall i :: 0 <= i < |readings| ==> readings[i].flow > threshold
    ensures pct == 0.0 <==> forall i :: 0 <= i < |readings| ==> readings[i].flow <= threshold
  {
    var above := (r: SensorReading) => r.flow > threshold;
    var selected := Filter(above, readings);
    CountIsIndexCount(above, readings);
    assert IndicesWhere(above, readings) == AboveIndices(readings, threshold);
    FilterKeepsAll(above, readings);
    FilterSelectsNone(above, readings);
    Percentage(|selected|, |readings|);
    100.0 * (|selected| as real) / (|readings| as real)
  }

  /** `100 * (flow > 4500).mean()`: NaN for an empty table, since the mean
      of an empty mask is undefined, and otherwise the exact percentage. */
  function Availability(readings: seq<SensorReading>): (pct: Percent)
    ensures pct.NotANumber? <==> |readings| == 0
    ensures pct.Percent? ==>
      && 0.0 <= pct.value <= 100.0
      && pct.value == 100.0 * (|AboveIndices(readings, HighFlow)| as real) / (|readings| as real)
  {
    if |readings| == 0 then NotANumber else Percent(AvailabilityAt(readings, HighFlow))
  }

  /** Raising the threshold can only lower availability. */
  lemma AvailabilityAntitone(readings: seq<SensorReading>, lower: real, higher: real)
    requires |readings| > 0 && lower <= higher
    ensures AvailabilityAt(readings, higher) <= AvailabilityAt(readings, lower)
  {
    var hi, lo := AboveIndices(readings, higher), AboveIndices(readings, lower);
    assert |hi| <= |lo| by {
      assert hi <= lo;
      assert lo == hi + (lo - hi);
    }
    PercentageMonotone(|hi|, |lo|, |readings|);
  }

  /** The comparison is strict: a reading at exactly 4500 is not available,
      so its presence keeps availability below 100%. */
  lemma BoundaryFlowNotAvailable(readings: seq<SensorReading>, i: int)
    requires 0 <= i < |readings| && readings[i].flow == HighFlow
    ensures i !in AboveIndices(readings, HighFlow)
    ensures AvailabilityAt(readings, HighFlow) < 100.0
  {
  }

  // ---------------------------------------------------------------------
  // Demand failures
  // ---------------------------------------------------------------------

  /** A cell of a numeric pandas column: a number or the missing value. */
  datatype Cell = NaN | Num(value: int)

  /** The 0/1 column `(flow < 4300).astype(int)`. */
  function LowFlags(readings: seq<SensorReading>): (flags: seq<int>)
    ensures |flags| == |readings|
    ensures forall i :: 0 <= i < |readings| ==>
      && (flags[i] == 1 <==> IsLow(readings[i]))
      && (flags[i] == 0 <==> IsNominal(readings[i]))
  {
    seq(|readings|, i requires 0 <= i < |readings| => if IsLow(readings[i]) then 1 else 0)
  }

  /** `Series.diff()`: missing at the first position, otherwise the change
      that takes the previous value to the current one. */
  function Diff(xs: seq<int>): (d: seq<Cell>)
    ensures |d| == |xs|
    ensures |xs| > 0 ==> d[0] == NaN
    ensures forall i {:trigger d[i]} :: 0 < i < |xs| ==> d[i].Num? && xs[i - 1] + d[i].value == xs[i]
  {
    seq(|xs|, i requires 0 <= i < |xs| => if i == 0 then NaN else Num(xs[i] - xs[i - 1]))
  }

  /** `Series.fillna(v)`: numbers are kept, missing cells become `v`. */
  function FillNa(d: seq<Cell>, v: int): (r: seq<int>)
    ensures |r| == |d|
    ensures forall i :: 0 <= i < |d| && d[i].Num? ==> r[i] == d[i].value
    ensures forall i :: 0 <= i < |d| && d[i].NaN? ==> r[i] == v
  {
    seq(|d|, i requires 0 <= i < |d| => match d[i] case NaN => v case Num(x) => x)
  }

  /** `low.diff().fillna(0)`: 0 at the first position, a value in -1..1
      elsewhere, and 1 exactly at the nominal-to-low transitions. */
  function EdgeSignal(readings: seq<SensorReading>): (signal: seq<int>)
    ensures |signal| == |readings|
    ensures |readings| > 0 ==> signal[0] == 0
    ensures forall i :: 0 <= i < |signal| ==> -1 <= signal[i] <= 1
    ensures forall i :: 0 <= i < |signal| ==> (signal[i] == 1 <==> i in RisingEdges(readings))
  {
    FillNa(Diff(LowFlags(readings)), 0)
  }

  predicate IsOne(x: int) { x == 1 }

  /** Positions where the flow has just dropped below the low threshold. */
  ghost function RisingEdges(readings: seq<SensorReading>): set<int>
  {
    set i | 0 < i < |readings| && IsLow(readings[i]) && IsNominal(readings[i - 1])
  }

  /** The number of 1s in `low.diff().fillna(0)`: exactly the positions
      after the first where a nominal reading is followed by a low one. */
  function DemandFailures(readings: seq<SensorReading>): (n: nat)
    ensures n == |RisingEdges(readings)|
  {
    var signal := EdgeSignal(readings);
    CountIsIndexCount(IsOne, signal);
    assert IndicesWhere(IsOne, signal) == RisingEdges(readings);
    |Filter(IsOne, signal)|
  }

  /** Extending the stream by one reading adds one failure exactly when it
      is a nominal-to-low transition. */
  lemma DemandFailuresSnoc(readings: seq<SensorReading>, x: SensorReading)
    ensures DemandFailures(readings + [x]) == DemandFailures(readings)
      + (if |readings| > 0 && IsNominal(readings[|readings| - 1]) && IsLow(x) then 1 else 0)
  {
    var n := |readings|;
    var signal := EdgeSignal(readings + [x]);
    assert signal == EdgeSignal(readings) + [signal[n]];
    FilterSnoc(IsOne, EdgeSignal(readings), signal[n]);
  }

  /** Failures of a concatenation: those of each part, plus one if the
      junction itself is a nominal-to-low transition. */
  lemma {:induction false} DemandFailuresConcat(a: seq<SensorReading>, b: seq<SensorReading>)
    ensures DemandFailures(a + b) == DemandFailures(a) + DemandFailures(b)
      + (if |a| > 0 && |b| > 0 && IsNominal(a[|a| - 1]) && IsLow(b[0]) then 1 else 0)
    decreases |b|
  {
    if |b| == 0 {
      assert a + b == a;
      assert RisingEdges(b) == {};
    } else {
      var init := b[..|b| - 1];
      var x := b[|b| - 1];
      assert b == init + [x];
      assert a + b == (a + init) + [x];
      DemandFailuresConcat(a, init);
      DemandFailuresSnoc(a + init, x);
      DemandFailuresSnoc(init, x);
      if |init| == 0 {
        assert a + init == a;
        assert RisingEdges(init) == {};
      } else {
        LastOfConcat(a, init);
        assert init[0] == b[0];
      }
    }
  }

  /** A stretch of low readings entered from a nominal one counts once,
      however long it lasts. */
  lemma SustainedLowRunCountsOnce(before: seq<SensorReading>, run: seq<SensorReading>)
    requires |before| > 0 && IsNominal(before[|before| - 1])
    requires |run| > 0 && forall i :: 0 <= i < |run| ==> IsLow(run[i])
    ensures DemandFailures(before + run) == DemandFailures(before) + 1
  {
    DemandFailuresConcat(before, run);
    assert RisingEdges(run) == {};
  }

  /** A stream that starts low does not count a failure for its first reading. */
  lemma LowStartNotCounted(x: SensorReading, rest: seq<SensorReading>)
    requires IsLow(x)
    ensures DemandFailures([x] + rest) == DemandFailures(rest)
  {
    DemandFailuresConcat([x], rest);
    assert RisingEdges([x]) == {};
  }

  /** Every counted failure is a low reading, and each has its own nominal
      predecessor, so neither kind of reading is outnumbered by failures. */
  lemma {:induction false} DemandFailuresBounds(readings: seq<SensorReading>)
    ensures DemandFailures(readings) <= |Filter(IsLow, readings)|
    ensures DemandFailures(readings)
      + (if |readings| > 0 && IsNominal(readings[|readings| - 1]) then 1 else 0)
      <= |Filter(IsNominal, readings)|
    decreases |readings|
  {
    if |readings| > 0 {
      var init := readings[..|readings| - 1];
      var x := readings[|readings| - 1];
      assert readings == init + [x];
      DemandFailuresBounds(init);
      DemandFailuresSnoc(init, x);
      FilterSnoc(IsLow, init, x);
      FilterSnoc(IsNominal, init, x);
    }
  }

  // ---------------------------------------------------------------------
  // Open work orders
  // ---------------------------------------------------------------------

  predicate IsWoOpen(e: Event) { e.kind == WoOpenType }

  predicate IsWoClose(e: Event) { e.kind == WoCloseType }

  /** Positions of the events of a given type. */
  ghost function KindIndices(events: seq<Event>, kind: EventType): set<int>
  {
    set i | 0 <= i < |events| && events[i].kind == kind
  }

  /** Opened work orders minus closed ones, over all events; never clamped. */
  function OpenWorkOrders(events: seq<Event>): (balance: int)
    ensures balance == |KindIndices(events, WoOpenType)| - |KindIndices(events, WoCloseType)|
  {
    CountIsIndexCount(IsWoOpen, events);
    CountIsIndexCount(IsWoClose, events);
    assert IndicesWhere(IsWoOpen, events) == KindIndices(events, WoOpenType);
    assert IndicesWhere(IsWoClose, events) == KindIndices(events, WoCloseType);
    |Filter(IsWoOpen, events)| - |Filter(IsWoClose, events)|
  }

  /** Each `wo_open` adds one, each `wo_close` subtracts one, and every other
      event type (`failure` included) leaves the balance alone. */
  lemma OpenWorkOrdersSnoc(events: seq<Event>, e: Event)
    ensures OpenWorkOrders(events + [e]) == OpenWorkOrders(events)
      + (if IsWoOpen(e) then 1 else if IsWoClose(e) then -1 else 0)
  {
    FilterSnoc(IsWoOpen, events, e);
    FilterSnoc(IsWoClose, events, e);
  }

  /** Closes without any open drive the balance below zero. */
  lemma UnmatchedClosesGoNegative(events: seq<Event>)
    requires forall i :: 0 <= i < |events| ==> !IsWoOpen(events[i])
    requires exists i :: 0 <= i < |events| && IsWoClose(events[i])
    ensures OpenWorkOrders(events) < 0
  {
    FilterSelectsNone(IsWoOpen, events);
    FilterMembers(IsWoClose, events);
    var i :| 0 <= i < |events| && IsWoClose(events[i]);
    assert events[i] in Filter(IsWoClose, events);
  }

  /** The balance depends only on which events occur, not on their order. */
  lemma OpenWorkOrdersPermutationInvariant(a: seq<Event>, b: seq<Event>)
    requires multiset(a) == multiset(b)
    ensures OpenWorkOrders(a) == OpenWorkOrders(b)
  {
    FilterPermutation(IsWoOpen, a, b);
    FilterPermutation(IsWoClose, a, b);
  }

  // ---------------------------------------------------------------------
  // The three KPIs together
  // ---------------------------------------------------------------------

  /** The KPI dictionary. With no readings the availability is NaN: the
      mean of an empty mask is undefined and nothing in the computation
      guards against it. */
  function ComputeKpis(readings: seq<SensorReading>, events: seq<Event>): (k: KpiSnapshot)
    ensures k.availabilityPct.NotANumber? <==> |readings| == 0
    ensures k.availabilityPct.Percent? ==>
      && 0.0 <= k.availabilityPct.value <= 100.0
      && k.availabilityPct.value == 100.0 * (|AboveIndices(readings, HighFlow)| as real) / (|readings| as real)
    ensures k.demandFailures == |RisingEdges(readings)|
    ensures k.demandFailures <= |Filter(IsLow, readings)|
    ensures k.demandFailures <= |Filter(IsNominal, readings)|
    ensures k.openWorkOrders == |KindIndices(events, WoOpenType)| - |KindIndices(events, WoCloseType)|
  {
    DemandFailuresBounds(readings);
    KpiSnapshot(Availability(readings), DemandFailures(readings), OpenWorkOrders(events))
  }

  /** Availability and demand failures are computed from the readings alone. */
  lemma ReadingKpisIgnoreEvents(readings: seq<SensorReading>, a: seq<Event>, b: seq<Event>)
    ensures ComputeKpis(readings, a).availabilityPct == ComputeKpis(readings, b).availabilityPct
    ensures ComputeKpis(readings, a).demandFailures == ComputeKpis(readings, b).demandFailures
  {
  }

  /** Reordering the events changes none of the KPIs. */
  lemma KpisIgnoreEventOrder(readings: seq<SensorReading>, a: seq<Event>, b: seq<Event>)
    requires multiset(a) == multiset(b)
    ensures ComputeKpis(readings, a) == ComputeKpis(readings, b)
  {
    OpenWorkOrdersPermutationInvariant(a, b);
  }
}
