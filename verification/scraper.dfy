/** Trace-to-leg segmentation, the UTC date-window filter and the date range
    walk of the scraper.

    A trace is a base timestamp plus an ordered list of samples whose first
    element is a time offset in seconds.  The trace is cut into legs wherever
    two consecutive offsets differ by strictly more than the gap threshold. */
module Scraper {
  import opened Wrappers
  import opened Calendar
  import opened Models

  /** Default `gap_threshold` of `parse_flight_legs`: five minutes. */
  const DefaultGapThreshold: int := 300

  /** The altitude slot of a sample: feet, the "ground" sentinel, or absent. */
  datatype RawAltitude = Feet(feet: int) | Ground | NoAltitude

  /** One sample of a trace: time offset, position and optional kinematics. */
  datatype Sample = Sample(
    offset: int,
    latitude: Float,
    longitude: Float,
    altitude: RawAltitude,
    groundSpeed: Option<Float>,
    track: Option<Float>,
    flags: Option<int>,
    verticalRate: Option<int>,
    geoAltitude: Option<int>,
    geoVerticalRate: Option<int>,
    ias: Option<int>,
    rollAngle: Option<Float>)

  /** The fetched payload; either key may be missing. */
  datatype RawTrace = RawTrace(timestamp: Option<int>, trace: Option<seq<Sample>>)

  /** The inclusive index range [first, last] of one leg's samples. */
  datatype Span = Span(first: nat, last: nat)

  /** A flight leg: absolute start and end instants and the leg's telemetry. */
  datatype Leg = Leg(startTime: int, endTime: int, telemetry: seq<TelemetryPoint>)

  /** `trace_data.get('timestamp', 0)` */
  function TraceBase(trace: RawTrace): int {
    trace.timestamp.GetOr(0)
  }

  /** `trace_data.get('trace', [])` */
  function TraceSamples(trace: RawTrace): seq<Sample> {
    trace.trace.GetOr([])
  }

  function Offsets(samples: seq<Sample>): (o: seq<int>)
    ensures |o| == |samples|
    ensures forall i :: 0 <= i < |o| ==> o[i] == samples[i].offset
  {
    seq(|samples|, i requires 0 <= i < |samples| => samples[i].offset)
  }

  /** Sample i opens a new leg: it follows its predecessor by more than the threshold. */
  predicate IsGap(o: seq<int>, threshold: int, i: int) {
    0 < i < |o| && o[i] - o[i - 1] > threshold
  }

  /** The indices at which a gap occurs. */
  ghost function GapIndices(o: seq<int>, threshold: int): set<int> {
    set j | 0 < j < |o| && IsGap(o, threshold, j)
  }

  /** The gap indices at or after i. */
  ghost function GapsFrom(o: seq<int>, threshold: int, i: int): set<int> {
    set j | i <= j < |o| && IsGap(o, threshold, j)
  }

  /** No sample in (a, b] opens a new leg. */
  ghost predicate NoGapWithin(o: seq<int>, threshold: int, a: int, b: int) {
    forall j :: a < j <= b ==> !IsGap(o, threshold, j)
  }

  // ---------------------------------------------------------------------------
  // Segmentation

  /** The spans of the rest of the trace, given that the open leg began at
      index `first` and has absorbed every sample before index `i`.  One call
      is one iteration of the loop in `parse_flight_legs`; reaching the end is
      the final flush of the open leg. */
  function SegmentFrom(o: seq<int>, threshold: int, first: nat, i: nat): seq<Span>
    requires first < i <= |o|
    decreases |o| - i
  {
    if i == |o| then [Span(first, i - 1)]
    else if IsGap(o, threshold, i) then [Span(first, i - 1)] + SegmentFrom(o, threshold, i, i + 1)
    else SegmentFrom(o, threshold, first, i + 1)
  }

  /** The index spans `parse_flight_legs` cuts the offsets into. */
  function Segments(o: seq<int>, threshold: int): (r: seq<Span>)
    ensures forall k :: 0 <= k < |r| ==> r[k].first <= r[k].last < |o|
  {
    if |o| == 0 then []
    else
      SegmentFromSplits(o, threshold, 0, 1);
      SplitFromBounds(o, threshold, 0, SegmentFrom(o, threshold, 0, 1));
      SegmentFrom(o, threshold, 0, 1)
  }

  /** `sp` cuts the indices [first, |o|) by the segmentation rule: its first
      span starts at `first` and has no gap inside, and it either ends at the
      last sample or is followed by a gap and a cut of the rest. */
  ghost predicate SplitFrom(o: seq<int>, threshold: int, first: nat, sp: seq<Span>)
    decreases |sp|
  {
    && |sp| > 0
    && sp[0].first == first
    && first <= sp[0].last < |o|
    && NoGapWithin(o, threshold, first, sp[0].last)
    && (if |sp| == 1 then sp[0].last == |o| - 1
        else IsGap(o, threshold, sp[0].last + 1) && SplitFrom(o, threshold, sp[0].last + 1, sp[1..]))
  }

  /** The segmentation rule, independently of the scan that computes it.  An
      empty trace has no spans. */
  ghost predicate IsSegmentation(o: seq<int>, threshold: int, spans: seq<Span>) {
    if |o| == 0 then spans == [] else SplitFrom(o, threshold, 0, spans)
  }

  /** The same rule stated index by index: the spans cover 0..|o|-1 in order,
      each beginning right after the previous one ends; no span has a gap
      inside it, and every span after the first begins at a gap. */
  ghost predicate Tiled(o: seq<int>, threshold: int, spans: seq<Span>) {
    && |spans| > 0
    && spans[0].first == 0
    && spans[|spans| - 1].last == |o| - 1
    && (forall k :: 0 <= k < |spans| ==> spans[k].first <= spans[k].last < |o|)
    && (forall k :: 0 < k < |spans| ==> spans[k].first == spans[k - 1].last + 1)
    && (forall k :: 0 < k < |spans| ==> IsGap(o, threshold, spans[k].first))
    && (forall k :: 0 <= k < |spans| ==> NoGapWithin(o, threshold, spans[k].first, spans[k].last))
  }

  lemma GapsFromStep(o: seq<int>, threshold: int, i: int)
    requires 0 < i < |o|
    ensures GapsFrom(o, threshold, i) == (if IsGap(o, threshold, i) then {i} else {}) + GapsFrom(o, threshold, i + 1)
    ensures i !in GapsFrom(o, threshold, i + 1)
  {
  }

  lemma {:induction false} SegmentFromSplits(o: seq<int>, threshold: int, first: nat, i: nat)
    requires first < i <= |o|
    requires NoGapWithin(o, threshold, first, i - 1)
    ensures SplitFrom(o, threshold, first, SegmentFrom(o, threshold, first, i))
    decreases |o| - i
  {
    if i < |o| {
      if IsGap(o, threshold, i) {
        var rest := SegmentFrom(o, threshold, i, i + 1);
        var r := [Span(first, i - 1)] + rest;
        assert SegmentFrom(o, threshold, first, i) == r;
        SegmentFromSplits(o, threshold, i, i + 1);
        assert r[1..] == rest;
        assert r[0] == Span(first, i - 1);
      } else {
        assert SegmentFrom(o, threshold, first, i) == SegmentFrom(o, threshold, first, i + 1);
        assert NoGapWithin(o, threshold, first, i) by {
          forall j | first < j <= i
            ensures !IsGap(o, threshold, j)
          {
            if j < i {
              assert !IsGap(o, threshold, j);
            }
          }
        }
        SegmentFromSplits(o, threshold, first, i + 1);
      }
    }
  }

  lemma {:induction false} SegmentFromCount(o: seq<int>, threshold: int, first: nat, i: nat)
    requires first < i <= |o|
    ensures |SegmentFrom(o, threshold, first, i)| == 1 + |GapsFrom(o, threshold, i)|
    decreases |o| - i
  {
    if i == |o| {
      assert GapsFrom(o, threshold, i) == {};
    } else {
      GapsFromStep(o, threshold, i);
      if IsGap(o, threshold, i) {
        SegmentFromCount(o, threshold, i, i + 1);
      } else {
        SegmentFromCount(o, threshold, first, i + 1);
      }
    }
  }

  lemma {:induction false} SplitFromUnique(o: seq<int>, threshold: int, first: nat, i: nat, sp: seq<Span>)
    requires first < i <= |o|
    requires SplitFrom(o, threshold, first, sp)
    requires sp[0].last + 1 >= i
    ensures sp == SegmentFrom(o, threshold, first, i)
    decreases |o| - i
  {
    if i == |o| {
      assert |sp| == 1;
    } else if IsGap(o, threshold, i) {
      assert sp[0].last == i - 1;
      assert |sp| > 1;
      SplitFromUnique(o, threshold, i, i + 1, sp[1..]);
      assert sp == [Span(first, i - 1)] + sp[1..];
    } else {
      assert sp[0].last >= i;
      SplitFromUnique(o, threshold, first, i + 1, sp);
    }
  }

  lemma {:induction false} SplitFromTiles(o: seq<int>, threshold: int, first: nat, sp: seq<Span>)
    requires SplitFrom(o, threshold, first, sp)
    ensures sp[0].first == first && sp[|sp| - 1].last == |o| - 1
    ensures forall k :: 0 <= k < |sp| ==> first <= sp[k].first <= sp[k].last < |o|
    ensures forall k :: 0 < k < |sp| ==> sp[k].first == sp[k - 1].last + 1
    ensures forall k :: 0 < k < |sp| ==> IsGap(o, threshold, sp[k].first)
    ensures forall k :: 0 <= k < |sp| ==> NoGapWithin(o, threshold, sp[k].first, sp[k].last)
    decreases |sp|
  {
    if |sp| > 1 {
      var rest := sp[1..];
      SplitFromTiles(o, threshold, sp[0].last + 1, rest);
      forall k | 0 < k < |sp|
        ensures sp[k] == rest[k - 1]
      {
      }
    }
  }

  lemma {:induction false} SplitFromBounds(o: seq<int>, threshold: int, first: nat, sp: seq<Span>)
    requires SplitFrom(o, threshold, first, sp)
    ensures forall k :: 0 <= k < |sp| ==> first <= sp[k].first <= sp[k].last < |o|
    decreases |sp|
  {
    if |sp| > 1 {
      SplitFromBounds(o, threshold, sp[0].last + 1, sp[1..]);
      assert forall k :: 0 < k < |sp| ==> sp[k] == sp[1..][k - 1];
    }
  }

  /** `Segments` cuts the trace by the segmentation rule... */
  lemma SegmentsIsSegmentation(o: seq<int>, threshold: int)
    ensures IsSegmentation(o, threshold, Segments(o, threshold))
  {
    if |o| > 0 {
      SegmentFromSplits(o, threshold, 0, 1);
    }
  }

  /** ...and no other cut obeys the rule. */
  lemma SegmentationIsUnique(o: seq<int>, threshold: int, spans: seq<Span>)
    requires IsSegmentation(o, threshold, spans)
    ensures spans == Segments(o, threshold)
  {
    if |o| > 0 {
      SplitFromUnique(o, threshold, 0, 1, spans);
    }
  }

  /** Sample index j belongs to span sp. */
  predicate InSpan(j: int, sp: Span) {
    sp.first <= j <= sp.last
  }

  /** Some span holds sample index j. */
  predicate Covered(j: int, spans: seq<Span>) {
    exists k :: 0 <= k < |spans| && InSpan(j, spans[k])
  }

  /** The spans of a non-empty trace tile its sample indices: contiguous, in
      order, every index in some span, with a new span exactly at each gap
      (and so never at a gap equal to the threshold).  `SpansIncrease` shows
      no index is in two spans. */
  lemma SegmentsTileTrace(o: seq<int>, threshold: int)
    requires |o| > 0
    ensures Tiled(o, threshold, Segments(o, threshold))
    ensures forall j :: 0 <= j < |o| ==> Covered(j, Segments(o, threshold))
  {
    var spans := Segments(o, threshold);
    SegmentFromSplits(o, threshold, 0, 1);
    SplitFromTiles(o, threshold, 0, spans);
    forall j | 0 <= j < |o|
      ensures Covered(j, spans)
    {
      CoveringSpan(o, threshold, spans, j, 0);
    }
  }

  lemma {:induction false} CoveringSpan(o: seq<int>, threshold: int, spans: seq<Span>, j: int, k: nat)
    requires Tiled(o, threshold, spans)
    requires k < |spans| && spans[k].first <= j < |o|
    ensures exists k' :: k <= k' < |spans| && InSpan(j, spans[k'])
    decreases |spans| - k
  {
    if j > spans[k].last {
      CoveringSpan(o, threshold, spans, j, k + 1);
    } else {
      assert InSpan(j, spans[k]);
    }
  }

  /** In a tiling, an earlier span ends before a later one begins, so no
      index lies in two spans. */
  lemma {:induction false} SpansIncrease(o: seq<int>, threshold: int, spans: seq<Span>, k: int, k': int)
    requires Tiled(o, threshold, spans)
    requires 0 <= k < k' < |spans|
    ensures spans[k].last < spans[k'].first
    decreases k' - k
  {
    if k + 1 < k' {
      SpansIncrease(o, threshold, spans, k, k' - 1);
    }
  }

  /** A non-empty trace yields one span plus one per gap; a gap equal to the
      threshold is not a gap. */
  lemma SegmentCount(o: seq<int>, threshold: int)
    ensures |Segments(o, threshold)| == if |o| == 0 then 0 else 1 + |GapIndices(o, threshold)|
  {
    if |o| > 0 {
      SegmentFromCount(o, threshold, 0, 1);
      assert GapsFrom(o, threshold, 1) == GapIndices(o, threshold);
    }
  }

  /** One iteration of the scan, as an equation on `SegmentFrom`. */
  lemma SegmentFromStep(o: seq<int>, threshold: int, first: nat, i: nat)
    requires first < i < |o|
    ensures SegmentFrom(o, threshold, first, i) ==
            if o[i] - o[i - 1] > threshold then [Span(first, i - 1)] + SegmentFrom(o, threshold, i, i + 1)
            else SegmentFrom(o, threshold, first, i + 1)
  {
  }

  /** The scan of `parse_flight_legs` over the offsets, with its
      `current_leg` start and end indices. */
  method SegmentSpans(o: seq<int>, threshold: int) returns (spans: seq<Span>)
    ensures spans == Segments(o, threshold)
  {
    if |o| == 0 {
      return [];
    }
    spans := [];
    var first: nat := 0;
    var last: nat := 0;
    var i: nat := 1;
    while i < |o|
      invariant first <= last < i <= |o|
      invariant last == i - 1
      invariant spans + SegmentFrom(o, threshold, first, i) == Segments(o, threshold)
    {
      SegmentFromStep(o, threshold, first, i);
      if o[i] - o[i - 1] > threshold {
        ghost var rest := SegmentFrom(o, threshold, i, i + 1);
        var head := [Span(first, last)];
        assert SegmentFrom(o, threshold, first, i) == head + rest;
        assert (spans + head) + rest == spans + (head + rest);
        spans := spans + head;
        first, last := i, i;
      } else {
        last := i;
      }
      i := i + 1;
    }
    assert SegmentFrom(o, threshold, first, i) == [Span(first, last)];
    if first < |o| {
      spans := spans + [Span(first, last)];
    }
  }

  // ---------------------------------------------------------------------------
  // Legs

  /** One sample as a telemetry point: the "ground" altitude sentinel becomes a
      null altitude with `altitude_ground` set; absent fields become null. */
  function DecodeSample(base: int, s: Sample): (p: TelemetryPoint)
    ensures p.timestamp == base + s.offset
    ensures p.altitudeGround == Some(s.altitude.Ground?)
    ensures p.altitude.Some? <==> s.altitude.Feet?
  {
    TelemetryPoint(
      base + s.offset, s.latitude, s.longitude,
      if s.altitude.Feet? then Some(s.altitude.feet) else None,
      Some(s.altitude.Ground?),
      s.groundSpeed, s.track, s.verticalRate, s.flags,
      s.geoAltitude, s.geoVerticalRate, s.ias, s.rollAngle)
  }

  function DecodeAll(base: int, samples: seq<Sample>): (r: seq<TelemetryPoint>)
    ensures |r| == |samples|
    ensures forall k :: 0 <= k < |r| ==> r[k] == DecodeSample(base, samples[k])
  {
    seq(|samples|, k requires 0 <= k < |samples| => DecodeSample(base, samples[k]))
  }

  /** The leg of one span: instants of its first and last samples, and the
      decoded samples of the span as its telemetry. */
  function LegOf(base: int, samples: seq<Sample>, sp: Span): Leg
    requires sp.first <= sp.last < |samples|
  {
    Leg(base + samples[sp.first].offset, base + samples[sp.last].offset,
        DecodeAll(base, samples[sp.first..sp.last + 1]))
  }

  function LegsOf(base: int, samples: seq<Sample>, spans: seq<Span>): (r: seq<Leg>)
    requires forall k :: 0 <= k < |spans| ==> spans[k].first <= spans[k].last < |samples|
    ensures |r| == |spans|
    ensures forall k :: 0 <= k < |r| ==> r[k] == LegOf(base, samples, spans[k])
  {
    seq(|spans|, k requires 0 <= k < |spans| => LegOf(base, samples, spans[k]))
  }

  /** The legs of a trace, each carrying the telemetry of its own samples. */
  function FlightLegs(trace: RawTrace, threshold: int): seq<Leg> {
    var samples := TraceSamples(trace);
    LegsOf(TraceBase(trace), samples, Segments(Offsets(samples), threshold))
  }

  /** `parse_flight_legs` as written: the same legs, but no telemetry is
      attached to them, so `leg.get('telemetry', [])` is always empty. */
  function FlightLegsAsWritten(trace: RawTrace, threshold: int): (r: seq<Leg>)
    ensures |r| == |FlightLegs(trace, threshold)|
    ensures forall k :: 0 <= k < |r| ==>
              r[k] == FlightLegs(trace, threshold)[k].(telemetry := [])
  {
    var legs := FlightLegs(trace, threshold);
    seq(|legs|, k requires 0 <= k < |legs| => legs[k].(telemetry := []))
  }

  /** The legs are determined by the segmentation rule alone: for the one cut
      that obeys it, leg k starts at base + offset of the span's first sample
      and ends at base + offset of its last; an absent timestamp counts as 0
      and an absent or empty trace yields no legs. */
  lemma FlightLegsFollowSegmentation(trace: RawTrace, threshold: int, spans: seq<Span>)
    requires IsSegmentation(Offsets(TraceSamples(trace)), threshold, spans)
    ensures forall k :: 0 <= k < |spans| ==> spans[k].first <= spans[k].last < |TraceSamples(trace)|
    ensures FlightLegs(trace, threshold) == LegsOf(TraceBase(trace), TraceSamples(trace), spans)
    ensures |TraceSamples(trace)| == 0 <==> FlightLegs(trace, threshold) == []
  {
    SegmentationIsUnique(Offsets(TraceSamples(trace)), threshold, spans);
  }

  /** Number of legs: none for an empty or missing trace, otherwise one plus
      the number of consecutive pairs further apart than the threshold. */
  lemma FlightLegCount(trace: RawTrace, threshold: int)
    ensures |FlightLegs(trace, threshold)| ==
            if |TraceSamples(trace)| == 0 then 0 else 1 + |GapIndices(Offsets(TraceSamples(trace)), threshold)|
  {
    SegmentCount(Offsets(TraceSamples(trace)), threshold);
  }

  /** A single sample makes one leg that starts and ends at that sample. */
  lemma SingleSampleLeg(trace: RawTrace, threshold: int)
    requires |TraceSamples(trace)| == 1
    ensures var t := TraceBase(trace) + TraceSamples(trace)[0].offset;
            FlightLegs(trace, threshold) == [Leg(t, t, [DecodeSample(TraceBase(trace), TraceSamples(trace)[0])])]
  {
    var samples := TraceSamples(trace);
    var o := Offsets(samples);
    assert Segments(o, threshold) == [Span(0, 0)];
    assert samples[0..1] == samples;
    var base := TraceBase(trace);
    assert DecodeAll(base, samples) == [DecodeSample(base, samples[0])];
    assert FlightLegs(trace, threshold) == [LegOf(base, samples, Span(0, 0))];
  }

  predicate NonDecreasing(o: seq<int>) {
    forall i, j :: 0 <= i <= j < |o| ==> o[i] <= o[j]
  }

  /** With time-ordered samples every leg starts no later than it ends. */
  lemma LegsAreOrdered(trace: RawTrace, threshold: int)
    requires NonDecreasing(Offsets(TraceSamples(trace)))
    ensures var legs := FlightLegs(trace, threshold);
            forall k :: 0 <= k < |legs| ==> legs[k].startTime <= legs[k].endTime
  {
    var o := Offsets(TraceSamples(trace));
    var spans := Segments(o, threshold);
    var legs := FlightLegs(trace, threshold);
    forall k | 0 <= k < |legs|
      ensures legs[k].startTime <= legs[k].endTime
    {
      assert o[spans[k].first] <= o[spans[k].last];
    }
  }

  /** With time-ordered samples and a non-negative threshold, each leg starts
      strictly after the previous one ends. */
  lemma LegsAreSeparated(trace: RawTrace, threshold: int)
    requires NonDecreasing(Offsets(TraceSamples(trace)))
    requires threshold >= 0
    ensures var legs := FlightLegs(trace, threshold);
            forall k :: 0 < k < |legs| ==> legs[k - 1].endTime < legs[k].startTime
  {
    var o := Offsets(TraceSamples(trace));
    var spans := Segments(o, threshold);
    var legs := FlightLegs(trace, threshold);
    if |o| > 0 {
      SegmentsTileTrace(o, threshold);
      forall k | 0 < k < |legs|
        ensures legs[k - 1].endTime < legs[k].startTime
      {
        assert IsGap(o, threshold, spans[k].first);
      }
    }
  }

  /** Under the same conditions leg starts strictly increase. */
  lemma LegStartsIncrease(trace: RawTrace, threshold: int)
    requires NonDecreasing(Offsets(TraceSamples(trace)))
    requires threshold >= 0
    ensures var legs := FlightLegs(trace, threshold);
            forall k, k' :: 0 <= k < k' < |legs| ==> legs[k].startTime < legs[k'].startTime
  {
    var o := Offsets(TraceSamples(trace));
    var spans := Segments(o, threshold);
    var legs := FlightLegs(trace, threshold);
    if |o| > 0 {
      SegmentsTileTrace(o, threshold);
      forall k, k' | 0 <= k < k' < |legs|
        ensures legs[k].startTime < legs[k'].startTime
      {
        assert IsGap(o, threshold, spans[k'].first);
        SpansIncrease(o, threshold, spans, k, k');
        assert o[spans[k].first] <= o[spans[k'].first - 1];
      }
    }
  }

  /** All telemetry of a list of legs, leg after leg. */
  function ConcatTelemetry(legs: seq<Leg>): seq<TelemetryPoint> {
    if legs == [] then [] else legs[0].telemetry + ConcatTelemetry(legs[1..])
  }

  lemma DecodeAllAppend(base: int, a: seq<Sample>, b: seq<Sample>)
    ensures DecodeAll(base, a + b) == DecodeAll(base, a) + DecodeAll(base, b)
  {
  }

  lemma LegsOfTail(base: int, samples: seq<Sample>, sp: seq<Span>)
    requires |sp| > 0
    requires forall k :: 0 <= k < |sp| ==> sp[k].first <= sp[k].last < |samples|
    ensures LegsOf(base, samples, sp)[1..] == LegsOf(base, samples, sp[1..])
  {
  }

  lemma SliceAt<T>(s: seq<T>, a: int, b: int)
    requires 0 <= a <= b <= |s|
    ensures s[a..] == s[a..b] + s[b..]
  {
  }

  lemma ConcatTelemetryCons(legs: seq<Leg>)
    requires legs != []
    ensures ConcatTelemetry(legs) == legs[0].telemetry + ConcatTelemetry(legs[1..])
  {
  }

  lemma {:induction false} ConcatFromSplit(base: int, samples: seq<Sample>, threshold: int, first: nat, sp: seq<Span>)
    requires SplitFrom(Offsets(samples), threshold, first, sp)
    ensures forall k :: 0 <= k < |sp| ==> sp[k].first <= sp[k].last < |samples|
    ensures ConcatTelemetry(LegsOf(base, samples, sp)) == DecodeAll(base, samples[first..])
    decreases |sp|
  {
    SplitFromBounds(Offsets(samples), threshold, first, sp);
    var legs := LegsOf(base, samples, sp);
    var next := sp[0].last + 1;
    var head := DecodeAll(base, samples[first..next]);
    assert legs[0].telemetry == head;
    LegsOfTail(base, samples, sp);
    ConcatTelemetryCons(legs);
    if |sp| == 1 {
      assert next == |samples|;
      assert samples[first..] == samples[first..next];
    } else {
      ConcatFromSplit(base, samples, threshold, next, sp[1..]);
      SliceAt(samples, first, next);
      DecodeAllAppend(base, samples[first..next], samples[next..]);
    }
  }

  /** Every sample lands, decoded and in order, in the telemetry of exactly
      the leg whose span holds it, and no leg is empty. */
  lemma LegTelemetryCoversTrace(trace: RawTrace, threshold: int)
    ensures ConcatTelemetry(FlightLegs(trace, threshold)) == DecodeAll(TraceBase(trace), TraceSamples(trace))
    ensures forall k :: 0 <= k < |FlightLegs(trace, threshold)| ==> |FlightLegs(trace, threshold)[k].telemetry| > 0
  {
    var samples := TraceSamples(trace);
    var o := Offsets(samples);
    SegmentsIsSegmentation(o, threshold);
    if |o| > 0 {
      ConcatFromSplit(TraceBase(trace), samples, threshold, 0, Segments(o, threshold));
      assert samples[0..] == samples;
    }
  }

  /** Which `parse_flight_legs` sync and backfill call: the one as written, whose
      legs carry no telemetry, or the corrected one. */
  datatype Parser = AsWritten | Corrected

  /** `parse_flight_legs(trace_data)` with the default gap threshold. */
  function ParseLegs(p: Parser, trace: RawTrace): seq<Leg> {
    match p
    case AsWritten => FlightLegsAsWritten(trace, DefaultGapThreshold)
    case Corrected => FlightLegs(trace, DefaultGapThreshold)
  }

  /** Every leg of `legs` has empty telemetry when `p` is the as-written
      parser, and non-empty telemetry when it is the corrected one. */
  predicate TelemetryAsParsed(legs: seq<Leg>, p: Parser) {
    forall l :: l in legs ==> (l.telemetry == []) == (p == AsWritten)
  }

  lemma ParsedTelemetry(p: Parser, trace: RawTrace)
    ensures TelemetryAsParsed(ParseLegs(p, trace), p)
  {
    if p == Corrected {
      LegTelemetryCoversTrace(trace, DefaultGapThreshold);
    }
  }

  /** `fetch_trace_data(icao, date)`, with the date given by its UTC day
      number: the aircraft's trace for that day, or None when the fetch
      raises. */
  type TraceSource = (string, int) -> Option<RawTrace>

  // ---------------------------------------------------------------------------
  // Date filtering

  /** Keeps the legs whose start, truncated to midnight, lies in [lower, upper]. */
  function KeepStartingBetween(legs: seq<Leg>, lower: int, upper: int): seq<Leg> {
    if legs == [] then []
    else
      var midnight := TruncateToDay(legs[0].startTime);
      (if lower <= midnight <= upper then [legs[0]] else []) + KeepStartingBetween(legs[1..], lower, upper)
  }

  /** `filter_legs_by_date_range`: from midnight of the start date to the last
      instant of the end date (which defaults to the start date).  Instants
      are whole seconds, so 23:59:59 stands for 23:59:59.999999. */
  function FilterLegsByDateRange(legs: seq<Leg>, startDate: Date, endDate: Option<Date>): seq<Leg>
    requires ValidDate(startDate)
    requires endDate.Some? ==> ValidDate(endDate.value)
  {
    var lower := Midnight(DayNumber(startDate));
    var upper := Midnight(DayNumber(endDate.GetOr(startDate))) + SecondsPerDay - 1;
    KeepStartingBetween(legs, lower, upper)
  }

  /** Reference filter on day numbers: the legs whose start falls on a UTC
      day in [firstDay, lastDay], in their original order. */
  function LegsStartingOnDays(legs: seq<Leg>, firstDay: int, lastDay: int): (r: seq<Leg>)
    ensures |r| <= |legs|
    ensures forall l :: l in r <==> l in legs && firstDay <= DayOf(l.startTime) <= lastDay
  {
    if legs == [] then []
    else
      (if firstDay <= DayOf(legs[0].startTime) <= lastDay then [legs[0]] else [])
      + LegsStartingOnDays(legs[1..], firstDay, lastDay)
  }

  /** The filter keeps the legs in their order: filtering a concatenation is
      concatenating the filtered parts. */
  lemma {:induction false} LegsStartingOnDaysAppend(a: seq<Leg>, b: seq<Leg>, firstDay: int, lastDay: int)
    ensures LegsStartingOnDays(a + b, firstDay, lastDay)
            == LegsStartingOnDays(a, firstDay, lastDay) + LegsStartingOnDays(b, firstDay, lastDay)
  {
    if a == [] {
      assert a + b == b;
    } else {
      assert (a + b)[0] == a[0];
      assert (a + b)[1..] == a[1..] + b;
      LegsStartingOnDaysAppend(a[1..], b, firstDay, lastDay);
    }
  }

  lemma MidnightInWindow(t: int, firstDay: int, lastDay: int)
    ensures Midnight(firstDay) <= TruncateToDay(t) <= Midnight(lastDay) + SecondsPerDay - 1
            <==> firstDay <= DayOf(t) <= lastDay
  {
  }

  lemma {:induction false} KeepStartingBetweenIsDayFilter(legs: seq<Leg>, firstDay: int, lastDay: int)
    ensures KeepStartingBetween(legs, Midnight(firstDay), Midnight(lastDay) + SecondsPerDay - 1)
            == LegsStartingOnDays(legs, firstDay, lastDay)
  {
    if legs != [] {
      MidnightInWindow(legs[0].startTime, firstDay, lastDay);
      KeepStartingBetweenIsDayFilter(legs[1..], firstDay, lastDay);
    }
  }

  /** The filter keeps, in order, exactly the legs whose start falls on a UTC
      calendar day from the start date through the end date. */
  lemma FilterKeepsLegsStartingInWindow(legs: seq<Leg>, startDate: Date, endDate: Option<Date>)
    requires ValidDate(startDate)
    requires endDate.Some? ==> ValidDate(endDate.value)
    ensures FilterLegsByDateRange(legs, startDate, endDate)
            == LegsStartingOnDays(legs, DayNumber(startDate), DayNumber(endDate.GetOr(startDate)))
  {
    KeepStartingBetweenIsDayFilter(legs, DayNumber(startDate), DayNumber(endDate.GetOr(startDate)));
  }

  // ---------------------------------------------------------------------------
  // Date ranges

  /** The dates from `current` through `end`, one day at a time; None when
      the walk has to step past 9999-12-31. */
  function DatesFrom(current: Date, end: Date): Option<seq<Date>>
    requires ValidDate(current) && ValidDate(end)
    decreases DayNumber(end) - DayNumber(current)
  {
    if DayNumber(current) > DayNumber(end) then Some([])
    else
      NextDayIsSuccessor(current);
      match NextDay(current)
      case None => None
      case Some(next) =>
        match DatesFrom(next, end)
        case None => None
        case Some(rest) => Some([current] + rest)
  }

  lemma {:induction false} DatesFromWalksDays(current: Date, end: Date)
    requires ValidDate(current) && ValidDate(end)
    ensures DatesFrom(current, end).None? <==> DayNumber(current) <= DayNumber(end) && end == MaxDate
    ensures DatesFrom(current, end).Some? ==>
              var ds := DatesFrom(current, end).value;
              && |ds| == (if DayNumber(end) < DayNumber(current) then 0 else DayNumber(end) - DayNumber(current) + 1)
              && forall k :: 0 <= k < |ds| ==> ValidDate(ds[k]) && DayNumber(ds[k]) == DayNumber(current) + k
    decreases DayNumber(end) - DayNumber(current)
  {
    DayNumberBounds(end);
    DayNumberBounds(current);
    NextDayIsSuccessor(current);
    if DayNumber(current) <= DayNumber(end) {
      if NextDay(current).None? {
        DayNumberInjective(end, MaxDate);
      } else {
        var next := NextDay(current).value;
        DatesFromWalksDays(next, end);
        if end == MaxDate && current != MaxDate {
          if DayNumber(current) == DayNumber(MaxDate) {
            DayNumberInjective(current, MaxDate);
          }
        }
      }
    } else if end == MaxDate {
      assert false;
    }
  }

  /** A non-empty walk begins at `current` and ends at `end`. */
  lemma DatesFromEnds(current: Date, end: Date)
    requires ValidDate(current) && ValidDate(end)
    ensures var r := DatesFrom(current, end);
            r.Some? && |r.value| > 0 ==> r.value[0] == current && r.value[|r.value| - 1] == end
  {
    DatesFromWalksDays(current, end);
    var r := DatesFrom(current, end);
    if r.Some? && |r.value| > 0 {
      DayNumberInjective(r.value[0], current);
      DayNumberInjective(r.value[|r.value| - 1], end);
    }
  }

  /** `get_date_range`: every calendar day from start through end inclusive
      (end defaults to start), consecutive across month and year boundaries;
      empty when end precedes start; None when the walk would overflow past
      9999-12-31. */
  function GetDateRange(startDate: Date, endDate: Option<Date>): (r: Option<seq<Date>>)
    requires ValidDate(startDate)
    requires endDate.Some? ==> ValidDate(endDate.value)
    ensures var e := endDate.GetOr(startDate);
            r.None? <==> DayNumber(startDate) <= DayNumber(e) && e == MaxDate
    ensures var e := endDate.GetOr(startDate);
            r.Some? ==>
              && |r.value| == (if DayNumber(e) < DayNumber(startDate) then 0 else DayNumber(e) - DayNumber(startDate) + 1)
              && (forall k :: 0 <= k < |r.value| ==> ValidDate(r.value[k]) && DayNumber(r.value[k]) == DayNumber(startDate) + k)
              && (|r.value| > 0 ==> r.value[0] == startDate && r.value[|r.value| - 1] == e)
  {
    var e := endDate.GetOr(startDate);
    DatesFromWalksDays(startDate, e);
    DatesFromEnds(startDate, e);
    DatesFrom(startDate, e)
  }
}
