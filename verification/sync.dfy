/** `fetch_flights_for_aircraft` and `sync_flights`: fetch each aircraft's
    legs day by day, drop repeated start times, sort everything by start and
    upsert it flight by flight with its telemetry. */
module Sync {
  import opened Wrappers
  import opened Calendar
  import opened Models
  import opened Scraper
  import opened Database

  /** One flight as fetched: `telemetry` is None when telemetry capture is
      off. */
  datatype FlightData = FlightData(icao: string, startTime: int, endTime: int, telemetry: Option<seq<TelemetryPoint>>)

  datatype SyncReport = SyncReport(store: Store, counts: Counts, telemetryTotal: nat)

  /** An end date the day walk cannot reach, or a failing upsert. */
  datatype SyncError = DateRangeOverflow | StoreError(error: DbError)

  /** The store as committed when the sync stopped. */
  datatype SyncFailure = SyncFailure(committed: Store, error: SyncError)

  // ---------------------------------------------------------------------------
  // fetch_flights_for_aircraft

  /** The legs of one date: exactly the parsed legs that start that day, in
      trace order, or nothing when the fetch fails. */
  function DayLegs(fetch: TraceSource, p: Parser, icao: string, date: Date): (r: seq<Leg>)
    requires ValidDate(date)
    ensures fetch(icao, DayNumber(date)).None? ==> r == []
    ensures fetch(icao, DayNumber(date)).Some? ==>
              r == LegsStartingOnDays(ParseLegs(p, fetch(icao, DayNumber(date)).value), DayNumber(date), DayNumber(date))
    ensures forall l :: l in r <==>
              && fetch(icao, DayNumber(date)).Some?
              && l in ParseLegs(p, fetch(icao, DayNumber(date)).value)
              && DayOf(l.startTime) == DayNumber(date)
  {
    match fetch(icao, DayNumber(date))
    case None => []
    case Some(trace) =>
      FilterKeepsLegsStartingInWindow(ParseLegs(p, trace), date, Some(date));
      FilterLegsByDateRange(ParseLegs(p, trace), date, Some(date))
  }

  predicate ValidDates(dates: seq<Date>) {
    forall k :: 0 <= k < |dates| ==> ValidDate(dates[k])
  }

  /** Every leg found, date after date, before de-duplication. */
  function CandidateLegs(fetch: TraceSource, p: Parser, icao: string, dates: seq<Date>): seq<Leg>
    requires ValidDates(dates)
  {
    if dates == [] then []
    else DayLegs(fetch, p, icao, dates[0]) + CandidateLegs(fetch, p, icao, dates[1..])
  }

  function StartSet(legs: seq<Leg>): set<int> {
    if legs == [] then {} else {legs[0].startTime} + StartSet(legs[1..])
  }

  /** The legs in order, each dropped when its start time was seen already,
      in `seen` or earlier in the list. */
  function DedupByStart(legs: seq<Leg>, seen: set<int>): seq<Leg> {
    if legs == [] then []
    else if legs[0].startTime in seen then DedupByStart(legs[1..], seen)
    else [legs[0]] + DedupByStart(legs[1..], seen + {legs[0].startTime})
  }

  /** `a` is `b` with some elements left out, order kept. */
  predicate Subsequence<T(==)>(a: seq<T>, b: seq<T>)
    decreases |b|
  {
    if b == [] then a == []
    else (a != [] && a[0] == b[0] && Subsequence(a[1..], b[1..])) || Subsequence(a, b[1..])
  }

  /** `l` is the first leg of `legs` with its start time. */
  predicate FirstWithStart(legs: seq<Leg>, l: Leg) {
    exists i :: 0 <= i < |legs| && legs[i] == l && forall j :: 0 <= j < i ==> legs[j].startTime != l.startTime
  }

  lemma FirstWithStartShift(legs: seq<Leg>, l: Leg)
    requires |legs| > 0 && legs[0].startTime != l.startTime
    requires FirstWithStart(legs[1..], l)
    ensures FirstWithStart(legs, l)
  {
    var i :| 0 <= i < |legs[1..]| && legs[1..][i] == l && forall j :: 0 <= j < i ==> legs[1..][j].startTime != l.startTime;
    assert legs[i + 1] == l;
    forall j | 0 <= j < i + 1
      ensures legs[j].startTime != l.startTime
    {
      if j > 0 {
        assert legs[j] == legs[1..][j - 1];
      }
    }
  }

  /** De-duplication keeps, in input order, the first leg of every start time
      not already seen, and nothing else. */
  lemma {:induction false} DedupKeepsFirstOccurrences(legs: seq<Leg>, seen: set<int>)
    ensures var r := DedupByStart(legs, seen);
            && Subsequence(r, legs)
            && (forall l :: l in r ==> l in legs && l.startTime !in seen && FirstWithStart(legs, l))
            && (forall i, j :: 0 <= i < j < |r| ==> r[i].startTime != r[j].startTime)
            && StartSet(r) == StartSet(legs) - seen
    decreases |legs|
  {
    if legs != [] {
      var x := legs[0];
      var tail := legs[1..];
      if x.startTime in seen {
        var r := DedupByStart(tail, seen);
        DedupKeepsFirstOccurrences(tail, seen);
        assert DedupByStart(legs, seen) == r;
        forall l | l in r
          ensures FirstWithStart(legs, l)
        {
          FirstWithStartShift(legs, l);
        }
      } else {
        var seen' := seen + {x.startTime};
        var rest := DedupByStart(tail, seen');
        DedupKeepsFirstOccurrences(tail, seen');
        var r := [x] + rest;
        assert DedupByStart(legs, seen) == r;
        assert r[1..] == rest;
        assert FirstWithStart(legs, x) by {
          assert legs[0] == x;
        }
        forall l | l in rest
          ensures FirstWithStart(legs, l)
        {
          FirstWithStartShift(legs, l);
        }
        forall i, j | 0 <= i < j < |r|
          ensures r[i].startTime != r[j].startTime
        {
          if i == 0 {
            assert r[j] in rest;
          } else {
            assert r[i] == rest[i - 1] && r[j] == rest[j - 1];
          }
        }
      }
    }
  }

  lemma {:induction false} DedupStarts(legs: seq<Leg>, seen: set<int>)
    ensures StartSet(DedupByStart(legs, seen)) == StartSet(legs) - seen
    decreases |legs|
  {
    if legs != [] {
      var x := legs[0];
      if x.startTime in seen {
        DedupStarts(legs[1..], seen);
      } else {
        DedupStarts(legs[1..], seen + {x.startTime});
        assert ([x] + DedupByStart(legs[1..], seen + {x.startTime}))[1..] == DedupByStart(legs[1..], seen + {x.startTime});
      }
    }
  }

  /** De-duplicating a concatenation is de-duplicating each part, the second
      against the start times of the first. */
  lemma {:induction false} DedupAppend(a: seq<Leg>, b: seq<Leg>, seen: set<int>)
    ensures DedupByStart(a + b, seen) == DedupByStart(a, seen) + DedupByStart(b, seen + StartSet(a))
    decreases |a|
  {
    if a == [] {
      assert a + b == b;
      assert seen + StartSet(a) == seen;
    } else {
      assert (a + b)[0] == a[0];
      assert (a + b)[1..] == a[1..] + b;
      if a[0].startTime in seen {
        DedupAppend(a[1..], b, seen);
        assert seen + StartSet(a) == seen + StartSet(a[1..]);
      } else {
        var seen' := seen + {a[0].startTime};
        DedupAppend(a[1..], b, seen');
        assert seen' + StartSet(a[1..]) == seen + StartSet(a);
      }
    }
  }

  /** The flight record of a leg; telemetry only when capture is on
      (`leg.get('telemetry', [])`). */
  function ToFlightData(icao: string, leg: Leg, includeTelemetry: bool): FlightData {
    FlightData(icao, leg.startTime, leg.endTime, if includeTelemetry then Some(leg.telemetry) else None)
  }

  function Project(icao: string, legs: seq<Leg>, includeTelemetry: bool): (r: seq<FlightData>)
    ensures |r| == |legs|
    ensures forall k :: 0 <= k < |r| ==> r[k] == ToFlightData(icao, legs[k], includeTelemetry)
  {
    seq(|legs|, k requires 0 <= k < |legs| => ToFlightData(icao, legs[k], includeTelemetry))
  }

  lemma ProjectAppend(icao: string, a: seq<Leg>, b: seq<Leg>, includeTelemetry: bool)
    ensures Project(icao, a + b, includeTelemetry) == Project(icao, a, includeTelemetry) + Project(icao, b, includeTelemetry)
  {
  }

  /** The loop of `fetch_flights_for_aircraft` from a given date on, with the
      start times seen so far. */
  function FetchFrom(fetch: TraceSource, p: Parser, icao: string, dates: seq<Date>, includeTelemetry: bool,
                     seen: set<int>): seq<FlightData>
    requires ValidDates(dates)
  {
    if dates == [] then []
    else
      var newLegs := DedupByStart(DayLegs(fetch, p, icao, dates[0]), seen);
      Project(icao, newLegs, includeTelemetry)
      + FetchFrom(fetch, p, icao, dates[1..], includeTelemetry, seen + StartSet(newLegs))
  }

  /** `fetch_flights_for_aircraft`. */
  function FetchFlightsForAircraft(fetch: TraceSource, p: Parser, icao: string, dates: seq<Date>,
                                   includeTelemetry: bool): seq<FlightData>
    requires ValidDates(dates)
  {
    FetchFrom(fetch, p, icao, dates, includeTelemetry, {})
  }

  /** The date-by-date loop equals one de-duplication of all the candidates. */
  lemma {:induction false} FetchFromIsDedup(fetch: TraceSource, p: Parser, icao: string, dates: seq<Date>,
                                            includeTelemetry: bool, seen: set<int>)
    requires ValidDates(dates)
    ensures FetchFrom(fetch, p, icao, dates, includeTelemetry, seen)
            == Project(icao, DedupByStart(CandidateLegs(fetch, p, icao, dates), seen), includeTelemetry)
    decreases |dates|
  {
    if dates == [] {
      assert DedupByStart([], seen) == [];
    } else {
      var day := DayLegs(fetch, p, icao, dates[0]);
      var later := CandidateLegs(fetch, p, icao, dates[1..]);
      var newLegs := DedupByStart(day, seen);
      var seen' := seen + StartSet(day);
      DedupStarts(day, seen);
      assert seen + StartSet(newLegs) == seen';
      assert FetchFrom(fetch, p, icao, dates, includeTelemetry, seen)
             == Project(icao, newLegs, includeTelemetry) + FetchFrom(fetch, p, icao, dates[1..], includeTelemetry, seen');
      FetchFromIsDedup(fetch, p, icao, dates[1..], includeTelemetry, seen');
      assert CandidateLegs(fetch, p, icao, dates) == day + later;
      DedupAppend(day, later, seen);
      ProjectAppend(icao, newLegs, DedupByStart(later, seen'), includeTelemetry);
    }
  }

  /** The output of `fetch_flights_for_aircraft`: the first leg of every
      start time among the candidates, in candidate order, no start time
      twice, each starting on one of the requested days. */
  lemma FetchFlightsDistinctStarts(fetch: TraceSource, p: Parser, icao: string, dates: seq<Date>,
                                   includeTelemetry: bool)
    requires ValidDates(dates)
    ensures var candidates := CandidateLegs(fetch, p, icao, dates);
            var kept := DedupByStart(candidates, {});
            && FetchFlightsForAircraft(fetch, p, icao, dates, includeTelemetry) == Project(icao, kept, includeTelemetry)
            && Subsequence(kept, candidates)
            && (forall l :: l in kept ==> FirstWithStart(candidates, l))
            && (forall i, j :: 0 <= i < j < |kept| ==> kept[i].startTime != kept[j].startTime)
            && StartSet(kept) == StartSet(candidates)
  {
    FetchFromIsDedup(fetch, p, icao, dates, includeTelemetry, {});
    DedupKeepsFirstOccurrences(CandidateLegs(fetch, p, icao, dates), {});
  }

  lemma TailOfConcat<T>(a: seq<T>, b: seq<T>)
    requires |a| > 0
    ensures (a + b)[0] == a[0] && (a + b)[1..] == a[1..] + b
  {
  }

  lemma {:induction false} CandidatesSkipFailedDate(fetch: TraceSource, p: Parser, icao: string, before: seq<Date>,
                                                    date: Date, after: seq<Date>)
    requires ValidDates(before) && ValidDate(date) && ValidDates(after)
    requires fetch(icao, DayNumber(date)).None?
    ensures ValidDates(before + ([date] + after)) && ValidDates(before + after)
    ensures CandidateLegs(fetch, p, icao, before + ([date] + after)) == CandidateLegs(fetch, p, icao, before + after)
    decreases |before|
  {
    if before == [] {
      assert before + ([date] + after) == [date] + after;
      assert ([date] + after)[1..] == after;
      assert before + after == after;
    } else {
      TailOfConcat(before, [date] + after);
      TailOfConcat(before, after);
      CandidatesSkipFailedDate(fetch, p, icao, before[1..], date, after);
    }
  }

  /** A date whose fetch fails adds nothing and does not stop the later
      dates: the result is as if the date had not been asked for. */
  lemma FailedDateContributesNothing(fetch: TraceSource, p: Parser, icao: string, before: seq<Date>, date: Date,
                                     after: seq<Date>, includeTelemetry: bool)
    requires ValidDates(before) && ValidDate(date) && ValidDates(after)
    requires fetch(icao, DayNumber(date)).None?
    ensures ValidDates(before + ([date] + after)) && ValidDates(before + after)
    ensures FetchFlightsForAircraft(fetch, p, icao, before + ([date] + after), includeTelemetry)
            == FetchFlightsForAircraft(fetch, p, icao, before + after, includeTelemetry)
  {
    CandidatesSkipFailedDate(fetch, p, icao, before, date, after);
    FetchFromIsDedup(fetch, p, icao, before + ([date] + after), includeTelemetry, {});
    FetchFromIsDedup(fetch, p, icao, before + after, includeTelemetry, {});
  }

  // ---------------------------------------------------------------------------
  // Sorting by start time

  predicate SortedByStart(fs: seq<FlightData>) {
    forall i, j :: 0 <= i < j < |fs| ==> fs[i].startTime <= fs[j].startTime
  }

  /** Inserts `x` after every flight starting no later than it. */
  function InsertByStart(x: FlightData, sorted: seq<FlightData>): seq<FlightData> {
    if sorted == [] then [x]
    else if x.startTime < sorted[0].startTime then [x] + sorted
    else [sorted[0]] + InsertByStart(x, sorted[1..])
  }

  /** `all_flights.sort(key=lambda f: f['start_time'])`, as an insertion sort. */
  function SortByStart(fs: seq<FlightData>): seq<FlightData> {
    if fs == [] then []
    else InsertByStart(fs[|fs| - 1], SortByStart(fs[..|fs| - 1]))
  }

  lemma {:induction false} InsertByStartPermutes(x: FlightData, sorted: seq<FlightData>)
    ensures multiset(InsertByStart(x, sorted)) == multiset(sorted) + multiset{x}
    ensures |InsertByStart(x, sorted)| == |sorted| + 1
  {
    if sorted != [] && x.startTime >= sorted[0].startTime {
      InsertByStartPermutes(x, sorted[1..]);
      assert sorted == [sorted[0]] + sorted[1..];
    }
  }

  /** A bound below x and below every flight of a list stays below every
      flight once x is inserted. */
  lemma {:induction false} InsertByStartBounded(x: FlightData, sorted: seq<FlightData>, b: int)
    requires b <= x.startTime
    requires forall k :: 0 <= k < |sorted| ==> b <= sorted[k].startTime
    ensures forall k :: 0 <= k < |InsertByStart(x, sorted)| ==> b <= InsertByStart(x, sorted)[k].startTime
  {
    if sorted != [] && x.startTime >= sorted[0].startTime {
      var tail := sorted[1..];
      assert forall k :: 0 <= k < |tail| ==> tail[k] == sorted[k + 1];
      InsertByStartBounded(x, tail, b);
      assert InsertByStart(x, sorted) == [sorted[0]] + InsertByStart(x, tail);
    }
  }

  /** A flight starting no later than every flight of a sorted list can head
      it. */
  lemma ConsSorted(h: FlightData, rest: seq<FlightData>)
    requires SortedByStart(rest)
    requires forall k :: 0 <= k < |rest| ==> h.startTime <= rest[k].startTime
    ensures SortedByStart([h] + rest)
  {
    var r := [h] + rest;
    forall i, j | 0 <= i < j < |r|
      ensures r[i].startTime <= r[j].startTime
    {
      assert r[j] == rest[j - 1];
      if i > 0 {
        assert r[i] == rest[i - 1];
      }
    }
  }

  lemma {:induction false} InsertByStartSorts(x: FlightData, sorted: seq<FlightData>)
    requires SortedByStart(sorted)
    ensures SortedByStart(InsertByStart(x, sorted))
  {
    if sorted == [] {
    } else if x.startTime < sorted[0].startTime {
      ConsSorted(x, sorted);
    } else {
      var tail := sorted[1..];
      assert forall k :: 0 <= k < |tail| ==> tail[k] == sorted[k + 1];
      InsertByStartSorts(x, tail);
      InsertByStartBounded(x, tail, sorted[0].startTime);
      ConsSorted(sorted[0], InsertByStart(x, tail));
    }
  }

  lemma {:induction false} SortByStartOrders(fs: seq<FlightData>)
    ensures SortedByStart(SortByStart(fs))
  {
    if fs != [] {
      SortByStartOrders(fs[..|fs| - 1]);
      InsertByStartSorts(fs[|fs| - 1], SortByStart(fs[..|fs| - 1]));
    }
  }

  lemma {:induction false} SortByStartPermutes(fs: seq<FlightData>)
    ensures multiset(SortByStart(fs)) == multiset(fs)
  {
    if fs != [] {
      var init := fs[..|fs| - 1];
      var last := fs[|fs| - 1];
      SortByStartPermutes(init);
      InsertByStartPermutes(last, SortByStart(init));
      MultisetOfInitLast(fs);
    }
  }

  lemma MultisetOfInitLast<T>(xs: seq<T>)
    requires xs != []
    ensures multiset(xs) == multiset(xs[..|xs| - 1]) + multiset{xs[|xs| - 1]}
  {
    assert xs == xs[..|xs| - 1] + [xs[|xs| - 1]];
  }

  lemma {:induction false} SortByStartLength(fs: seq<FlightData>)
    ensures |SortByStart(fs)| == |fs|
  {
    if fs != [] {
      SortByStartLength(fs[..|fs| - 1]);
      InsertByStartPermutes(fs[|fs| - 1], SortByStart(fs[..|fs| - 1]));
    }
  }

  /** The sorted list is ordered by start time and is a permutation of the
      input. */
  lemma SortByStartSorts(fs: seq<FlightData>)
    ensures SortedByStart(SortByStart(fs))
    ensures multiset(SortByStart(fs)) == multiset(fs)
    ensures |SortByStart(fs)| == |fs|
  {
    SortByStartOrders(fs);
    SortByStartPermutes(fs);
    SortByStartLength(fs);
  }

  // ---------------------------------------------------------------------------
  // The upsert loop of sync_flights

  /** The telemetry handed to the upsert: none when capture is off. */
  function TelemetryOf(f: FlightData, includeTelemetry: bool): Option<seq<TelemetryPoint>> {
    if includeTelemetry then f.telemetry else None
  }

  /** The flights upserted one after another, counting actions and stored
      telemetry points, stopping at the first failing upsert. */
  function ProcessFlights(s: Store, flights: seq<FlightData>, includeTelemetry: bool): (r: Result<SyncReport, SyncFailure>)
    ensures match r
            case Success(report) => Total(report.counts) == |flights|
            case Failure(stopped) => stopped.error == StoreError(IcaoTooLong)
    decreases |flights|
  {
    if flights == [] then Success(SyncReport(s, Counts(0, 0, 0), 0))
    else
      var f := flights[0];
      match UpsertFlightWithTelemetry(s, f.icao, f.startTime, f.endTime, TelemetryOf(f, includeTelemetry))
      case Failure(e) => Failure(SyncFailure(s, StoreError(e)))
      case Success(u) =>
        match ProcessFlights(u.store, flights[1..], includeTelemetry)
        case Failure(stopped) => Failure(stopped)
        case Success(rest) =>
          Success(SyncReport(rest.store, Tally(rest.counts, u.action), rest.telemetryTotal + u.telemetryCount))
  }

  /** The flight records of the flights, dropping their telemetry. */
  function Records(flights: seq<FlightData>): (r: seq<FlightRecord>)
    ensures |r| == |flights|
    ensures forall k :: 0 <= k < |r| ==> r[k] == FlightRecord(flights[k].icao, flights[k].startTime, flights[k].endTime)
  {
    seq(|flights|, k requires 0 <= k < |flights| => FlightRecord(flights[k].icao, flights[k].startTime, flights[k].endTime))
  }

  /** With telemetry capture off, the loop is `upsert_flights` on the same
      records: same outcome, same store, same counts, no points stored. */
  lemma {:induction false} ProcessWithoutTelemetryIsBatchUpsert(s: Store, flights: seq<FlightData>)
    ensures var r := ProcessFlights(s, flights, false);
            var b := UpsertFlights(s, Records(flights));
            && (r.Success? <==> b.Success?)
            && (r.Success? ==> r.value.store == b.value.store && r.value.counts == b.value.counts
                               && r.value.telemetryTotal == 0)
            && (r.Failure? ==> r.error.committed == b.error.committed)
    decreases |flights|
  {
    if flights != [] {
      var f := flights[0];
      var rec := Records(flights);
      assert rec[0] == FlightRecord(f.icao, f.startTime, f.endTime);
      var u := UpsertFlight(s, f.icao, f.startTime, f.endTime);
      if u.Success? {
        var t := u.value.store;
        assert Records(flights[1..]) == rec[1..];
        ProcessWithoutTelemetryIsBatchUpsert(t, flights[1..]);
        var tail := ProcessFlights(t, flights[1..], false);
        var w := UpsertFlightWithTelemetry(s, f.icao, f.startTime, f.endTime, None).value;
        assert w.store == t && w.action == u.value.action && w.telemetryCount == 0;
        assert ProcessFlights(s, flights, false).Success? <==> tail.Success?;
      }
    }
  }

  /** No flight carries a telemetry point to store. */
  predicate CarriesNoPoints(flights: seq<FlightData>, includeTelemetry: bool) {
    forall f :: f in flights ==> TelemetryOf(f, includeTelemetry).None? || TelemetryOf(f, includeTelemetry).value == []
  }

  /** When no flight carries points the telemetry table is never touched and
      the reported telemetry total is 0. */
  lemma {:induction false} ProcessWithoutPointsKeepsTelemetry(s: Store, flights: seq<FlightData>, includeTelemetry: bool)
    requires CarriesNoPoints(flights, includeTelemetry)
    ensures var r := ProcessFlights(s, flights, includeTelemetry);
            r.Success? ==> r.value.store.telemetry == s.telemetry && r.value.telemetryTotal == 0
    decreases |flights|
  {
    if flights != [] {
      var f := flights[0];
      var w := UpsertFlightWithTelemetry(s, f.icao, f.startTime, f.endTime, TelemetryOf(f, includeTelemetry));
      if w.Success? {
        assert f in flights;
        assert w.value.store == UpsertFlight(s, f.icao, f.startTime, f.endTime).value.store;
        assert forall g :: g in flights[1..] ==> g in flights;
        ProcessWithoutPointsKeepsTelemetry(w.value.store, flights[1..], includeTelemetry);
      }
    }
  }

  /** The loop keeps the store well formed, also when it stops part way. */
  lemma {:induction false} ProcessFlightsPreservesWellFormed(s: Store, flights: seq<FlightData>, includeTelemetry: bool)
    requires WellFormed(s)
    ensures match ProcessFlights(s, flights, includeTelemetry)
            case Success(report) => WellFormed(report.store)
            case Failure(stopped) => WellFormed(stopped.committed)
    decreases |flights|
  {
    if flights != [] {
      var f := flights[0];
      var tel := TelemetryOf(f, includeTelemetry);
      var w := UpsertFlightWithTelemetry(s, f.icao, f.startTime, f.endTime, tel);
      if w.Success? {
        UpsertFlightWithTelemetryPreservesWellFormed(s, f.icao, f.startTime, f.endTime, tel);
        ProcessFlightsPreservesWellFormed(w.value.store, flights[1..], includeTelemetry);
        var tail := ProcessFlights(w.value.store, flights[1..], includeTelemetry);
        assert ProcessFlights(s, flights, includeTelemetry).Failure? <==> tail.Failure?;
      }
    }
  }

  // ---------------------------------------------------------------------------
  // sync_flights

  /** Every aircraft's fetched flights, aircraft after aircraft. */
  function AllFlights(fetch: TraceSource, p: Parser, aircraft: seq<string>, dates: seq<Date>,
                      includeTelemetry: bool): seq<FlightData>
    requires ValidDates(dates)
  {
    if aircraft == [] then []
    else FetchFlightsForAircraft(fetch, p, aircraft[0], dates, includeTelemetry)
         + AllFlights(fetch, p, aircraft[1..], dates, includeTelemetry)
  }

  /** `sync_flights`: the date range, every aircraft's flights, nothing to do
      when there are none, else the upsert loop over the flights in start
      order. */
  function SyncFlights(s: Store, fetch: TraceSource, p: Parser, aircraft: seq<string>, startDate: Date,
                       endDate: Option<Date>, includeTelemetry: bool): (r: Result<SyncReport, SyncFailure>)
    requires ValidDate(startDate)
    requires endDate.Some? ==> ValidDate(endDate.value)
    ensures var dates := GetDateRange(startDate, endDate);
            match r
            case Failure(stopped) =>
              (stopped.error == DateRangeOverflow <==> dates.None?)
              && (dates.None? ==> stopped.committed == s)
            case Success(report) =>
              && dates.Some?
              && Total(report.counts) == |AllFlights(fetch, p, aircraft, dates.value, includeTelemetry)|
              && (AllFlights(fetch, p, aircraft, dates.value, includeTelemetry) == [] ==> report.store == s)
  {
    match GetDateRange(startDate, endDate)
    case None => Failure(SyncFailure(s, DateRangeOverflow))
    case Some(dates) =>
      var all := AllFlights(fetch, p, aircraft, dates, includeTelemetry);
      if all == [] then Success(SyncReport(s, Counts(0, 0, 0), 0))
      else
        SortByStartSorts(all);
        ProcessFlights(s, SortByStart(all), includeTelemetry)
  }

  /** The flights are upserted in non-decreasing start order, each fetched
      flight exactly once. */
  lemma SyncUpsertsInStartOrder(s: Store, fetch: TraceSource, p: Parser, aircraft: seq<string>, startDate: Date,
                                endDate: Option<Date>, includeTelemetry: bool)
    requires ValidDate(startDate)
    requires endDate.Some? ==> ValidDate(endDate.value)
    requires GetDateRange(startDate, endDate).Some?
    ensures var all := AllFlights(fetch, p, aircraft, GetDateRange(startDate, endDate).value, includeTelemetry);
            var order := SortByStart(all);
            && SortedByStart(order)
            && multiset(order) == multiset(all)
            && (all != [] ==> SyncFlights(s, fetch, p, aircraft, startDate, endDate, includeTelemetry)
                              == ProcessFlights(s, order, includeTelemetry))
  {
    SortByStartSorts(AllFlights(fetch, p, aircraft, GetDateRange(startDate, endDate).value, includeTelemetry));
  }

  /** A sync leaves the store well formed, whether it completes or stops. */
  lemma SyncPreservesWellFormed(s: Store, fetch: TraceSource, p: Parser, aircraft: seq<string>, startDate: Date,
                                endDate: Option<Date>, includeTelemetry: bool)
    requires ValidDate(startDate)
    requires endDate.Some? ==> ValidDate(endDate.value)
    requires WellFormed(s)
    ensures match SyncFlights(s, fetch, p, aircraft, startDate, endDate, includeTelemetry)
            case Success(report) => WellFormed(report.store)
            case Failure(stopped) => WellFormed(stopped.committed)
  {
    match GetDateRange(startDate, endDate)
    case None =>
    case Some(dates) =>
      var all := AllFlights(fetch, p, aircraft, dates, includeTelemetry);
      if all != [] {
        ProcessFlightsPreservesWellFormed(s, SortByStart(all), includeTelemetry);
      }
  }

  // ---------------------------------------------------------------------------
  // Which telemetry reaches the store

  /** Every fetched flight carries exactly the telemetry the parser gave its
      leg: empty with the as-written parser, non-empty with the corrected
      one, none at all when capture is off. */
  predicate FlightsAsParsed(flights: seq<FlightData>, p: Parser, includeTelemetry: bool) {
    forall f :: f in flights ==>
      if includeTelemetry then f.telemetry.Some? && (f.telemetry.value == []) == (p == AsWritten)
      else f.telemetry.None?
  }

  lemma {:induction false} CandidatesAsParsed(fetch: TraceSource, p: Parser, icao: string, dates: seq<Date>)
    requires ValidDates(dates)
    ensures TelemetryAsParsed(CandidateLegs(fetch, p, icao, dates), p)
  {
    if dates != [] {
      CandidatesAsParsed(fetch, p, icao, dates[1..]);
      var day := DayLegs(fetch, p, icao, dates[0]);
      if fetch(icao, DayNumber(dates[0])).Some? {
        ParsedTelemetry(p, fetch(icao, DayNumber(dates[0])).value);
      }
      assert TelemetryAsParsed(day, p);
    }
  }

  lemma {:induction false} AllFlightsAsParsed(fetch: TraceSource, p: Parser, aircraft: seq<string>, dates: seq<Date>,
                                              includeTelemetry: bool)
    requires ValidDates(dates)
    ensures FlightsAsParsed(AllFlights(fetch, p, aircraft, dates, includeTelemetry), p, includeTelemetry)
  {
    if aircraft != [] {
      var icao := aircraft[0];
      var candidates := CandidateLegs(fetch, p, icao, dates);
      CandidatesAsParsed(fetch, p, icao, dates);
      FetchFlightsDistinctStarts(fetch, p, icao, dates, includeTelemetry);
      DedupKeepsFirstOccurrences(candidates, {});
      var kept := DedupByStart(candidates, {});
      var mine := Project(icao, kept, includeTelemetry);
      forall f | f in mine
        ensures if includeTelemetry then f.telemetry.Some? && (f.telemetry.value == []) == (p == AsWritten)
                else f.telemetry.None?
      {
        var k :| 0 <= k < |mine| && mine[k] == f;
        assert kept[k] in kept;
      }
      AllFlightsAsParsed(fetch, p, aircraft[1..], dates, includeTelemetry);
    }
  }

  /** The as-written parser attaches no telemetry to its legs, so a sync
      stores no telemetry point and reports a total of 0, whether capture is
      on or off. */
  lemma SyncAsWrittenStoresNoTelemetry(s: Store, fetch: TraceSource, aircraft: seq<string>, startDate: Date,
                                       endDate: Option<Date>, includeTelemetry: bool)
    requires ValidDate(startDate)
    requires endDate.Some? ==> ValidDate(endDate.value)
    ensures var r := SyncFlights(s, fetch, AsWritten, aircraft, startDate, endDate, includeTelemetry);
            r.Success? ==> r.value.store.telemetry == s.telemetry && r.value.telemetryTotal == 0
  {
    match GetDateRange(startDate, endDate)
    case None =>
    case Some(dates) =>
      var all := AllFlights(fetch, AsWritten, aircraft, dates, includeTelemetry);
      if all != [] {
        AllFlightsAsParsed(fetch, AsWritten, aircraft, dates, includeTelemetry);
        SortByStartSorts(all);
        var order := SortByStart(all);
        forall f | f in order
          ensures TelemetryOf(f, includeTelemetry).None? || TelemetryOf(f, includeTelemetry).value == []
        {
          assert f in multiset(all);
        }
        ProcessWithoutPointsKeepsTelemetry(s, order, includeTelemetry);
      }
  }

  /** With the corrected parser and capture on, every flight handed to the
      upsert loop carries a non-empty telemetry list. */
  lemma SyncCorrectedCarriesTelemetry(fetch: TraceSource, aircraft: seq<string>, dates: seq<Date>)
    requires ValidDates(dates)
    ensures forall f :: f in SortByStart(AllFlights(fetch, Corrected, aircraft, dates, true)) ==>
              f.telemetry.Some? && f.telemetry.value != []
  {
    var all := AllFlights(fetch, Corrected, aircraft, dates, true);
    AllFlightsAsParsed(fetch, Corrected, aircraft, dates, true);
    SortByStartSorts(all);
    forall f | f in SortByStart(all)
      ensures f.telemetry.Some? && f.telemetry.value != []
    {
      assert f in multiset(all);
    }
  }
}
