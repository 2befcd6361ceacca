/** `backfill_telemetry`: group the flights that have no telemetry by
    aircraft and UTC day of their start, fetch and parse one trace per group,
    and give each flight the telemetry of the leg whose start is nearest to
    its own, when that leg starts within the tolerance. */
module Backfill {
  import opened Wrappers
  import opened Calendar
  import opened Models
  import opened Scraper
  import opened Database

  /** `tolerance_seconds` */
  const MatchTolerance: int := 60

  /** The (icao, date) key of a group. */
  datatype GroupKey = GroupKey(icao: string, day: int)

  /** One group: its key and its flights in the order they were listed. */
  datatype Group = Group(key: GroupKey, flights: seq<Flight>)

  datatype BackfillReport = BackfillReport(store: Store, matched: nat, telemetryTotal: nat)

  /** The store as committed when an insert failed. */
  datatype BackfillFailure = BackfillFailure(committed: Store, error: DbError)

  // ---------------------------------------------------------------------------
  // Grouping

  /** `(flight.icao, flight.start_time.strftime('%Y-%m-%d'))` */
  function KeyOf(f: Flight): GroupKey {
    GroupKey(f.icao, DayOf(f.startTime))
  }

  predicate HasGroup(groups: seq<Group>, key: GroupKey) {
    exists i :: 0 <= i < |groups| && groups[i].key == key
  }

  predicate DistinctKeys(groups: seq<Group>) {
    forall i, j :: 0 <= i < j < |groups| ==> groups[i].key != groups[j].key
  }

  /** `groups.setdefault(key, []).append(flight)`: the flight joins the group
      of its key, or starts a new group at the end. */
  function AddToGroups(groups: seq<Group>, f: Flight): seq<Group> {
    if groups == [] then [Group(KeyOf(f), [f])]
    else if groups[0].key == KeyOf(f) then [groups[0].(flights := groups[0].flights + [f])] + groups[1..]
    else [groups[0]] + AddToGroups(groups[1..], f)
  }

  /** The grouping loop over the pending flights. */
  function GroupFlights(pending: seq<Flight>): seq<Group> {
    if pending == [] then []
    else AddToGroups(GroupFlights(pending[..|pending| - 1]), pending[|pending| - 1])
  }

  /** The flights of a given key, in order. */
  function FlightsWithKey(flights: seq<Flight>, key: GroupKey): (r: seq<Flight>)
    ensures forall f :: f in r ==> f in flights && KeyOf(f) == key
    ensures forall f :: f in flights && KeyOf(f) == key ==> f in r
  {
    if flights == [] then []
    else (if KeyOf(flights[0]) == key then [flights[0]] else []) + FlightsWithKey(flights[1..], key)
  }

  lemma {:induction false} FlightsWithKeyAppend(flights: seq<Flight>, f: Flight, key: GroupKey)
    ensures FlightsWithKey(flights + [f], key)
            == FlightsWithKey(flights, key) + (if KeyOf(f) == key then [f] else [])
  {
    if flights == [] {
      assert flights + [f] == [f];
    } else {
      assert (flights + [f])[1..] == flights[1..] + [f];
      FlightsWithKeyAppend(flights[1..], f, key);
    }
  }

  lemma {:induction false} AddToGroupsEffect(groups: seq<Group>, f: Flight)
    requires DistinctKeys(groups)
    ensures var r := AddToGroups(groups, f);
            && |r| == |groups| + (if HasGroup(groups, KeyOf(f)) then 0 else 1)
            && (forall i :: 0 <= i < |groups| ==>
                  r[i].key == groups[i].key &&
                  r[i].flights == groups[i].flights + (if groups[i].key == KeyOf(f) then [f] else []))
            && (!HasGroup(groups, KeyOf(f)) ==> r[|groups|] == Group(KeyOf(f), [f]))
  {
    if groups != [] {
      var tail := groups[1..];
      if groups[0].key == KeyOf(f) {
        forall i | 1 <= i < |groups|
          ensures groups[i].key != KeyOf(f)
        {
        }
      } else {
        AddToGroupsEffect(tail, f);
        var r := AddToGroups(groups, f);
        assert r == [groups[0]] + AddToGroups(tail, f);
        assert HasGroup(groups, KeyOf(f)) <==> HasGroup(tail, KeyOf(f)) by {
          if HasGroup(groups, KeyOf(f)) {
            var i :| 0 <= i < |groups| && groups[i].key == KeyOf(f);
            assert tail[i - 1].key == KeyOf(f);
          }
          if HasGroup(tail, KeyOf(f)) {
            var i :| 0 <= i < |tail| && tail[i].key == KeyOf(f);
            assert groups[i + 1].key == KeyOf(f);
          }
        }
        forall i | 1 <= i < |groups|
          ensures r[i].key == groups[i].key &&
                  r[i].flights == groups[i].flights + (if groups[i].key == KeyOf(f) then [f] else [])
        {
          assert r[i] == AddToGroups(tail, f)[i - 1] && groups[i] == tail[i - 1];
        }
      }
    }
  }

  lemma {:induction false} GroupFlightsDistinctKeys(pending: seq<Flight>)
    ensures DistinctKeys(GroupFlights(pending))
  {
    if pending != [] {
      var init := pending[..|pending| - 1];
      var x := pending[|pending| - 1];
      GroupFlightsDistinctKeys(init);
      var before := GroupFlights(init);
      AddToGroupsEffect(before, x);
      var groups := AddToGroups(before, x);
      forall i, j | 0 <= i < j < |groups|
        ensures groups[i].key != groups[j].key
      {
        if j == |before| {
          assert !HasGroup(before, KeyOf(x));
          assert before[i].key != KeyOf(x);
        }
      }
    }
  }

  lemma AddToGroupsKeepsKeyedFlights(init: seq<Flight>, x: Flight, before: seq<Group>)
    requires DistinctKeys(before)
    requires forall i :: 0 <= i < |before| ==>
               before[i].flights == FlightsWithKey(init, before[i].key) && before[i].flights != []
    requires forall f :: f in init ==> HasGroup(before, KeyOf(f))
    ensures forall i :: 0 <= i < |AddToGroups(before, x)| ==>
              && AddToGroups(before, x)[i].flights == FlightsWithKey(init + [x], AddToGroups(before, x)[i].key)
              && AddToGroups(before, x)[i].flights != []
  {
    AddToGroupsEffect(before, x);
    var groups := AddToGroups(before, x);
    forall i | 0 <= i < |groups|
      ensures groups[i].flights == FlightsWithKey(init + [x], groups[i].key) && groups[i].flights != []
    {
      var key := groups[i].key;
      FlightsWithKeyAppend(init, x, key);
      if i == |before| {
        FlightsWithKeyAbsent(init, x, before);
      }
    }
  }

  lemma {:induction false} GroupFlightsHoldKeyedFlights(pending: seq<Flight>)
    ensures forall i :: 0 <= i < |GroupFlights(pending)| ==>
              && GroupFlights(pending)[i].flights == FlightsWithKey(pending, GroupFlights(pending)[i].key)
              && GroupFlights(pending)[i].flights != []
  {
    if pending != [] {
      var init := pending[..|pending| - 1];
      var x := pending[|pending| - 1];
      assert pending == init + [x];
      GroupFlightsHoldKeyedFlights(init);
      var before := GroupFlights(init);
      assert before == GroupFlights(init);
      GroupFlightsDistinctKeys(init);
      GroupFlightsCover(init);
      AddToGroupsKeepsKeyedFlights(init, x, before);
      var groups := AddToGroups(before, x);
      assert GroupFlights(pending) == groups;
      assert forall i :: 0 <= i < |groups| ==>
               groups[i].flights == FlightsWithKey(pending, groups[i].key) && groups[i].flights != [];
    }
  }

  /** A key without a group has no flights in the grouped list. */
  lemma FlightsWithKeyAbsent(init: seq<Flight>, x: Flight, before: seq<Group>)
    requires forall f :: f in init ==> HasGroup(before, KeyOf(f))
    requires !HasGroup(before, KeyOf(x))
    ensures FlightsWithKey(init, KeyOf(x)) == []
  {
  }

  lemma {:induction false} GroupFlightsCover(pending: seq<Flight>)
    ensures forall f :: f in pending ==> HasGroup(GroupFlights(pending), KeyOf(f))
  {
    if pending != [] {
      var init := pending[..|pending| - 1];
      var x := pending[|pending| - 1];
      assert pending == init + [x];
      GroupFlightsCover(init);
      GroupFlightsDistinctKeys(init);
      var before := GroupFlights(init);
      AddToGroupsEffect(before, x);
      var groups := AddToGroups(before, x);
      forall f | f in pending
        ensures HasGroup(groups, KeyOf(f))
      {
        if f in init {
          var i :| 0 <= i < |before| && before[i].key == KeyOf(f);
          assert groups[i].key == KeyOf(f);
        } else if HasGroup(before, KeyOf(x)) {
          var i :| 0 <= i < |before| && before[i].key == KeyOf(x);
          assert groups[i].key == KeyOf(f);
        } else {
          assert groups[|before|].key == KeyOf(f);
        }
      }
    }
  }

  /** Grouping puts every pending flight in exactly one group: the keys are
      distinct, each group holds, in order, exactly the pending flights of
      its key, no group is empty, and every flight's key has a group. */
  lemma GroupFlightsPartitions(pending: seq<Flight>)
    ensures var groups := GroupFlights(pending);
            && DistinctKeys(groups)
            && (forall i :: 0 <= i < |groups| ==>
                  groups[i].flights == FlightsWithKey(pending, groups[i].key) && groups[i].flights != [])
            && (forall f :: f in pending ==> HasGroup(groups, KeyOf(f)))
  {
    GroupFlightsDistinctKeys(pending);
    GroupFlightsHoldKeyedFlights(pending);
    GroupFlightsCover(pending);
  }

  // ---------------------------------------------------------------------------
  // Matching a flight to a leg

  function Diff(leg: Leg, f: Flight): nat {
    if leg.startTime >= f.startTime then leg.startTime - f.startTime else f.startTime - leg.startTime
  }

  /** The scan for the best leg from index i on, `best` the best of the legs
      before i; a later leg replaces it only when strictly nearer. */
  function BestFrom(legs: seq<Leg>, f: Flight, i: nat, best: nat): (r: nat)
    requires best < i <= |legs|
    ensures r < |legs|
    decreases |legs| - i
  {
    if i == |legs| then best
    else if Diff(legs[i], f) < Diff(legs[best], f) then BestFrom(legs, f, i + 1, i)
    else BestFrom(legs, f, i + 1, best)
  }

  /** The index of the best leg, None when there are no legs. */
  function BestLeg(legs: seq<Leg>, f: Flight): (r: Option<nat>)
    ensures r.None? <==> legs == []
    ensures r.Some? ==> r.value < |legs|
  {
    if legs == [] then None else Some(BestFrom(legs, f, 1, 0))
  }

  /** Leg b is nearest to the flight's start, and no earlier leg is as near. */
  predicate IsFirstNearest(legs: seq<Leg>, f: Flight, b: nat) {
    && b < |legs|
    && (forall k :: 0 <= k < |legs| ==> Diff(legs[b], f) <= Diff(legs[k], f))
    && (forall k :: 0 <= k < b ==> Diff(legs[b], f) < Diff(legs[k], f))
  }

  lemma {:induction false} BestFromIsFirstNearest(legs: seq<Leg>, f: Flight, i: nat, best: nat)
    requires best < i <= |legs|
    requires forall k :: 0 <= k < i ==> Diff(legs[best], f) <= Diff(legs[k], f)
    requires forall k :: 0 <= k < best ==> Diff(legs[best], f) < Diff(legs[k], f)
    ensures IsFirstNearest(legs, f, BestFrom(legs, f, i, best))
    decreases |legs| - i
  {
    if i < |legs| {
      if Diff(legs[i], f) < Diff(legs[best], f) {
        BestFromIsFirstNearest(legs, f, i + 1, i);
      } else {
        BestFromIsFirstNearest(legs, f, i + 1, best);
      }
    }
  }

  /** The strict `<` of the scan keeps the first leg attaining the minimum
      distance, and there is only one such leg. */
  lemma BestLegIsFirstNearest(legs: seq<Leg>, f: Flight)
    requires legs != []
    ensures IsFirstNearest(legs, f, BestLeg(legs, f).value)
    ensures forall b: nat :: IsFirstNearest(legs, f, b) ==> b == BestLeg(legs, f).value
  {
    BestFromIsFirstNearest(legs, f, 1, 0);
  }

  /** The telemetry the backfill writes for a flight: that of the first leg
      nearest its start, when that leg starts within the tolerance and has
      telemetry; nothing otherwise. */
  function Decide(legs: seq<Leg>, f: Flight): (r: Option<seq<TelemetryPoint>>)
    ensures r.Some? <==>
              exists b: nat :: IsFirstNearest(legs, f, b) && Diff(legs[b], f) <= MatchTolerance && legs[b].telemetry != []
    ensures forall b: nat :: r.Some? && IsFirstNearest(legs, f, b) ==> r.value == legs[b].telemetry
  {
    match BestLeg(legs, f)
    case None => None
    case Some(b) =>
      BestLegIsFirstNearest(legs, f);
      if Diff(legs[b], f) <= MatchTolerance && legs[b].telemetry != [] then Some(legs[b].telemetry) else None
  }

  // ---------------------------------------------------------------------------
  // Writing the telemetry

  /** The legs of a group's trace, none when the fetch fails. */
  function LegsFor(fetch: TraceSource, p: Parser, key: GroupKey): seq<Leg> {
    match fetch(key.icao, key.day)
    case None => []
    case Some(trace) => ParseLegs(p, trace)
  }

  /** The flights of one group, in order, against the group's legs. */
  function BackfillFlights(s: Store, legs: seq<Leg>, flights: seq<Flight>): (r: Result<BackfillReport, BackfillFailure>)
    ensures r.Failure? ==> r.error.error == MissingFlight
    decreases |flights|
  {
    if flights == [] then Success(BackfillReport(s, 0, 0))
    else
      var f := flights[0];
      match Decide(legs, f)
      case None => BackfillFlights(s, legs, flights[1..])
      case Some(points) =>
        match InsertTelemetry(s, f.id, points)
        case Failure(e) => Failure(BackfillFailure(s, e))
        case Success(c) =>
          match BackfillFlights(c.store, legs, flights[1..])
          case Failure(stopped) => Failure(stopped)
          case Success(rest) => Success(BackfillReport(rest.store, rest.matched + 1, rest.telemetryTotal + c.count))
  }

  /** One group: its trace fetched and parsed once; skipped when there are
      no legs. */
  function BackfillGroup(s: Store, fetch: TraceSource, p: Parser, g: Group): Result<BackfillReport, BackfillFailure> {
    var legs := LegsFor(fetch, p, g.key);
    if legs == [] then Success(BackfillReport(s, 0, 0))
    else BackfillFlights(s, legs, g.flights)
  }

  function BackfillGroups(s: Store, fetch: TraceSource, p: Parser, groups: seq<Group>): Result<BackfillReport, BackfillFailure>
    decreases |groups|
  {
    if groups == [] then Success(BackfillReport(s, 0, 0))
    else
      match BackfillGroup(s, fetch, p, groups[0])
      case Failure(stopped) => Failure(stopped)
      case Success(first) =>
        match BackfillGroups(first.store, fetch, p, groups[1..])
        case Failure(stopped) => Failure(stopped)
        case Success(rest) =>
          Success(BackfillReport(rest.store, first.matched + rest.matched, first.telemetryTotal + rest.telemetryTotal))
  }

  /** `backfill_telemetry` over the flights without telemetry. */
  function BackfillTelemetry(s: Store, fetch: TraceSource, p: Parser, pending: seq<Flight>): Result<BackfillReport, BackfillFailure> {
    if pending == [] then Success(BackfillReport(s, 0, 0))
    else BackfillGroups(s, fetch, p, GroupFlights(pending))
  }

  // ---------------------------------------------------------------------------
  // What the backfill writes

  /** The rows flight f has once its group is done: the decided telemetry,
      or the rows it had. */
  function Written(s: Store, legs: seq<Leg>, f: Flight): seq<TelemetryRow> {
    match Decide(legs, f)
    case Some(points) => ToRows(f.id, points)
    case None => RowsOf(s.telemetry, f.id)
  }

  /** The number of flights the decision matches. */
  function MatchCount(legs: seq<Leg>, flights: seq<Flight>): nat {
    if flights == [] then 0
    else (if Decide(legs, flights[0]).Some? then 1 else 0) + MatchCount(legs, flights[1..])
  }

  /** The number of points the decision writes for the flights. */
  function PointCount(legs: seq<Leg>, flights: seq<Flight>): nat {
    if flights == [] then 0
    else
      (match Decide(legs, flights[0]) case Some(points) => |points| case None => 0)
      + PointCount(legs, flights[1..])
  }

  /** Within a group, `matched_flights` grows by the number of decided
      flights and `total_telemetry` by the number of points written for them. */
  lemma {:induction false} BackfillFlightsTallies(s: Store, legs: seq<Leg>, flights: seq<Flight>)
    ensures var r := BackfillFlights(s, legs, flights);
            r.Success? ==> r.value.matched == MatchCount(legs, flights) && r.value.telemetryTotal == PointCount(legs, flights)
    decreases |flights|
  {
    if flights != [] {
      var f := flights[0];
      match Decide(legs, f)
      case None =>
        BackfillFlightsTallies(s, legs, flights[1..]);
      case Some(points) =>
        var ins := InsertTelemetry(s, f.id, points);
        if ins.Success? {
          BackfillFlightsTallies(ins.value.store, legs, flights[1..]);
        }
    }
  }

  function FlightIds(flights: seq<Flight>): set<nat> {
    set a | 0 <= a < |flights| :: flights[a].id
  }

  /** Within a group: each flight ends with its decided telemetry, and
      neither the flights table nor the telemetry of any other flight
      changes. */
  lemma {:induction false} BackfillFlightsWrites(s: Store, legs: seq<Leg>, flights: seq<Flight>)
    requires UniqueIds(flights)
    ensures var r := BackfillFlights(s, legs, flights);
            r.Success? ==>
              && r.value.store.flights == s.flights && r.value.store.nextId == s.nextId
              && (forall a :: 0 <= a < |flights| ==> RowsOf(r.value.store.telemetry, flights[a].id) == Written(s, legs, flights[a]))
              && (forall id :: id !in FlightIds(flights) ==> RowsOf(r.value.store.telemetry, id) == RowsOf(s.telemetry, id))
    decreases |flights|
  {
    if flights != [] {
      var f := flights[0];
      var tail := flights[1..];
      assert UniqueIds(tail);
      assert forall a :: 1 <= a < |flights| ==> flights[a] == tail[a - 1];
      assert f.id !in FlightIds(tail);
      var r := BackfillFlights(s, legs, flights);
      match Decide(legs, f)
      case None =>
        BackfillFlightsWrites(s, legs, tail);
      case Some(points) =>
        var ins := InsertTelemetry(s, f.id, points);
        if ins.Success? {
          var t := ins.value.store;
          BackfillFlightsWrites(t, legs, tail);
          var rest := BackfillFlights(t, legs, tail);
          if rest.Success? {
            assert r.value.store == rest.value.store;
            forall a | 1 <= a < |flights|
              ensures RowsOf(r.value.store.telemetry, flights[a].id) == Written(s, legs, flights[a])
            {
              assert flights[a].id != f.id;
            }
          }
        }
    }
  }

  function GroupIds(groups: seq<Group>): set<nat> {
    set i, a | 0 <= i < |groups| && 0 <= a < |groups[i].flights| :: groups[i].flights[a].id
  }

  /** No flight id occurs twice in a group, nor in two groups. */
  ghost predicate GroupsHaveUniqueIds(groups: seq<Group>) {
    && (forall i :: 0 <= i < |groups| ==> UniqueIds(groups[i].flights))
    && (forall i, j, a, b ::
          (0 <= i < |groups| && 0 <= j < |groups| && i != j &&
           0 <= a < |groups[i].flights| && 0 <= b < |groups[j].flights|) ==>
          groups[i].flights[a].id != groups[j].flights[b].id)
  }

  lemma GroupWritesOwnFlights(s: Store, fetch: TraceSource, p: Parser, g: Group)
    requires UniqueIds(g.flights)
    ensures var r := BackfillGroup(s, fetch, p, g);
            r.Success? ==>
              && r.value.store.flights == s.flights && r.value.store.nextId == s.nextId
              && (forall a :: 0 <= a < |g.flights| ==>
                    RowsOf(r.value.store.telemetry, g.flights[a].id) == Written(s, LegsFor(fetch, p, g.key), g.flights[a]))
              && (forall id :: id !in FlightIds(g.flights) ==> RowsOf(r.value.store.telemetry, id) == RowsOf(s.telemetry, id))
  {
    var legs := LegsFor(fetch, p, g.key);
    if legs != [] {
      BackfillFlightsWrites(s, legs, g.flights);
    }
  }

  /** The rows of u after the groups are done, measured against s: each
      grouped flight has its decided telemetry, every other flight its rows
      in s. */
  ghost predicate WroteGroups(s: Store, u: Store, fetch: TraceSource, p: Parser, groups: seq<Group>) {
    && (forall i, a :: 0 <= i < |groups| && 0 <= a < |groups[i].flights| ==>
          RowsOf(u.telemetry, groups[i].flights[a].id)
          == Written(s, LegsFor(fetch, p, groups[i].key), groups[i].flights[a]))
    && (forall id :: id !in GroupIds(groups) ==> RowsOf(u.telemetry, id) == RowsOf(s.telemetry, id))
  }

  /** The first group's writes followed by the later groups' writes are the
      writes of all the groups. */
  lemma ComposeGroupWrites(s: Store, t: Store, u: Store, fetch: TraceSource, p: Parser, groups: seq<Group>)
    requires groups != [] && GroupsHaveUniqueIds(groups)
    requires forall a :: 0 <= a < |groups[0].flights| ==>
               RowsOf(t.telemetry, groups[0].flights[a].id) == Written(s, LegsFor(fetch, p, groups[0].key), groups[0].flights[a])
    requires forall id :: id !in FlightIds(groups[0].flights) ==> RowsOf(t.telemetry, id) == RowsOf(s.telemetry, id)
    requires WroteGroups(t, u, fetch, p, groups[1..])
    ensures WroteGroups(s, u, fetch, p, groups)
  {
    var g := groups[0];
    var rest := groups[1..];
    assert forall i :: 0 <= i < |rest| ==> rest[i] == groups[i + 1];
    forall a | 0 <= a < |g.flights|
      ensures RowsOf(u.telemetry, g.flights[a].id) == Written(s, LegsFor(fetch, p, g.key), g.flights[a])
    {
      var f := g.flights[a];
      if f.id in GroupIds(rest) {
        assert false;
      }
    }
    forall i, a | 1 <= i < |groups| && 0 <= a < |groups[i].flights|
      ensures RowsOf(u.telemetry, groups[i].flights[a].id)
              == Written(s, LegsFor(fetch, p, groups[i].key), groups[i].flights[a])
    {
      var f := groups[i].flights[a];
      assert rest[i - 1] == groups[i];
      if f.id in FlightIds(g.flights) {
        assert false;
      }
    }
    forall id | id !in GroupIds(groups)
      ensures RowsOf(u.telemetry, id) == RowsOf(s.telemetry, id)
    {
    }
  }

  /** Across groups: each grouped flight ends with its decided telemetry and
      the flights table does not change. */
  lemma {:induction false} BackfillGroupsWrites(s: Store, fetch: TraceSource, p: Parser, groups: seq<Group>)
    requires GroupsHaveUniqueIds(groups)
    ensures var r := BackfillGroups(s, fetch, p, groups);
            r.Success? ==>
              && r.value.store.flights == s.flights && r.value.store.nextId == s.nextId
              && (forall i, a :: 0 <= i < |groups| && 0 <= a < |groups[i].flights| ==>
                    RowsOf(r.value.store.telemetry, groups[i].flights[a].id)
                    == Written(s, LegsFor(fetch, p, groups[i].key), groups[i].flights[a]))
              && (forall id :: id !in GroupIds(groups) ==> RowsOf(r.value.store.telemetry, id) == RowsOf(s.telemetry, id))
    decreases |groups|
  {
    if groups != [] {
      var g := groups[0];
      var rest := groups[1..];
      assert GroupsHaveUniqueIds(rest) by {
        assert forall i :: 0 <= i < |rest| ==> rest[i] == groups[i + 1];
      }
      GroupWritesOwnFlights(s, fetch, p, g);
      var first := BackfillGroup(s, fetch, p, g);
      if first.Success? {
        var t := first.value.store;
        BackfillGroupsWrites(t, fetch, p, rest);
        var later := BackfillGroups(t, fetch, p, rest);
        if later.Success? {
          var u := later.value.store;
          assert BackfillGroups(s, fetch, p, groups).value.store == u;
          assert WroteGroups(t, u, fetch, p, rest);
          ComposeGroupWrites(s, t, u, fetch, p, groups);
          assert WroteGroups(s, u, fetch, p, groups);
        }
      }
    }
  }

  lemma {:induction false} FlightsWithKeyUniqueIds(flights: seq<Flight>, key: GroupKey)
    requires UniqueIds(flights)
    ensures UniqueIds(FlightsWithKey(flights, key))
  {
    if flights != [] {
      var tail := flights[1..];
      assert UniqueIds(tail);
      FlightsWithKeyUniqueIds(tail, key);
      var r := FlightsWithKey(tail, key);
      forall k | 0 <= k < |r|
        ensures r[k].id != flights[0].id
      {
        assert r[k] in tail;
      }
    }
  }

  lemma GroupedIdsAreUnique(pending: seq<Flight>)
    requires UniqueIds(pending)
    ensures GroupsHaveUniqueIds(GroupFlights(pending))
  {
    var groups := GroupFlights(pending);
    GroupFlightsPartitions(pending);
    forall i | 0 <= i < |groups|
      ensures UniqueIds(groups[i].flights)
    {
      FlightsWithKeyUniqueIds(pending, groups[i].key);
    }
    forall i, j, a, b | 0 <= i < |groups| && 0 <= j < |groups| && i != j &&
                        0 <= a < |groups[i].flights| && 0 <= b < |groups[j].flights|
      ensures groups[i].flights[a].id != groups[j].flights[b].id
    {
      var f := groups[i].flights[a];
      var g := groups[j].flights[b];
      assert f in groups[i].flights && g in groups[j].flights;
      assert KeyOf(f) == groups[i].key && KeyOf(g) == groups[j].key;
      if i < j { assert groups[i].key != groups[j].key; } else { assert groups[j].key != groups[i].key; }
      var x :| 0 <= x < |pending| && pending[x] == f;
      var y :| 0 <= y < |pending| && pending[y] == g;
      assert x != y;
    }
  }

  /** Where a pending flight sits among the groups. */
  lemma FindInGroups(pending: seq<Flight>, k: nat) returns (i: nat, a: nat)
    requires k < |pending|
    ensures var groups := GroupFlights(pending);
            i < |groups| && a < |groups[i].flights| && groups[i].flights[a] == pending[k] &&
            groups[i].key == KeyOf(pending[k])
  {
    var groups := GroupFlights(pending);
    GroupFlightsPartitions(pending);
    var f := pending[k];
    assert f in pending;
    i :| 0 <= i < |groups| && groups[i].key == KeyOf(f);
    assert f in groups[i].flights;
    a :| 0 <= a < |groups[i].flights| && groups[i].flights[a] == f;
  }

  lemma GroupIdsArePendingIds(pending: seq<Flight>)
    ensures GroupIds(GroupFlights(pending)) <= FlightIds(pending)
  {
    var groups := GroupFlights(pending);
    GroupFlightsPartitions(pending);
    forall i, a | 0 <= i < |groups| && 0 <= a < |groups[i].flights|
      ensures groups[i].flights[a].id in FlightIds(pending)
    {
      var f := groups[i].flights[a];
      assert f in pending;
      var x :| 0 <= x < |pending| && pending[x] == f;
    }
  }

  /** The backfill gives every pending flight exactly the telemetry of its
      best leg when that leg starts within 60 seconds and has telemetry, and
      leaves it as it was otherwise; no other flight's telemetry and no
      flight row changes. */
  lemma BackfillWritesMatchedFlights(s: Store, fetch: TraceSource, p: Parser, pending: seq<Flight>)
    requires UniqueIds(pending)
    ensures var r := BackfillTelemetry(s, fetch, p, pending);
            r.Success? ==>
              && r.value.store.flights == s.flights && r.value.store.nextId == s.nextId
              && (forall k :: 0 <= k < |pending| ==>
                    RowsOf(r.value.store.telemetry, pending[k].id)
                    == Written(s, LegsFor(fetch, p, KeyOf(pending[k])), pending[k]))
              && (forall id :: id !in FlightIds(pending) ==> RowsOf(r.value.store.telemetry, id) == RowsOf(s.telemetry, id))
  {
    if pending != [] {
      var groups := GroupFlights(pending);
      GroupedIdsAreUnique(pending);
      GroupIdsArePendingIds(pending);
      BackfillGroupsWrites(s, fetch, p, groups);
      var r := BackfillTelemetry(s, fetch, p, pending);
      if r.Success? {
        forall k | 0 <= k < |pending|
          ensures RowsOf(r.value.store.telemetry, pending[k].id)
                  == Written(s, LegsFor(fetch, p, KeyOf(pending[k])), pending[k])
        {
          var i, a := FindInGroups(pending, k);
        }
      }
    }
  }

  /** Inserts fail only on a flight the store does not hold: a backfill of
      stored flights always completes. */
  lemma {:induction false} BackfillFlightsSucceedOnStoredFlights(s: Store, legs: seq<Leg>, flights: seq<Flight>)
    requires forall a :: 0 <= a < |flights| ==> HasFlight(s, flights[a].id)
    ensures BackfillFlights(s, legs, flights).Success?
    decreases |flights|
  {
    if flights != [] {
      var f := flights[0];
      assert forall a :: 1 <= a < |flights| ==> flights[a] == flights[1..][a - 1];
      match Decide(legs, f)
      case None =>
        BackfillFlightsSucceedOnStoredFlights(s, legs, flights[1..]);
      case Some(points) =>
        var t := InsertTelemetry(s, f.id, points).value.store;
        assert forall id :: HasFlight(s, id) ==> HasFlight(t, id);
        BackfillFlightsSucceedOnStoredFlights(t, legs, flights[1..]);
    }
  }

  lemma {:induction false} BackfillGroupsSucceedOnStoredFlights(s: Store, fetch: TraceSource, p: Parser, groups: seq<Group>)
    requires forall i, a :: 0 <= i < |groups| && 0 <= a < |groups[i].flights| ==> HasFlight(s, groups[i].flights[a].id)
    ensures BackfillGroups(s, fetch, p, groups).Success?
    decreases |groups|
  {
    if groups != [] {
      var g := groups[0];
      var legs := LegsFor(fetch, p, g.key);
      if legs != [] {
        BackfillFlightsSucceedOnStoredFlights(s, legs, g.flights);
        BackfillFlightsKeepFlights(s, legs, g.flights);
      }
      var t := BackfillGroup(s, fetch, p, g).value.store;
      assert forall i :: 1 <= i < |groups| ==> groups[i] == groups[1..][i - 1];
      BackfillGroupsSucceedOnStoredFlights(t, fetch, p, groups[1..]);
    }
  }

  lemma {:induction false} BackfillFlightsKeepFlights(s: Store, legs: seq<Leg>, flights: seq<Flight>)
    ensures var r := BackfillFlights(s, legs, flights);
            r.Success? ==> r.value.store.flights == s.flights
    decreases |flights|
  {
    if flights != [] {
      var f := flights[0];
      match Decide(legs, f)
      case None =>
        BackfillFlightsKeepFlights(s, legs, flights[1..]);
      case Some(points) =>
        var ins := InsertTelemetry(s, f.id, points);
        if ins.Success? {
          BackfillFlightsKeepFlights(ins.value.store, legs, flights[1..]);
        }
    }
  }

  /** When every pending flight is a flight of the store, as flights read
      back from it are, the backfill completes. */
  lemma BackfillSucceedsOnStoredFlights(s: Store, fetch: TraceSource, p: Parser, pending: seq<Flight>)
    requires forall k :: 0 <= k < |pending| ==> HasFlight(s, pending[k].id)
    ensures BackfillTelemetry(s, fetch, p, pending).Success?
  {
    if pending != [] {
      var groups := GroupFlights(pending);
      GroupFlightsPartitions(pending);
      forall i, a | 0 <= i < |groups| && 0 <= a < |groups[i].flights|
        ensures HasFlight(s, groups[i].flights[a].id)
      {
        assert groups[i].flights[a] in pending;
      }
      BackfillGroupsSucceedOnStoredFlights(s, fetch, p, groups);
    }
  }

  // ---------------------------------------------------------------------------
  // The as-written parser

  /** The as-written parser attaches no telemetry, so no flight is ever
      matched: a backfill reports 0 matches and leaves the store as it was. */
  lemma {:induction false} BackfillAsWrittenMatchesNothing(s: Store, fetch: TraceSource, pending: seq<Flight>)
    ensures BackfillTelemetry(s, fetch, AsWritten, pending) == Success(BackfillReport(s, 0, 0))
  {
    if pending != [] {
      AsWrittenGroupsChangeNothing(s, fetch, GroupFlights(pending));
    }
  }

  lemma {:induction false} AsWrittenGroupsChangeNothing(s: Store, fetch: TraceSource, groups: seq<Group>)
    ensures BackfillGroups(s, fetch, AsWritten, groups) == Success(BackfillReport(s, 0, 0))
    decreases |groups|
  {
    if groups != [] {
      var g := groups[0];
      var legs := LegsFor(fetch, AsWritten, g.key);
      if fetch(g.key.icao, g.key.day).Some? {
        ParsedTelemetry(AsWritten, fetch(g.key.icao, g.key.day).value);
      }
      AsWrittenFlightsChangeNothing(s, legs, g.flights);
      AsWrittenGroupsChangeNothing(s, fetch, groups[1..]);
    }
  }

  lemma {:induction false} AsWrittenFlightsChangeNothing(s: Store, legs: seq<Leg>, flights: seq<Flight>)
    requires TelemetryAsParsed(legs, AsWritten)
    ensures BackfillFlights(s, legs, flights) == Success(BackfillReport(s, 0, 0))
    decreases |flights|
  {
    if flights != [] {
      var f := flights[0];
      if legs != [] {
        assert legs[BestLeg(legs, f).value] in legs;
      }
      assert Decide(legs, f).None?;
      AsWrittenFlightsChangeNothing(s, legs, flights[1..]);
    }
  }
}
