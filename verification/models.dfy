/** The persisted entities: the `flights` and `flight_telemetry` tables, their
    column constraints, the (icao, start_time) unique constraint, the foreign
    key from telemetry to flight and its cascading delete.

    The store is a pair of immutable tables.  Rows keep their insertion order,
    which is the order the source's queries return them in. */
module Models {
  import opened Wrappers

  /** Width of the `icao` column (`String(6)`). */
  const MaxIcaoLength: int := 6

  /** A floating-point column value, carried without arithmetic. */
  datatype Float = Float(bits: int)

  /** One telemetry point as handed to the store: `timestamp`, `latitude` and
      `longitude` are required keys, every other key may be missing (None). */
  datatype TelemetryPoint = TelemetryPoint(
    timestamp: int,
    latitude: Float,
    longitude: Float,
    altitude: Option<int>,
    altitudeGround: Option<bool>,
    groundSpeed: Option<Float>,
    track: Option<Float>,
    verticalRate: Option<int>,
    flags: Option<int>,
    geoAltitude: Option<int>,
    geoVerticalRate: Option<int>,
    ias: Option<int>,
    rollAngle: Option<Float>)

  /** A row of `flights`: surrogate id, aircraft, and the leg's start and end
      instants.  The schema does not require startTime <= endTime. */
  datatype Flight = Flight(id: nat, icao: string, startTime: int, endTime: int)

  /** A row of `flight_telemetry`.  `altitudeGround` is the only defaulted
      column; every other kinematic column is nullable. */
  datatype TelemetryRow = TelemetryRow(
    flightId: nat,
    timestamp: int,
    latitude: Float,
    longitude: Float,
    altitude: Option<int>,
    altitudeGround: bool,
    groundSpeed: Option<Float>,
    track: Option<Float>,
    verticalRate: Option<int>,
    flags: Option<int>,
    geoAltitude: Option<int>,
    geoVerticalRate: Option<int>,
    ias: Option<int>,
    rollAngle: Option<Float>)

  /** Both tables, plus the next value of the id sequence. */
  datatype Store = Store(flights: seq<Flight>, telemetry: seq<TelemetryRow>, nextId: nat)

  const EmptyStore: Store := Store([], [], 1)

  predicate SameKey(f: Flight, icao: string, startTime: int) {
    f.icao == icao && f.startTime == startTime
  }

  predicate HasFlight(s: Store, id: nat) {
    exists i :: 0 <= i < |s.flights| && s.flights[i].id == id
  }

  /** The `uix_icao_start_time` constraint. */
  ghost predicate UniqueKeys(flights: seq<Flight>) {
    forall i, j :: 0 <= i < j < |flights| ==> !SameKey(flights[j], flights[i].icao, flights[i].startTime)
  }

  /** The primary key of `flights`. */
  ghost predicate UniqueIds(flights: seq<Flight>) {
    forall i, j :: 0 <= i < j < |flights| ==> flights[i].id != flights[j].id
  }

  /** Every constraint the schema enforces on a committed store. */
  ghost predicate WellFormed(s: Store) {
    && UniqueKeys(s.flights)
    && UniqueIds(s.flights)
    && (forall i :: 0 <= i < |s.flights| ==> s.flights[i].id < s.nextId && |s.flights[i].icao| <= MaxIcaoLength)
    && (forall k :: 0 <= k < |s.telemetry| ==> HasFlight(s, s.telemetry[k].flightId))
  }

  /** The telemetry rows of flight `id`, in table order
      (`query(FlightTelemetry).filter_by(flight_id=id)`). */
  function RowsOf(rows: seq<TelemetryRow>, id: nat): (r: seq<TelemetryRow>)
    ensures |r| <= |rows|
    ensures forall k :: 0 <= k < |r| ==> r[k].flightId == id && r[k] in rows
  {
    if rows == [] then []
    else (if rows[0].flightId == id then [rows[0]] else []) + RowsOf(rows[1..], id)
  }

  lemma {:induction false} RowsOfAppend(a: seq<TelemetryRow>, b: seq<TelemetryRow>, id: nat)
    ensures RowsOf(a + b, id) == RowsOf(a, id) + RowsOf(b, id)
  {
    if a != [] {
      assert (a + b)[1..] == a[1..] + b;
      RowsOfAppend(a[1..], b, id);
    } else {
      assert a + b == b;
    }
  }

  /** The rows of a table that holds only rows of flight `id`. */
  lemma {:induction false} RowsOfOwnRows(rows: seq<TelemetryRow>, id: nat, other: nat)
    requires forall k :: 0 <= k < |rows| ==> rows[k].flightId == id
    ensures RowsOf(rows, id) == rows
    ensures other != id ==> RowsOf(rows, other) == []
  {
    if rows != [] {
      RowsOfOwnRows(rows[1..], id, other);
    }
  }

  /** The table with every row of flight `id` deleted, everything else kept in order. */
  function WithoutFlight(rows: seq<TelemetryRow>, id: nat): (r: seq<TelemetryRow>)
    ensures forall k :: 0 <= k < |r| ==> r[k] in rows && r[k].flightId != id
  {
    if rows == [] then []
    else if rows[0].flightId == id then WithoutFlight(rows[1..], id)
    else [rows[0]] + WithoutFlight(rows[1..], id)
  }

  /** Deleting flight `id`'s rows leaves it none, leaves every other flight
      exactly its rows, and removes as many rows as it had. */
  lemma {:induction false} WithoutFlightRows(rows: seq<TelemetryRow>, id: nat)
    ensures RowsOf(WithoutFlight(rows, id), id) == []
    ensures forall other :: other != id ==> RowsOf(WithoutFlight(rows, id), other) == RowsOf(rows, other)
    ensures |WithoutFlight(rows, id)| + |RowsOf(rows, id)| == |rows|
  {
    if rows != [] {
      WithoutFlightRows(rows[1..], id);
      if rows[0].flightId != id {
        var rest := WithoutFlight(rows[1..], id);
        assert ([rows[0]] + rest)[1..] == rest;
      }
    }
  }

  /** The stored form of a point: missing keys become NULL, except
      `altitude_ground`, whose column default is False. */
  function ToRow(id: nat, p: TelemetryPoint): (r: TelemetryRow)
    ensures r.flightId == id && r.timestamp == p.timestamp
    ensures r.latitude == p.latitude && r.longitude == p.longitude
    ensures p.altitudeGround.None? ==> !r.altitudeGround
    ensures p.altitudeGround.Some? ==> r.altitudeGround == p.altitudeGround.value
  {
    TelemetryRow(
      id, p.timestamp, p.latitude, p.longitude,
      p.altitude, p.altitudeGround.GetOr(false),
      p.groundSpeed, p.track, p.verticalRate, p.flags,
      p.geoAltitude, p.geoVerticalRate, p.ias, p.rollAngle)
  }

  function ToRows(id: nat, points: seq<TelemetryPoint>): (r: seq<TelemetryRow>)
    ensures |r| == |points|
    ensures forall k :: 0 <= k < |r| ==> r[k] == ToRow(id, points[k])
  {
    seq(|points|, k requires 0 <= k < |points| => ToRow(id, points[k]))
  }

  /** The flights table without flight `id`. */
  function FlightsWithout(flights: seq<Flight>, id: nat): (r: seq<Flight>)
    ensures forall k :: 0 <= k < |r| ==> r[k] in flights && r[k].id != id
    ensures forall k :: 0 <= k < |flights| && flights[k].id != id ==> flights[k] in r
  {
    if flights == [] then []
    else if flights[0].id == id then FlightsWithout(flights[1..], id)
    else [flights[0]] + FlightsWithout(flights[1..], id)
  }

  /** Deleting a flight row; the `cascade="all, delete-orphan"` relationship
      and `ondelete='CASCADE'` foreign key delete its telemetry with it. */
  function DeleteFlight(s: Store, id: nat): Store {
    Store(FlightsWithout(s.flights, id), WithoutFlight(s.telemetry, id), s.nextId)
  }

  lemma {:induction false} FlightsWithoutKeepsKeys(flights: seq<Flight>, id: nat)
    requires UniqueKeys(flights)
    ensures UniqueKeys(FlightsWithout(flights, id))
  {
    if flights != [] {
      FlightsWithoutKeepsKeys(flights[1..], id);
    }
  }

  lemma {:induction false} FlightsWithoutKeepsIds(flights: seq<Flight>, id: nat)
    requires UniqueIds(flights)
    ensures UniqueIds(FlightsWithout(flights, id))
  {
    if flights != [] {
      FlightsWithoutKeepsIds(flights[1..], id);
    }
  }

  /** The cascade: after deleting a flight no telemetry row refers to it, the
      other flights keep all of their rows, and the store stays well formed. */
  lemma DeleteFlightCascades(s: Store, id: nat)
    requires WellFormed(s)
    ensures WellFormed(DeleteFlight(s, id))
    ensures !HasFlight(DeleteFlight(s, id), id)
    ensures RowsOf(DeleteFlight(s, id).telemetry, id) == []
    ensures forall other :: other != id ==> RowsOf(DeleteFlight(s, id).telemetry, other) == RowsOf(s.telemetry, other)
  {
    var t := DeleteFlight(s, id);
    WithoutFlightRows(s.telemetry, id);
    FlightsWithoutKeepsKeys(s.flights, id);
    FlightsWithoutKeepsIds(s.flights, id);
    forall k | 0 <= k < |t.telemetry|
      ensures HasFlight(t, t.telemetry[k].flightId)
    {
      var row := t.telemetry[k];
      var j :| 0 <= j < |s.telemetry| && s.telemetry[j] == row;
      assert HasFlight(s, row.flightId);
      var i :| 0 <= i < |s.flights| && s.flights[i].id == row.flightId;
      assert s.flights[i] in t.flights;
    }
  }
}
