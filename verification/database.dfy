/** The store operations: the flight upsert state machine, its batch form,
    telemetry replacement, their composition, and the ingestion frontier.

    Every operation is a pure transition from a store to a new store plus what
    the source returns.  A statement the database would reject (an `icao`
    wider than its column, a telemetry row whose flight does not exist) is a
    `Failure`; the store is then the one last committed. */
module Database {
  import opened Wrappers
  import opened Calendar
  import opened Models

  /** The `action` reported by `upsert_flight`. */
  datatype Action = Inserted | Updated | Unchanged

  /** What the database refuses: a value too long for `String(6)`, or a
      telemetry row whose `flight_id` names no flight. */
  datatype DbError = IcaoTooLong | MissingFlight

  /** One element of the list handed to `upsert_flights`. */
  datatype FlightRecord = FlightRecord(icao: string, startTime: int, endTime: int)

  /** The store after `upsert_flight`, its action and the id of the flight row. */
  datatype Upserted = Upserted(store: Store, action: Action, flightId: nat)

  /** The per-action counters of `upsert_flights` (`notChanged` counts
      `unchanged`, a Dafny keyword). */
  datatype Counts = Counts(inserted: nat, updated: nat, notChanged: nat)

  datatype BatchReport = BatchReport(store: Store, counts: Counts)

  /** A batch stopped by an error: every record before it was committed. */
  datatype BatchFailure = BatchFailure(committed: Store, error: DbError)

  /** The store after replacing or deleting telemetry, and the row count the
      source returns. */
  datatype Changed = Changed(store: Store, count: nat)

  /** The result of `upsert_flight_with_telemetry`. */
  datatype UpsertedWithTelemetry = UpsertedWithTelemetry(store: Store, action: Action, flightId: nat, telemetryCount: nat)

  // ---------------------------------------------------------------------------
  // Looking a flight up by its key

  predicate HasKey(flights: seq<Flight>, icao: string, startTime: int) {
    exists j :: 0 <= j < |flights| && SameKey(flights[j], icao, startTime)
  }

  /** The index of the first row with key (icao, startTime)
      (`query(Flight).filter_by(icao=…, start_time=…).first()`). */
  function FindFlight(flights: seq<Flight>, icao: string, startTime: int): (r: Option<nat>)
    ensures r.Some? ==> r.value < |flights| && SameKey(flights[r.value], icao, startTime)
    ensures r.Some? ==> forall j :: 0 <= j < r.value ==> !SameKey(flights[j], icao, startTime)
    ensures r.None? <==> !HasKey(flights, icao, startTime)
  {
    if flights == [] then None
    else if SameKey(flights[0], icao, startTime) then Some(0)
    else
      match FindFlight(flights[1..], icao, startTime)
      case None => None
      case Some(k) =>
        assert flights[k + 1] == flights[1..][k];
        Some(k + 1)
  }

  /** The stored `end_time` of the flight with key (icao, startTime), if any. */
  function StoredEnd(flights: seq<Flight>, icao: string, startTime: int): Option<int> {
    match FindFlight(flights, icao, startTime)
    case None => None
    case Some(j) => Some(flights[j].endTime)
  }

  /** Two tables that agree, row by row, on which rows have key (icao, startTime)
      find the same first row. */
  lemma FindFlightSameMatches(f: seq<Flight>, g: seq<Flight>, icao: string, startTime: int)
    requires |f| == |g|
    requires forall k :: 0 <= k < |f| ==> (SameKey(f[k], icao, startTime) <==> SameKey(g[k], icao, startTime))
    ensures FindFlight(f, icao, startTime) == FindFlight(g, icao, startTime)
  {
    var a := FindFlight(f, icao, startTime);
    var b := FindFlight(g, icao, startTime);
    if a.Some? {
      assert SameKey(g[a.value], icao, startTime);
    }
    if b.Some? {
      assert SameKey(f[b.value], icao, startTime);
    }
  }

  /** Appending a row leaves the first match in place, and is the match when
      there was none and the row has the key. */
  lemma {:induction false} FindFlightAppend(f: seq<Flight>, x: Flight, icao: string, startTime: int)
    ensures FindFlight(f + [x], icao, startTime) ==
            if HasKey(f, icao, startTime) then FindFlight(f, icao, startTime)
            else if SameKey(x, icao, startTime) then Some(|f|)
            else None
  {
    if f == [] {
      assert !HasKey(f, icao, startTime);
      assert [] + [x] == [x];
      assert [x][1..] == [];
    } else {
      var g := f + [x];
      assert g[1..] == f[1..] + [x];
      assert g[0] == f[0];
      FindFlightAppend(f[1..], x, icao, startTime);
      if !SameKey(f[0], icao, startTime) {
        assert HasKey(f, icao, startTime) <==> HasKey(f[1..], icao, startTime) by {
          if HasKey(f, icao, startTime) {
            var j :| 0 <= j < |f| && SameKey(f[j], icao, startTime);
            assert f[1..][j - 1] == f[j];
          }
          if HasKey(f[1..], icao, startTime) {
            var j :| 0 <= j < |f[1..]| && SameKey(f[1..][j], icao, startTime);
            assert f[j + 1] == f[1..][j];
          }
        }
      }
    }
  }

  // ---------------------------------------------------------------------------
  // upsert_flight

  /** The end time kept when `candidate` is submitted for a key whose stored
      end is `stored`: a later end wins, anything else leaves it. */
  function LaterEnd(stored: Option<int>, candidate: int): (r: int)
    ensures r >= candidate && (stored.Some? ==> r >= stored.value)
    ensures r == candidate || (stored.Some? && r == stored.value)
  {
    if stored.Some? && stored.value >= candidate then stored.value else candidate
  }

  /** `upsert_flight`: insert the flight when its key is absent, move its end
      later when the submitted end is strictly later, otherwise change
      nothing.  Inserting an `icao` longer than the column fails. */
  function UpsertFlight(s: Store, icao: string, startTime: int, endTime: int): (r: Result<Upserted, DbError>)
    ensures match r
            case Failure(e) => e == IcaoTooLong && !HasKey(s.flights, icao, startTime) && |icao| > MaxIcaoLength
            case Success(u) =>
              && (HasKey(s.flights, icao, startTime) || |icao| <= MaxIcaoLength)
              && u.store.telemetry == s.telemetry
              && (u.action == Inserted <==> !HasKey(s.flights, icao, startTime))
              && (u.action == Updated <==>
                    StoredEnd(s.flights, icao, startTime).Some? && endTime > StoredEnd(s.flights, icao, startTime).value)
              && (u.action == Unchanged ==> u.store == s)
  {
    match FindFlight(s.flights, icao, startTime)
    case Some(j) =>
      var existing := s.flights[j];
      if endTime > existing.endTime then
        Success(Upserted(s.(flights := s.flights[j := existing.(endTime := endTime)]), Updated, existing.id))
      else
        Success(Upserted(s, Unchanged, existing.id))
    case None =>
      if |icao| > MaxIcaoLength then Failure(IcaoTooLong)
      else Success(Upserted(Store(s.flights + [Flight(s.nextId, icao, startTime, endTime)], s.telemetry, s.nextId + 1),
                            Inserted, s.nextId))
  }

  /** What an upsert does to the flights table: an insert appends exactly the
      new flight under a fresh id, an update rewrites the end time of the one
      row with the key and nothing else; either way the reported id is the
      id of a row with the key. */
  lemma UpsertFlightEffect(s: Store, icao: string, startTime: int, endTime: int)
    requires UpsertFlight(s, icao, startTime, endTime).Success?
    ensures var u := UpsertFlight(s, icao, startTime, endTime).value;
            u.action == Inserted ==>
              && u.store.flights == s.flights + [Flight(s.nextId, icao, startTime, endTime)]
              && u.flightId == s.nextId
              && u.store.nextId == s.nextId + 1
    ensures var u := UpsertFlight(s, icao, startTime, endTime).value;
            u.action == Updated ==>
              exists j :: 0 <= j < |s.flights| && SameKey(s.flights[j], icao, startTime) &&
                u.flightId == s.flights[j].id &&
                u.store == s.(flights := s.flights[j := s.flights[j].(endTime := endTime)])
    ensures var u := UpsertFlight(s, icao, startTime, endTime).value;
            exists j :: 0 <= j < |u.store.flights| && u.store.flights[j].id == u.flightId &&
              SameKey(u.store.flights[j], icao, startTime)
  {
    var u := UpsertFlight(s, icao, startTime, endTime).value;
    match FindFlight(s.flights, icao, startTime)
    case Some(j) =>
      assert u.store.flights[j].id == u.flightId && SameKey(u.store.flights[j], icao, startTime);
    case None =>
      assert u.store.flights[|s.flights|].id == u.flightId && SameKey(u.store.flights[|s.flights|], icao, startTime);
  }

  /** After an upsert the key's stored end is the later of its old end and the
      submitted one, and every other key keeps its stored end. */
  lemma UpsertStoredEnds(s: Store, icao: string, startTime: int, endTime: int, icao': string, startTime': int)
    requires UpsertFlight(s, icao, startTime, endTime).Success?
    ensures var t := UpsertFlight(s, icao, startTime, endTime).value.store;
            StoredEnd(t.flights, icao', startTime') ==
              if icao' == icao && startTime' == startTime
              then Some(LaterEnd(StoredEnd(s.flights, icao, startTime), endTime))
              else StoredEnd(s.flights, icao', startTime')
  {
    var u := UpsertFlight(s, icao, startTime, endTime).value;
    match FindFlight(s.flights, icao, startTime)
    case Some(j) =>
      if u.action == Updated {
        var f := s.flights[j := s.flights[j].(endTime := endTime)];
        FindFlightSameMatches(s.flights, f, icao', startTime');
      }
    case None =>
      FindFlightAppend(s.flights, Flight(s.nextId, icao, startTime, endTime), icao', startTime');
  }

  /** Moving one row's end time keeps every constraint: keys, ids and icao
      codes are untouched. */
  lemma UpdateEndPreservesWellFormed(s: Store, j: nat, endTime: int)
    requires WellFormed(s) && j < |s.flights|
    ensures WellFormed(s.(flights := s.flights[j := s.flights[j].(endTime := endTime)]))
  {
    var t := s.(flights := s.flights[j := s.flights[j].(endTime := endTime)]);
    assert forall i :: 0 <= i < |s.flights| ==>
      t.flights[i].id == s.flights[i].id && t.flights[i].icao == s.flights[i].icao &&
      t.flights[i].startTime == s.flights[i].startTime;
    forall k | 0 <= k < |t.telemetry|
      ensures HasFlight(t, t.telemetry[k].flightId)
    {
      var i :| 0 <= i < |s.flights| && s.flights[i].id == s.telemetry[k].flightId;
      assert t.flights[i].id == s.flights[i].id;
    }
  }

  /** Appending a flight under the next id, with an absent key and a short
      enough icao, keeps every constraint. */
  lemma AppendFlightPreservesWellFormed(s: Store, icao: string, startTime: int, endTime: int)
    requires WellFormed(s) && !HasKey(s.flights, icao, startTime) && |icao| <= MaxIcaoLength
    ensures WellFormed(Store(s.flights + [Flight(s.nextId, icao, startTime, endTime)], s.telemetry, s.nextId + 1))
  {
    var t := Store(s.flights + [Flight(s.nextId, icao, startTime, endTime)], s.telemetry, s.nextId + 1);
    assert forall i :: 0 <= i < |s.flights| ==> t.flights[i] == s.flights[i];
    forall k | 0 <= k < |t.telemetry|
      ensures HasFlight(t, t.telemetry[k].flightId)
    {
      var i :| 0 <= i < |s.flights| && s.flights[i].id == s.telemetry[k].flightId;
      assert t.flights[i] == s.flights[i];
    }
  }

  /** An upsert keeps the store well formed: the new key was absent, the new id
      is fresh, ids of existing rows never change. */
  lemma UpsertFlightPreservesWellFormed(s: Store, icao: string, startTime: int, endTime: int)
    requires WellFormed(s)
    requires UpsertFlight(s, icao, startTime, endTime).Success?
    ensures WellFormed(UpsertFlight(s, icao, startTime, endTime).value.store)
  {
    match FindFlight(s.flights, icao, startTime)
    case Some(j) =>
      UpdateEndPreservesWellFormed(s, j, endTime);
    case None =>
      AppendFlightPreservesWellFormed(s, icao, startTime, endTime);
  }

  // ---------------------------------------------------------------------------
  // upsert_flights

  function Tally(c: Counts, a: Action): (r: Counts)
    ensures Total(r) == Total(c) + 1
  {
    match a
    case Inserted => c.(inserted := c.inserted + 1)
    case Updated => c.(updated := c.updated + 1)
    case Unchanged => c.(notChanged := c.notChanged + 1)
  }

  function Total(c: Counts): nat {
    c.inserted + c.updated + c.notChanged
  }

  /** `upsert_flights`: the records upserted one after another, each committed
      before the next, with one count per record. */
  function UpsertFlights(s: Store, batch: seq<FlightRecord>): (r: Result<BatchReport, BatchFailure>)
    ensures match r
            case Success(report) => Total(report.counts) == |batch| && report.store.telemetry == s.telemetry
            case Failure(stopped) => stopped.error == IcaoTooLong
    decreases |batch|
  {
    if batch == [] then Success(BatchReport(s, Counts(0, 0, 0)))
    else
      var f := batch[0];
      match UpsertFlight(s, f.icao, f.startTime, f.endTime)
      case Failure(e) => Failure(BatchFailure(s, e))
      case Success(u) =>
        match UpsertFlights(u.store, batch[1..])
        case Failure(bf) => Failure(bf)
        case Success(rest) => Success(BatchReport(rest.store, Tally(rest.counts, u.action)))
  }

  lemma {:induction false} FailedBatchHasLongIcao(s: Store, batch: seq<FlightRecord>)
    requires UpsertFlights(s, batch).Failure?
    ensures exists j :: 0 <= j < |batch| && |batch[j].icao| > MaxIcaoLength
    decreases |batch|
  {
    var f := batch[0];
    var r := UpsertFlight(s, f.icao, f.startTime, f.endTime);
    if r.Failure? {
      assert |batch[0].icao| > MaxIcaoLength;
    } else {
      var rest := batch[1..];
      FailedBatchHasLongIcao(r.value.store, rest);
      var j :| 0 <= j < |rest| && |rest[j].icao| > MaxIcaoLength;
      assert batch[j + 1] == rest[j];
    }
  }

  lemma {:induction false} ShortIcaoBatchSucceeds(s: Store, batch: seq<FlightRecord>)
    requires forall j :: 0 <= j < |batch| ==> |batch[j].icao| <= MaxIcaoLength
    ensures UpsertFlights(s, batch).Success?
    decreases |batch|
  {
    if batch != [] {
      var f := batch[0];
      var r := UpsertFlight(s, f.icao, f.startTime, f.endTime);
      var rest := batch[1..];
      assert forall j :: 0 <= j < |rest| ==> rest[j] == batch[j + 1];
      ShortIcaoBatchSucceeds(r.value.store, rest);
    }
  }

  /** A batch fails only on a record whose `icao` is too long for the column,
      so a batch of well-sized codes always succeeds. */
  lemma UpsertFlightsFailsOnlyOnLongIcao(s: Store, batch: seq<FlightRecord>)
    ensures UpsertFlights(s, batch).Failure? ==> exists j :: 0 <= j < |batch| && |batch[j].icao| > MaxIcaoLength
    ensures (forall j :: 0 <= j < |batch| ==> |batch[j].icao| <= MaxIcaoLength) ==> UpsertFlights(s, batch).Success?
  {
    if UpsertFlights(s, batch).Failure? {
      FailedBatchHasLongIcao(s, batch);
    }
    if forall j :: 0 <= j < |batch| ==> |batch[j].icao| <= MaxIcaoLength {
      ShortIcaoBatchSucceeds(s, batch);
    }
  }

  /** The end times a batch submits for one key, in batch order. */
  function EndsFor(batch: seq<FlightRecord>, icao: string, startTime: int): seq<int> {
    if batch == [] then []
    else
      (if batch[0].icao == icao && batch[0].startTime == startTime then [batch[0].endTime] else [])
      + EndsFor(batch[1..], icao, startTime)
  }

  /** The stored end after submitting `ends` one by one, starting from `stored`. */
  function FoldLaterEnd(stored: Option<int>, ends: seq<int>): Option<int>
    decreases |ends|
  {
    if ends == [] then stored else FoldLaterEnd(Some(LaterEnd(stored, ends[0])), ends[1..])
  }

  /** `FoldLaterEnd` is the maximum of the stored end and all submitted ends. */
  lemma {:induction false} FoldLaterEndIsMax(stored: Option<int>, ends: seq<int>)
    ensures FoldLaterEnd(stored, ends).Some? <==> stored.Some? || |ends| > 0
    ensures FoldLaterEnd(stored, ends).Some? ==>
              var m := FoldLaterEnd(stored, ends).value;
              && (stored.Some? ==> stored.value <= m)
              && (forall k :: 0 <= k < |ends| ==> ends[k] <= m)
              && ((stored.Some? && m == stored.value) || exists k :: 0 <= k < |ends| && ends[k] == m)
    decreases |ends|
  {
    if ends != [] {
      var next := Some(LaterEnd(stored, ends[0]));
      FoldLaterEndIsMax(next, ends[1..]);
      var m := FoldLaterEnd(stored, ends).value;
      forall k | 0 < k < |ends|
        ensures ends[k] <= m
      {
        assert ends[k] == ends[1..][k - 1];
      }
      if m != next.value {
        var k :| 0 <= k < |ends[1..]| && ends[1..][k] == m;
        assert ends[k + 1] == m;
      }
    }
  }

  /** Over a whole batch, each key's stored end is the maximum of its old end
      and the ends submitted for it; a key the batch does not mention keeps
      its stored end (or stays absent). */
  lemma {:induction false} UpsertFlightsStoredEnds(s: Store, batch: seq<FlightRecord>, icao: string, startTime: int)
    requires UpsertFlights(s, batch).Success?
    ensures StoredEnd(UpsertFlights(s, batch).value.store.flights, icao, startTime) ==
            FoldLaterEnd(StoredEnd(s.flights, icao, startTime), EndsFor(batch, icao, startTime))
    decreases |batch|
  {
    if batch != [] {
      var f := batch[0];
      var u := UpsertFlight(s, f.icao, f.startTime, f.endTime).value;
      var tail := UpsertFlights(u.store, batch[1..]);
      assert tail.Success? && UpsertFlights(s, batch).value.store == tail.value.store;
      UpsertStoredEnds(s, f.icao, f.startTime, f.endTime, icao, startTime);
      UpsertFlightsStoredEnds(u.store, batch[1..], icao, startTime);
      var rest := EndsFor(batch[1..], icao, startTime);
      if f.icao == icao && f.startTime == startTime {
        assert EndsFor(batch, icao, startTime) == [f.endTime] + rest;
        assert ([f.endTime] + rest)[1..] == rest;
      } else {
        assert EndsFor(batch, icao, startTime) == rest;
      }
    }
  }

  /** Every record of the batch is already stored with an end at least as late. */
  ghost predicate Absorbs(s: Store, batch: seq<FlightRecord>) {
    forall j :: 0 <= j < |batch| ==>
      StoredEnd(s.flights, batch[j].icao, batch[j].startTime).Some? &&
      batch[j].endTime <= StoredEnd(s.flights, batch[j].icao, batch[j].startTime).value
  }

  lemma {:induction false} EndsForHolds(batch: seq<FlightRecord>, j: nat)
    requires j < |batch|
    ensures batch[j].endTime in EndsFor(batch, batch[j].icao, batch[j].startTime)
  {
    if j > 0 {
      EndsForHolds(batch[1..], j - 1);
      assert batch[1..][j - 1] == batch[j];
    }
  }

  lemma UpsertFlightsAbsorbs(s: Store, batch: seq<FlightRecord>)
    requires UpsertFlights(s, batch).Success?
    ensures Absorbs(UpsertFlights(s, batch).value.store, batch)
  {
    var t := UpsertFlights(s, batch).value.store;
    forall j | 0 <= j < |batch|
      ensures StoredEnd(t.flights, batch[j].icao, batch[j].startTime).Some?
      ensures batch[j].endTime <= StoredEnd(t.flights, batch[j].icao, batch[j].startTime).value
    {
      var b := batch[j];
      var ends := EndsFor(batch, b.icao, b.startTime);
      UpsertFlightsStoredEnds(s, batch, b.icao, b.startTime);
      EndsForHolds(batch, j);
      FoldLaterEndIsMax(StoredEnd(s.flights, b.icao, b.startTime), ends);
    }
  }

  /** A batch whose every record is already absorbed reports every record
      unchanged and leaves the store as it is. */
  lemma {:induction false} AbsorbedBatchIsUnchanged(s: Store, batch: seq<FlightRecord>)
    requires Absorbs(s, batch)
    ensures UpsertFlights(s, batch) == Success(BatchReport(s, Counts(0, 0, |batch|)))
    decreases |batch|
  {
    if batch != [] {
      var f := batch[0];
      assert StoredEnd(s.flights, f.icao, f.startTime).Some?;
      assert UpsertFlight(s, f.icao, f.startTime, f.endTime) == Success(Upserted(s, Unchanged, UpsertFlight(s, f.icao, f.startTime, f.endTime).value.flightId));
      assert Absorbs(s, batch[1..]) by {
        forall j | 0 <= j < |batch[1..]|
          ensures StoredEnd(s.flights, batch[1..][j].icao, batch[1..][j].startTime).Some?
          ensures batch[1..][j].endTime <= StoredEnd(s.flights, batch[1..][j].icao, batch[1..][j].startTime).value
        {
          assert batch[1..][j] == batch[j + 1];
        }
      }
      AbsorbedBatchIsUnchanged(s, batch[1..]);
    }
  }

  /** Re-running a batch that succeeded changes nothing and reports every
      record unchanged. */
  lemma UpsertFlightsIdempotent(s: Store, batch: seq<FlightRecord>)
    requires UpsertFlights(s, batch).Success?
    ensures var t := UpsertFlights(s, batch).value.store;
            UpsertFlights(t, batch) == Success(BatchReport(t, Counts(0, 0, |batch|)))
  {
    UpsertFlightsAbsorbs(s, batch);
    AbsorbedBatchIsUnchanged(UpsertFlights(s, batch).value.store, batch);
  }

  lemma {:induction false} UpsertFlightsPreservesWellFormed(s: Store, batch: seq<FlightRecord>)
    requires WellFormed(s)
    requires UpsertFlights(s, batch).Success?
    ensures WellFormed(UpsertFlights(s, batch).value.store)
    decreases |batch|
  {
    if batch != [] {
      var f := batch[0];
      UpsertFlightPreservesWellFormed(s, f.icao, f.startTime, f.endTime);
      UpsertFlightsPreservesWellFormed(UpsertFlight(s, f.icao, f.startTime, f.endTime).value.store, batch[1..]);
    }
  }

  // ---------------------------------------------------------------------------
  // Telemetry

  /** `delete_flight_telemetry`: remove every row of the flight and report how
      many there were. */
  function DeleteFlightTelemetry(s: Store, flightId: nat): (r: Changed)
    ensures r.count == |RowsOf(s.telemetry, flightId)|
    ensures RowsOf(r.store.telemetry, flightId) == []
    ensures forall other :: other != flightId ==> RowsOf(r.store.telemetry, other) == RowsOf(s.telemetry, other)
    ensures r.store.flights == s.flights && r.store.nextId == s.nextId
  {
    var rows := WithoutFlight(s.telemetry, flightId);
    WithoutFlightRows(s.telemetry, flightId);
    Changed(s.(telemetry := rows), |s.telemetry| - |rows|)
  }

  /** `insert_telemetry`: an empty list changes nothing and reports 0;
      otherwise the flight's rows are deleted and the points stored in their
      place, in order.  Rows for a flight that does not exist violate the
      foreign key. */
  function InsertTelemetry(s: Store, flightId: nat, points: seq<TelemetryPoint>): (r: Result<Changed, DbError>)
    ensures points == [] ==> r == Success(Changed(s, 0))
    ensures points != [] ==> (r.Failure? <==> !HasFlight(s, flightId))
    ensures r.Failure? ==> r.error == MissingFlight
    ensures r.Success? && points != [] ==>
              && RowsOf(r.value.store.telemetry, flightId) == ToRows(flightId, points)
              && r.value.count == |points|
              && (forall other :: other != flightId ==> RowsOf(r.value.store.telemetry, other) == RowsOf(s.telemetry, other))
              && r.value.store.flights == s.flights && r.value.store.nextId == s.nextId
  {
    if points == [] then Success(Changed(s, 0))
    else if !HasFlight(s, flightId) then Failure(MissingFlight)
    else
      var cleared := DeleteFlightTelemetry(s, flightId).store;
      var rows := ToRows(flightId, points);
      var t := cleared.(telemetry := cleared.telemetry + rows);
      forall other
        ensures RowsOf(t.telemetry, other) == if other == flightId then rows else RowsOf(s.telemetry, other)
      {
        RowsOfAppend(cleared.telemetry, rows, other);
        RowsOfOwnRows(rows, flightId, other);
      }
      Success(Changed(t, |points|))
  }

  /** Replacing telemetry keeps the store well formed. */
  lemma InsertTelemetryPreservesWellFormed(s: Store, flightId: nat, points: seq<TelemetryPoint>)
    requires WellFormed(s)
    requires InsertTelemetry(s, flightId, points).Success?
    ensures WellFormed(InsertTelemetry(s, flightId, points).value.store)
  {
    if points != [] {
      var t := InsertTelemetry(s, flightId, points).value.store;
      var cleared := WithoutFlight(s.telemetry, flightId);
      assert t.telemetry == cleared + ToRows(flightId, points);
      forall k | 0 <= k < |t.telemetry|
        ensures HasFlight(t, t.telemetry[k].flightId)
      {
        if k < |cleared| {
          assert t.telemetry[k] == cleared[k];
          var i :| 0 <= i < |s.telemetry| && s.telemetry[i] == cleared[k];
        } else {
          assert t.telemetry[k].flightId == flightId;
        }
      }
    }
  }

  /** `upsert_flight_with_telemetry`: the upsert, then, whenever a non-empty
      list is given, a replacement of that flight's telemetry, whatever the
      action was. */
  function UpsertFlightWithTelemetry(s: Store, icao: string, startTime: int, endTime: int,
                                     telemetry: Option<seq<TelemetryPoint>>): (r: Result<UpsertedWithTelemetry, DbError>)
    ensures r.Success? <==> UpsertFlight(s, icao, startTime, endTime).Success?
    ensures r.Success? ==>
              var u := UpsertFlight(s, icao, startTime, endTime).value;
              && r.value.action == u.action
              && r.value.flightId == u.flightId
              && r.value.store.flights == u.store.flights
              && r.value.store.nextId == u.store.nextId
              && (forall other :: other != u.flightId ==> RowsOf(r.value.store.telemetry, other) == RowsOf(s.telemetry, other))
              && r.value.telemetryCount == (if telemetry.Some? then |telemetry.value| else 0)
              && (telemetry.None? || telemetry.value == [] ==> r.value.store == u.store)
              && (telemetry.Some? && telemetry.value != [] ==>
                    RowsOf(r.value.store.telemetry, u.flightId) == ToRows(u.flightId, telemetry.value))
  {
    match UpsertFlight(s, icao, startTime, endTime)
    case Failure(e) => Failure(e)
    case Success(u) =>
      if telemetry.Some? && telemetry.value != [] then
        UpsertFlightEffect(s, icao, startTime, endTime);
        var c := InsertTelemetry(u.store, u.flightId, telemetry.value).value;
        Success(UpsertedWithTelemetry(c.store, u.action, u.flightId, c.count))
      else
        Success(UpsertedWithTelemetry(u.store, u.action, u.flightId, 0))
  }

  /** The composed operation keeps the store well formed. */
  lemma UpsertFlightWithTelemetryPreservesWellFormed(s: Store, icao: string, startTime: int, endTime: int,
                                                     telemetry: Option<seq<TelemetryPoint>>)
    requires WellFormed(s)
    requires UpsertFlightWithTelemetry(s, icao, startTime, endTime, telemetry).Success?
    ensures WellFormed(UpsertFlightWithTelemetry(s, icao, startTime, endTime, telemetry).value.store)
  {
    UpsertFlightPreservesWellFormed(s, icao, startTime, endTime);
    var u := UpsertFlight(s, icao, startTime, endTime).value;
    if telemetry.Some? && telemetry.value != [] {
      UpsertFlightEffect(s, icao, startTime, endTime);
      InsertTelemetryPreservesWellFormed(u.store, u.flightId, telemetry.value);
    }
  }

  // ---------------------------------------------------------------------------
  // get_last_ingested_date

  /** The latest UTC start day of the aircraft's flights, or None when it has
      none (`max(date(start_time))` filtered by icao). */
  function LastIngestedDay(flights: seq<Flight>, icao: string): (r: Option<int>)
    ensures r.None? <==> forall k :: 0 <= k < |flights| ==> flights[k].icao != icao
    ensures r.Some? ==>
              && (exists k :: 0 <= k < |flights| && flights[k].icao == icao && DayOf(flights[k].startTime) == r.value)
              && (forall k :: 0 <= k < |flights| && flights[k].icao == icao ==> DayOf(flights[k].startTime) <= r.value)
  {
    if flights == [] then None
    else
      var rest := LastIngestedDay(flights[1..], icao);
      assert forall k :: 0 < k < |flights| ==> flights[k] == flights[1..][k - 1];
      if flights[0].icao != icao then rest
      else
        var d := DayOf(flights[0].startTime);
        if rest.Some? && rest.value > d then rest else Some(d)
  }

  /** The least of the known days, None when none is known. */
  function EarliestKnown(days: seq<Option<int>>): (r: Option<int>)
    ensures r.None? <==> forall a :: 0 <= a < |days| ==> days[a].None?
    ensures r.Some? ==>
              && (exists a :: 0 <= a < |days| && days[a] == r)
              && (forall a :: 0 <= a < |days| && days[a].Some? ==> r.value <= days[a].value)
  {
    if days == [] then None
    else
      var rest := EarliestKnown(days[1..]);
      assert forall a :: 0 < a < |days| ==> days[a] == days[1..][a - 1];
      match days[0]
      case None => rest
      case Some(d) => if rest.Some? && rest.value < d then rest else Some(d)
  }

  /** The earliest of the tracked aircraft's last days, over the aircraft that
      have flights; None when none of them has any. */
  function Frontier(flights: seq<Flight>, tracked: seq<string>): (r: Option<int>)
    ensures r.None? <==> forall a :: 0 <= a < |tracked| ==> LastIngestedDay(flights, tracked[a]).None?
    ensures r.Some? ==>
              && (exists a :: 0 <= a < |tracked| && LastIngestedDay(flights, tracked[a]) == r)
              && (forall a :: 0 <= a < |tracked| && LastIngestedDay(flights, tracked[a]).Some? ==>
                    r.value <= LastIngestedDay(flights, tracked[a]).value)
  {
    var days := seq(|tracked|, a requires 0 <= a < |tracked| => LastIngestedDay(flights, tracked[a]));
    assert forall a :: 0 <= a < |tracked| ==> days[a] == LastIngestedDay(flights, tracked[a]);
    EarliestKnown(days)
  }

  /** `get_last_ingested_date`: for a given non-empty icao, that aircraft's
      last day; otherwise (no icao, or the empty string, which Python treats
      as false) the frontier over the tracked aircraft. */
  function GetLastIngestedDate(s: Store, icao: Option<string>, tracked: seq<string>): (r: Option<int>)
    ensures icao.Some? && icao.value != "" ==>
              && (r.None? <==> forall k :: 0 <= k < |s.flights| ==> s.flights[k].icao != icao.value)
              && (r.Some? ==> forall k :: 0 <= k < |s.flights| && s.flights[k].icao == icao.value ==>
                                DayOf(s.flights[k].startTime) <= r.value)
              && (r.Some? ==> exists k :: 0 <= k < |s.flights| && s.flights[k].icao == icao.value &&
                                DayOf(s.flights[k].startTime) == r.value)
    ensures icao.None? || icao.value == "" ==>
              && (r.None? <==> forall a :: 0 <= a < |tracked| ==> LastIngestedDay(s.flights, tracked[a]).None?)
              && (r.Some? ==> exists a :: 0 <= a < |tracked| && LastIngestedDay(s.flights, tracked[a]) == r)
              && (r.Some? ==> forall a :: 0 <= a < |tracked| && LastIngestedDay(s.flights, tracked[a]).Some? ==>
                                r.value <= LastIngestedDay(s.flights, tracked[a]).value)
  {
    if icao.Some? && icao.value != "" then LastIngestedDay(s.flights, icao.value)
    else Frontier(s.flights, tracked)
  }
}
