# cpd-helicopter flight tracker — a Dafny model of its core

cpd-helicopter records the flights of a few tracked aircraft. It fetches each
aircraft's daily ADS-B trace, cuts the trace into flight legs, and upserts the
legs into a `flights` table keyed by (icao, start time). Each flight's
telemetry goes into a `flight_telemetry` table. A CSV import loads flights from
files. A backfill pass fetches the traces again for stored flights that lack
telemetry and attaches the nearest leg's points.

This project models that core as pure functions over immutable values:

- **Time.** Instants are integer epoch seconds. The UTC day of an instant is
  `t / 86400`. A civil `Date` exists only for the date-range walk and for the
  CSV rollover.
- **Modules.**
  - `Calendar`: dates, day numbers and the successor day.
  - `Models`: the two tables and their constraints (`WellFormed`).
  - `Scraper`: segmentation, the day filter and the date range.
  - `Database`: upserts, telemetry replacement and the ingestion frontier.
  - `CsvImport`: the file-name rule and the CSV rollover.
  - `Sync`: fetch, de-duplicate, sort and upsert.
  - `Backfill`: grouping and the nearest-leg matcher.
  - `Wrappers` supplies `Option`/`Result`.
- **Errors.** A database error is a `Failure`. Two errors are modelled: an
  icao longer than the `String(6)` column, and telemetry for a flight id that
  does not exist. A batch stops at its first error, and every earlier record
  stays committed, as each upsert commits on its own.
- **Inputs.** Trace fetching is a parameter `fetch: (icao, day) -> Option<RawTrace>`.
  `None` stands for a fetch or parse that raises. The parser that sync and
  backfill call is the parameter `p: Parser`. `AsWritten` is the code as it stands;
  `Corrected` attaches each leg's samples (see Findings). Likewise the
  CSV import takes a `Rollover` rule: the code's `AsWritten` or the intended
  `Corrected`.

## Model

| member | source | states |
|---|---|---|
| `Scraper.SegmentSpans` | src/scraper.py:83-117 | The scan loop with its open leg and final flush yields exactly the recursive segmentation `Segments`. |
| `Scraper.SegmentsIsSegmentation` | src/scraper.py:86-117 | The cut obeys the segmentation rule. No span has a gap inside. Each later span opens at a gap, and the last span ends at the last sample. An empty trace has no spans. |
| `Scraper.SegmentationIsUnique` | src/scraper.py:86-117 | Any cut that obeys the rule is the one the scan produces. |
| `Scraper.SegmentsTileTrace` | src/scraper.py:91-104 | The spans of a non-empty trace tile its indices: contiguous, in order, from 0 to the last index. A new span begins exactly at each gap, so a difference equal to the threshold never splits. |
| `Scraper.SpansIncrease` | src/scraper.py:91-102 | A span ends before any later span begins, so no index lies in two spans. |
| `Scraper.SegmentCount` | src/scraper.py:86-104 | The number of spans is 0 for an empty trace, otherwise 1 + the number of gaps (differences strictly above the threshold). |
| `Scraper.FlightLegCount` | src/scraper.py:77-117 | The number of legs is 0 when the trace is empty or missing, otherwise 1 + the number of gaps. A non-empty trace always yields a leg. |
| `Scraper.FlightLegsFollowSegmentation` | src/scraper.py:77-81 | The legs are exactly the legs of any valid segmentation. There are no legs iff the trace list is empty or missing. |
| `Scraper.SingleSampleLeg` | src/scraper.py:106-117 | A one-sample trace gives one leg whose start equals its end, at base + offset. |
| `Scraper.LegsAreOrdered` | src/scraper.py:93-116 | With non-decreasing offsets, every leg starts no later than it ends. |
| `Scraper.LegsAreSeparated` | src/scraper.py:90-102 | With non-decreasing offsets and a non-negative threshold, each leg starts strictly after the previous one ends. |
| `Scraper.LegStartsIncrease` | src/scraper.py:86-117 | Under the same conditions, leg start times strictly increase. |
| `Scraper.FlightLegsAsWritten` | src/scraper.py:66-119 | The parser as written gives the same legs, in the same order, with the same start and end, but every leg's telemetry is empty. |
| `Scraper.LegTelemetryCoversTrace` | src/scraper.py:86-117 | Corrected parser: the legs' telemetry, concatenated in leg order, is every sample of the trace decoded in order. No leg's telemetry is empty. |
| `Scraper.ParsedTelemetry` | src/main.py:211 | A leg's telemetry is empty iff the parser is the one as written. |
| `Scraper.LegsStartingOnDays` | src/scraper.py:147-156 | A leg is kept iff it is an input leg whose UTC start day lies in the window, and nothing is added. |
| `Scraper.LegsStartingOnDaysAppend` | src/scraper.py:147-156 | Filtering keeps input order: filtering a concatenation concatenates the filtered parts. |
| `Scraper.MidnightInWindow` | src/scraper.py:150-153 | The midnight of a start lies between the window's first midnight and 23:59:59 of its last day iff the start's day lies in the window. |
| `Scraper.KeepStartingBetweenIsDayFilter` | src/scraper.py:147-156 | The loop that compares truncated starts with the window's instants is the day-window filter. |
| `Scraper.FilterKeepsLegsStartingInWindow` | src/scraper.py:138-156 | `filter_legs_by_date_range` keeps exactly the legs starting on a day from the start date to the end date, in order. A missing end date means the start date. |
| `Scraper.DatesFromWalksDays` | src/scraper.py:174-176 | The walk lists consecutive day numbers from the current date to the end. It lists none when the end comes first. It fails only when it must step past 9999-12-31. |
| `Scraper.DatesFromEnds` | src/scraper.py:170-178 | A non-empty walk starts at the start date and ends at the end date. |
| `Scraper.GetDateRange` | src/scraper.py:170-178 | The range has DayNumber(end) − DayNumber(start) + 1 days, or none when end < start. Element k is start + k days, so it crosses month and year ends. The end defaults to the start. It is None exactly when the walk overflows at 9999-12-31. |
| `Calendar.TruncateToDay` | src/scraper.py:150-152 | The midnight of an instant is at or before it, less than a day earlier, and is that day's midnight. |
| `Calendar.NextDayIsSuccessor` | src/scraper.py:176 | Adding one day advances the day number by exactly one, across month and year ends. Only 9999-12-31 has no successor. |
| `Calendar.DayNumberInjective` | src/scraper.py:171-176 | Distinct valid dates have distinct day numbers, so the walk's dates are distinct. |
| `Models.WithoutFlightRows` | src/database.py:165-167 | Deleting a flight's rows leaves it none. Every other flight keeps exactly its rows, in order. The number removed is the number it had. |
| `Models.ToRow` | src/database.py:192-207 | A stored row keeps the point's flight id, timestamp and position. A missing `altitude_ground` is stored as False. |
| `Models.FlightsWithoutKeepsKeys` | src/models.py:28 | Removing a flight row keeps (icao, start_time) unique. |
| `Models.FlightsWithoutKeepsIds` | src/models.py:18 | Removing a flight row keeps ids unique. |
| `Models.DeleteFlightCascades` | src/models.py:25-42 | Deleting a flight removes every telemetry row referring to it and leaves other flights' rows as they were. The store stays well formed, which includes the foreign key. |
| `Database.FindFlight` | src/database.py:84-86 | The lookup returns the first row with the key, or None iff no row has it. |
| `Database.FindFlightAppend` | src/database.py:122-124 | After an append, the lookup still finds the old first match. It finds the new row only when the key was absent. |
| `Database.UpsertFlight` | src/database.py:84-126 | `inserted` iff the key is absent. `updated` iff the key is stored with a strictly earlier end. `unchanged` leaves the store identical. Telemetry is untouched. Failure happens only on inserting an icao longer than 6. |
| `Database.UpsertFlightEffect` | src/database.py:88-126 | An insert appends exactly the new flight under a new id. An update rewrites only the end time of the keyed row. Either way the reported id is that of a row with the key. |
| `Database.UpsertStoredEnds` | src/database.py:88-99 | After an upsert, the key's stored end is the later of the old end and the submitted one. Every other key keeps its stored end. |
| `Database.UpsertFlightPreservesWellFormed` | src/database.py:84-126 | An upsert keeps keys unique, ids unique and below the next id, icao within 6 characters, and the foreign key intact. |
| `Database.UpsertFlights` | src/database.py:140-151 | The inserted, updated and unchanged counts sum to the batch length. Telemetry is untouched. A failure is the icao-length error. |
| `Database.UpsertFlightsFailsOnlyOnLongIcao` | src/database.py:140-151 | A batch fails only if some record's icao is longer than 6. With all icaos short, it succeeds. |
| `Database.FoldLaterEndIsMax` | src/database.py:90-92 | Folding "later end wins" over a sequence of ends gives their maximum, which includes the stored end. |
| `Database.UpsertFlightsStoredEnds` | src/database.py:90-92 | After a batch, each key's stored end is the maximum of its old end and every end submitted for it. Keys absent from the batch keep theirs. |
| `Database.UpsertFlightsAbsorbs` | src/database.py:140-151 | After a batch, every record in it is stored with an end no earlier than its own. |
| `Database.AbsorbedBatchIsUnchanged` | src/database.py:97-99 | A batch whose records are all stored with ends at least as late reports all `unchanged` and leaves the store as it was. |
| `Database.UpsertFlightsIdempotent` | src/database.py:140-151 | Upserting the same batch a second time changes nothing and reports every record unchanged. |
| `Database.UpsertFlightsPreservesWellFormed` | src/database.py:140-151 | A successful batch keeps the store well formed. |
| `Database.DeleteFlightTelemetry` | src/database.py:165-167 | The count returned is the number of rows the flight had. The flight is left with none. Other flights' rows and the flights table are unchanged. |
| `Database.InsertTelemetry` | src/database.py:184-214 | An empty list changes nothing and returns 0. Otherwise the flight's rows become exactly the given points, in order, and the count is their number. Other flights are untouched. Rows for a missing flight violate the foreign key. |
| `Database.InsertTelemetryPreservesWellFormed` | src/models.py:42 | Replacing telemetry keeps every row pointing at an existing flight. |
| `Database.UpsertFlightWithTelemetry` | src/database.py:237-247 | The upsert's action and id pass through. A non-empty list replaces that flight's rows even when the action is `unchanged`. Every other flight keeps exactly its rows. `telemetry_count` is 0 for None or empty. |
| `Database.UpsertFlightWithTelemetryPreservesWellFormed` | src/database.py:237-247 | The composed operation keeps the store well formed. |
| `Database.LastIngestedDay` | src/database.py:43-48 | The result is the latest UTC start day among the aircraft's flights, or None iff it has none. |
| `Database.EarliestKnown` | src/database.py:54-63 | The result is the least of the known days, or None iff none is known. |
| `Database.Frontier` | src/database.py:52-63 | The result is the earliest of the tracked aircraft's last days, over those that have flights. It is None iff none of them has any. |
| `Database.GetLastIngestedDate` | src/database.py:43-63 | With a non-empty icao, the result is that aircraft's latest day. Otherwise (None or the empty string) it is the frontier over the tracked aircraft. |
| `CsvImport.ExtractIcaoFromFilename` | src/main.py:79-80 | Some iff the lower-cased name begins with 6 characters from [0-9a-f] followed by `_`. The value is those 6 characters, lower-cased. |
| `CsvImport.IcaoFilenameRoundTrip` | src/main.py:79-80 | A code written at the head of a file name, in either case and followed by `_`, is recovered exactly. |
| `CsvImport.RowTimes` | src/main.py:107-121 | Corrected rule. The start is the date plus the start clock. An earlier end clock falls on the next calendar day. The flight then lasts less than a day and its end keeps the end clock. The only failures are an invalid field, or a rollover past 9999-12-31. |
| `CsvImport.RowTimesAgreeBeforeMonthEnd` | src/main.py:119-121 | Before a month's last day, the rule as written and the corrected rule agree. |
| `CsvImport.RolloverFailsAtMonthEnd` | src/main.py:119-121 | On a month's last day, a rollover row fails as written but succeeds under the corrected rule. |
| `CsvImport.NewYearRolloverExample` | src/main.py:119-121 | 2025-12-31 23:30:00–00:30:00 is rejected as written. Corrected, it is one hour long. |
| `CsvImport.ParseCsvRows` | src/main.py:98-129 | Under either rollover rule, the parse succeeds iff every row does under that rule. It then gives one record per row, in order, with the given icao and that row's start and end. Otherwise it fails with the error of the first row that fails. |
| `CsvImport.AsWrittenAcceptedAgrees` | src/main.py:113-121 | A row that the rule as written accepts gets exactly the same times under the corrected rule. |
| `CsvImport.CorrectedRecordsLastUnderADay` | src/main.py:113-121 | Under the corrected rule, every imported flight ends within a day of its start, at the row's end clock. |
| `CsvImport.ParseAsWrittenAgrees` | src/main.py:98-129 | Whenever `parse_csv_file` as written imports a file, the corrected rule imports the same flights. A file with a rollover row on a month's last day (other than 9999-12-31) fails as written. |
| `Sync.DayLegs` | src/main.py:189-192 | A failed fetch gives no legs. Otherwise the legs are exactly the parsed legs of that day's trace that start on that UTC day, in trace order. |
| `Sync.DedupKeepsFirstOccurrences` | src/main.py:200-212 | De-duplication keeps an order-preserving subsequence. Each kept leg is the first with its start, and no start is already seen. Kept starts are distinct and cover every unseen start. |
| `Sync.DedupAppend` | src/main.py:184-212 | De-duplicating a concatenation is de-duplicating the first part, then the second against the starts seen in the first. |
| `Sync.FetchFromIsDedup` | src/main.py:183-219 | The per-date loop with its growing seen-set is one de-duplication of all the dates' legs, projected to flight records. |
| `Sync.FetchFlightsDistinctStarts` | src/main.py:183-219 | An aircraft's fetched flights have pairwise distinct starts. They keep the first occurrence of each start and the input order, and they cover every candidate start. |
| `Sync.FailedDateContributesNothing` | src/main.py:213-217 | A date whose fetch fails contributes nothing and does not affect the later dates. |
| `Sync.SortByStartSorts` | src/main.py:254 | The sorted list is ordered by start time and is a permutation of the input. |
| `Sync.ProcessFlights` | src/main.py:264-274 | The action counts of the upsert loop sum to the number of flights. A failure is the icao-length error. |
| `Sync.ProcessWithoutTelemetryIsBatchUpsert` | src/main.py:264-274 | With telemetry capture off, the loop is exactly `upsert_flights` on the same records and stores no points. |
| `Sync.ProcessWithoutPointsKeepsTelemetry` | src/main.py:264-274 | When no flight carries points, the telemetry table is untouched and the point total is 0. |
| `Sync.ProcessFlightsPreservesWellFormed` | src/main.py:264-274 | Both the final store and the store committed before a failure are well formed. |
| `Sync.SyncFlights` | src/main.py:237-274 | An overflowing date range is the only failure before any write. On success the counts sum to the number of fetched flights. No flights leaves the store unchanged. |
| `Sync.SyncUpsertsInStartOrder` | src/main.py:254-274 | `sync_flights` upserts a permutation of the fetched flights in non-decreasing start order. |
| `Sync.SyncPreservesWellFormed` | src/main.py:237-274 | A sync keeps the store well formed, including the part committed before a failure. |
| `Sync.AllFlightsAsParsed` | src/main.py:244-247 | The telemetry each collected flight carries is what the parser attached: none when capture is off. |
| `Sync.SyncAsWrittenStoresNoTelemetry` | src/main.py:210-211 | With the parser as written, a sync never changes the telemetry table and reports 0 points. |
| `Sync.SyncCorrectedCarriesTelemetry` | src/main.py:210-211 | With the corrected parser and capture on, every flight handed to the upsert carries non-empty telemetry. |
| `Backfill.AddToGroupsEffect` | src/main.py:311 | `setdefault(key, []).append(f)` appends f to its key's group, or opens that group at the end. Other groups are unchanged. |
| `Backfill.GroupFlightsPartitions` | src/main.py:307-311 | Group keys are distinct. Each group holds exactly the pending flights with its (icao, UTC day) key, in order, and is non-empty. Every pending flight has a group. |
| `Backfill.GroupedIdsAreUnique` | src/main.py:307-311 | With distinct pending ids, no flight id lies in two groups or twice in one. |
| `Backfill.BestLegIsFirstNearest` | src/main.py:338-346 | The strict `<` scan picks a leg at minimal distance from the flight's start, earlier than every other such leg. It is the only leg with that property. |
| `Backfill.Decide` | src/main.py:338-350 | Telemetry is written iff the first leg nearest the flight's start (per `IsFirstNearest`) is within 60 seconds and has telemetry. The points written are that leg's. |
| `Backfill.BackfillFlightsTallies` | src/main.py:348-353 | Within a group, `matched_flights` grows by the number of decided flights and `total_telemetry` by their points. |
| `Backfill.BackfillFlightsWrites` | src/main.py:338-363 | Within a group, each flight ends with its decided telemetry, or keeps its rows. The flights table and other flights' rows are unchanged. |
| `Backfill.GroupWritesOwnFlights` | src/main.py:319-334 | One group writes only its own flights. A group whose trace gives no legs changes nothing. |
| `Backfill.BackfillGroupsWrites` | src/main.py:319-363 | Over all groups, each grouped flight ends with its decided telemetry, and ungrouped ids keep their rows. |
| `Backfill.BackfillWritesMatchedFlights` | src/main.py:298-363 | After the backfill, each pending flight has exactly the telemetry its group's legs decide. Every other flight keeps its rows, and the flights table is unchanged. |
| `Backfill.BackfillSucceedsOnStoredFlights` | src/main.py:351 | When every pending flight is stored, no telemetry insert fails. |
| `Backfill.BackfillAsWrittenMatchesNothing` | src/main.py:348-363 | With the parser as written, the backfill matches nothing and leaves the store unchanged. |

## Left out

- Fetching traces (`fetch_trace_data`: browser automation and network) is the
  `fetch` parameter. `get_yesterday` reads the wall clock and is not modelled.
- `get_flights_without_telemetry` is not part of this model. Its body is not
  in `src/database.py`. The backfill takes the pending flights as a parameter.
- Sessions, `init_db`, `get_db`, and the `created_at`/`updated_at` server
  timestamps are not modelled. Each operation returns the whole new store
  instead of committing it.
- The concurrent ON CONFLICT path of `upsert_flight` (src/database.py:108-116)
  is not modelled. The model is sequential, so the lookup just before the
  insert has already ruled out a conflicting row.
- argparse, CSV file reading, printing, `asyncio.run` and the
  `backfill_from_csv` glue are not modelled. So are the analytics notebook
  and the export script.
- `strptime`/`strftime` string parsing is not modelled. CSV rows arrive as
  parsed `Date` and `Clock` values, and dates as `Date`. A field `strptime`
  rejects is the single error `InvalidField`.
- Offsets and instants are whole seconds. Sub-second offsets, microseconds
  and the float `total_seconds()` in the matcher are not modelled.
  Latitude, longitude and the other float columns are opaque values.
- The start-time de-dup key is the integer instant. It stands for
  `isoformat()` of a UTC datetime, which is injective on those instants.
- Database.LastIngestedDay, Database.Frontier, Database.GetLastIngestedDate:
  the day of a start is its UTC day. The source takes `func.date` of a
  time-zone-aware column, which gives the date in the database session's time
  zone. The model assumes that zone is UTC.
- Backfill groups use the UTC day of the stored start. This assumes the
  database returns start times in UTC.
- `config.py` is not modelled. The tracked aircraft are a parameter of
  `get_last_ingested_date`.
- Lower-casing in the file-name rule maps only A–Z. No other character
  lower-cases into `[0-9a-f_]`.
- Sync.SortByStartSorts: stability of Python's sort for equal start times is
  not stated. The insertion sort is stable, but only order and permutation
  are proved.
- Backfill.BackfillWritesMatchedFlights: the sums of `matched_flights` and
  `total_telemetry` over all groups are not stated. The per-group sums are
  stated by `Backfill.BackfillFlightsTallies`.

## Findings

| source | as written | input that shows it | evidently intended | confidence | as-written member | corrected member |
|---|---|---|---|---|---|---|
| src/scraper.py:92-117 | `parse_flight_legs` builds legs with only `start_time` and `end_time`. So `leg.get('telemetry', [])` at src/main.py:211 and src/main.py:349 is always empty. Sync stores no telemetry, and backfill never matches. | Any trace with at least one sample, e.g. one sample at offset 0. | Each leg carries its own samples, decoded, so that sync and backfill store them. | not executed | `Scraper.FlightLegsAsWritten`, `Sync.SyncAsWrittenStoresNoTelemetry`, `Backfill.BackfillAsWrittenMatchesNothing` | `Scraper.FlightLegs` (`Scraper.LegTelemetryCoversTrace`, `Sync.SyncCorrectedCarriesTelemetry`) |
| src/main.py:119-121 | The midnight rollover does `end_time.replace(day=end_time.day + 1)`. On a month's last day this raises ValueError. | Row `2025-12-31, 23:30:00, 00:30:00`. | The end moves to the next calendar day, across month and year ends. | not executed | `CsvImport.RowTimesAsWritten` (`CsvImport.NewYearRolloverExample`, `CsvImport.RolloverFailsAtMonthEnd`) | `CsvImport.RowTimes` |
