/** The CSV import rules: recognising an aircraft code at the head of a file
    name, and turning a row (date, start clock, end clock) into a flight
    whose end rolls over to the next day when it is earlier than its start. */
module CsvImport {
  import opened Wrappers
  import opened Calendar
  import opened Database

  // ---------------------------------------------------------------------------
  // extract_icao_from_filename

  /** A character of the class `[a-f0-9]`. */
  predicate IsHexDigit(c: char) {
    '0' <= c <= '9' || 'a' <= c <= 'f'
  }

  /** Lower-casing of one character.  Only A-Z are mapped; no other character
      lower-cases to a member of `[a-f0-9_]`, so the match below does not
      depend on how the rest of Unicode is lower-cased. */
  function LowerChar(c: char): char {
    if 'A' <= c <= 'Z' then (c as int + 32) as char else c
  }

  function Lower(s: string): (r: string)
    ensures |r| == |s|
    ensures forall i :: 0 <= i < |s| ==> r[i] == LowerChar(s[i])
  {
    seq(|s|, i requires 0 <= i < |s| => LowerChar(s[i]))
  }

  /** A stored aircraft code: six lower-case hex digits. */
  predicate IsIcaoCode(code: string) {
    |code| == 6 && forall i :: 0 <= i < 6 ==> IsHexDigit(code[i])
  }

  /** `re.match(r'^([a-f0-9]{6})_', filename.lower())`, group 1. */
  function ExtractIcaoFromFilename(filename: string): (r: Option<string>)
    ensures r.Some? <==>
              |filename| >= 7 && filename[6] == '_' &&
              forall i :: 0 <= i < 6 ==> IsHexDigit(LowerChar(filename[i]))
    ensures r.Some? ==> IsIcaoCode(r.value) && r.value == Lower(filename[..6])
  {
    var lowered := Lower(filename);
    if |lowered| >= 7 && (forall i :: 0 <= i < 6 ==> IsHexDigit(lowered[i])) && lowered[6] == '_'
    then Some(lowered[..6])
    else None
  }

  function UpperChar(c: char): char {
    if 'a' <= c <= 'z' then (c as int - 32) as char else c
  }

  function Upper(s: string): (r: string)
    ensures |r| == |s|
    ensures forall i :: 0 <= i < |s| ==> r[i] == UpperChar(s[i])
  {
    seq(|s|, i requires 0 <= i < |s| => UpperChar(s[i]))
  }

  /** A code written at the head of a file name, in lower or upper case,
      followed by `_` and anything, is recovered exactly. */
  lemma IcaoFilenameRoundTrip(code: string, rest: string)
    requires IsIcaoCode(code)
    ensures ExtractIcaoFromFilename(code + "_" + rest) == Some(code)
    ensures ExtractIcaoFromFilename(Upper(code) + "_" + rest) == Some(code)
  {
    var f := code + "_" + rest;
    assert f[..6] == code;
    assert Lower(f[..6]) == code;
    var g := Upper(code) + "_" + rest;
    assert forall i :: 0 <= i < 6 ==> g[i] == UpperChar(code[i]);
    assert Lower(g[..6]) == code;
  }

  // ---------------------------------------------------------------------------
  // The rollover rule of parse_csv_file

  /** A wall-clock time as `%H:%M:%S` parses it. */
  datatype Clock = Clock(hour: int, minute: int, second: int)

  predicate ValidClock(c: Clock) {
    0 <= c.hour < 24 && 0 <= c.minute < 60 && 0 <= c.second < 60
  }

  function SecondOfDay(c: Clock): int {
    c.hour * 3600 + c.minute * 60 + c.second
  }

  /** One CSV row: `Date`, `Start Time (UTC)`, `End Time (UTC)`. */
  datatype CsvRow = CsvRow(date: Date, start: Clock, end: Clock)

  /** A field `strptime` rejects; a `day` that `replace` rejects; a date past
      9999-12-31. */
  datatype CsvError = InvalidField | DayOutOfRange | DateOverflow

  /** The start and end instants of a row. */
  datatype Interval = Interval(startTime: int, endTime: int)

  /** An instant `secs` seconds into day n falls on day n, at that second. */
  lemma InstantOfDay(n: int, secs: int)
    requires 0 <= secs < SecondsPerDay
    ensures DayOf(Midnight(n) + secs) == n
    ensures (Midnight(n) + secs) % SecondsPerDay == secs
  {
    assert Midnight(n) + secs == n * SecondsPerDay + secs;
  }

  lemma ClockInDay(c: Clock)
    requires ValidClock(c)
    ensures 0 <= SecondOfDay(c) < SecondsPerDay
  {
  }

  predicate ValidRow(row: CsvRow) {
    ValidDate(row.date) && ValidClock(row.start) && ValidClock(row.end)
  }

  /** The rollover as written: an end earlier than the start is moved to the
      same clock time on day-of-month + 1 of the same month, which is not a
      date on the last day of a month. */
  function RowTimesAsWritten(row: CsvRow): (r: Result<Interval, CsvError>)
  {
    if !ValidRow(row) then Failure(InvalidField)
    else
      var midnight := Midnight(DayNumber(row.date));
      var start := midnight + SecondOfDay(row.start);
      var end := midnight + SecondOfDay(row.end);
      if end < start then
        var moved := Date(row.date.year, row.date.month, row.date.day + 1);
        if ValidDate(moved) then Success(Interval(start, Midnight(DayNumber(moved)) + SecondOfDay(row.end)))
        else Failure(DayOutOfRange)
      else Success(Interval(start, end))
  }

  /** The rollover as intended: an end earlier than the start is on the next
      calendar day, across month and year ends. */
  function RowTimes(row: CsvRow): (r: Result<Interval, CsvError>)
    ensures r.Failure? <==> !ValidRow(row) || (SecondOfDay(row.end) < SecondOfDay(row.start) && row.date == MaxDate)
    ensures r.Success? ==>
              && r.value.startTime == Midnight(DayNumber(row.date)) + SecondOfDay(row.start)
              && DayOf(r.value.startTime) == DayNumber(row.date)
              && r.value.startTime <= r.value.endTime < r.value.startTime + SecondsPerDay
              && r.value.endTime % SecondsPerDay == SecondOfDay(row.end)
  {
    if !ValidRow(row) then Failure(InvalidField)
    else
      var n := DayNumber(row.date);
      var start := Midnight(n) + SecondOfDay(row.start);
      var end := Midnight(n) + SecondOfDay(row.end);
      ClockInDay(row.start);
      ClockInDay(row.end);
      InstantOfDay(n, SecondOfDay(row.start));
      InstantOfDay(n, SecondOfDay(row.end));
      InstantOfDay(n + 1, SecondOfDay(row.end));
      NextDayIsSuccessor(row.date);
      if end < start then
        match NextDay(row.date)
        case None => Failure(DateOverflow)
        case Some(next) =>
          assert Midnight(DayNumber(next)) == Midnight(n) + SecondsPerDay;
          Success(Interval(start, Midnight(DayNumber(next)) + SecondOfDay(row.end)))
      else Success(Interval(start, end))
  }

  /** Before the last day of a month the two rules agree. */
  lemma RowTimesAgreeBeforeMonthEnd(row: CsvRow)
    requires ValidDate(row.date) && row.date.day < DaysInMonth(row.date.year, row.date.month)
    ensures RowTimesAsWritten(row) == RowTimes(row)
  {
  }

  /** On the last day of any month a rollover row fails as written, while the
      intended rule puts its end on the first of the next month. */
  lemma RolloverFailsAtMonthEnd(row: CsvRow)
    requires ValidRow(row) && row.date != MaxDate
    requires row.date.day == DaysInMonth(row.date.year, row.date.month)
    requires SecondOfDay(row.end) < SecondOfDay(row.start)
    ensures RowTimesAsWritten(row) == Failure(DayOutOfRange)
    ensures RowTimes(row).Success?
  {
  }

  /** The row of 31 December 2025, 23:30:00 to 0:30:00: one hour long, but the
      rule as written rejects it. */
  lemma NewYearRolloverExample()
    ensures RowTimesAsWritten(CsvRow(Date(2025, 12, 31), Clock(23, 30, 0), Clock(0, 30, 0))) == Failure(DayOutOfRange)
    ensures var r := RowTimes(CsvRow(Date(2025, 12, 31), Clock(23, 30, 0), Clock(0, 30, 0)));
            r.Success? && r.value.endTime - r.value.startTime == 3600
  {
    RolloverFailsAtMonthEnd(CsvRow(Date(2025, 12, 31), Clock(23, 30, 0), Clock(0, 30, 0)));
  }

  /** A row the rule as written accepts gets the same times under the
      intended rule: the two differ only on rows the code rejects. */
  lemma AsWrittenAcceptedAgrees(row: CsvRow)
    requires RowTimesAsWritten(row).Success?
    ensures RowTimes(row) == RowTimesAsWritten(row)
  {
  }

  /** Which rollover rule a CSV parse applies: the one in the code, or the
      intended next-calendar-day rule. */
  datatype Rollover = AsWritten | Corrected

  function RowTimesBy(rule: Rollover, row: CsvRow): Result<Interval, CsvError> {
    match rule
    case AsWritten => RowTimesAsWritten(row)
    case Corrected => RowTimes(row)
  }

  /** `parse_csv_file` for one aircraft: one record per row, in order, the
      first bad row stopping the parse with that row's error. */
  function ParseCsvRows(rule: Rollover, rows: seq<CsvRow>, icao: string): (r: Result<seq<FlightRecord>, CsvError>)
    ensures r.Success? <==> forall k :: 0 <= k < |rows| ==> RowTimesBy(rule, rows[k]).Success?
    ensures r.Success? ==>
              && |r.value| == |rows|
              && forall k :: 0 <= k < |rows| ==>
                   && r.value[k].icao == icao
                   && r.value[k].startTime == RowTimesBy(rule, rows[k]).value.startTime
                   && r.value[k].endTime == RowTimesBy(rule, rows[k]).value.endTime
    ensures r.Failure? ==>
              exists k :: 0 <= k < |rows| && RowTimesBy(rule, rows[k]).Failure?
                          && r.error == RowTimesBy(rule, rows[k]).error
                          && forall j :: 0 <= j < k ==> RowTimesBy(rule, rows[j]).Success?
  {
    if rows == [] then Success([])
    else
      match RowTimesBy(rule, rows[0])
      case Failure(e) => Failure(e)
      case Success(times) =>
        match ParseCsvRows(rule, rows[1..], icao)
        case Failure(e) =>
          var k :| 0 <= k < |rows[1..]| && RowTimesBy(rule, rows[1..][k]).Failure?
                   && e == RowTimesBy(rule, rows[1..][k]).error
                   && forall j :: 0 <= j < k ==> RowTimesBy(rule, rows[1..][j]).Success?;
          assert forall j :: 0 < j < k + 1 ==> rows[j] == rows[1..][j - 1];
          assert RowTimesBy(rule, rows[k + 1]).Failure?;
          Failure(e)
        case Success(rest) =>
          assert forall k :: 0 < k < |rows| ==> rows[k] == rows[1..][k - 1];
          Success([FlightRecord(icao, times.startTime, times.endTime)] + rest)
  }

  /** Under the intended rule every imported flight ends within a day of its
      start, at the row's end clock. */
  lemma CorrectedRecordsLastUnderADay(rows: seq<CsvRow>, icao: string)
    requires ParseCsvRows(Corrected, rows, icao).Success?
    ensures forall k :: 0 <= k < |rows| ==>
              var f := ParseCsvRows(Corrected, rows, icao).value[k];
              && f.startTime <= f.endTime < f.startTime + SecondsPerDay
              && f.endTime % SecondsPerDay == SecondOfDay(rows[k].end)
  {
  }

  /** Whenever the code as written imports a file, the intended rule imports
      the same flights; a file holding a month-end rollover row is rejected
      as written. */
  lemma {:induction false} ParseAsWrittenAgrees(rows: seq<CsvRow>, icao: string)
    ensures ParseCsvRows(AsWritten, rows, icao).Success? ==>
              ParseCsvRows(Corrected, rows, icao) == ParseCsvRows(AsWritten, rows, icao)
    ensures (exists k :: 0 <= k < |rows| && ValidRow(rows[k]) && rows[k].date != MaxDate
                         && rows[k].date.day == DaysInMonth(rows[k].date.year, rows[k].date.month)
                         && SecondOfDay(rows[k].end) < SecondOfDay(rows[k].start))
            ==> ParseCsvRows(AsWritten, rows, icao).Failure?
  {
    if rows != [] {
      ParseAsWrittenAgrees(rows[1..], icao);
      if RowTimesAsWritten(rows[0]).Success? {
        AsWrittenAcceptedAgrees(rows[0]);
      }
      forall k | 0 <= k < |rows| && ValidRow(rows[k]) && rows[k].date != MaxDate
                 && rows[k].date.day == DaysInMonth(rows[k].date.year, rows[k].date.month)
                 && SecondOfDay(rows[k].end) < SecondOfDay(rows[k].start)
        ensures ParseCsvRows(AsWritten, rows, icao).Failure?
      {
        RolloverFailsAtMonthEnd(rows[k]);
      }
    }
  }
}
