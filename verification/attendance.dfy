/** Today's attendance log (`displayTodaysAttendance`) and the reply handling
    of `markMemberAttendance`: filtering records by service and counting
    them, turning a backend timestamp into a 12-hour clock time, and
    telling a duplicate-attendance notice from a real failure. */
module Attendance {
  import opened JsText
  import opened Records

  /** The filter value that shows every service. */
  const AllServices: string := "All"

  /** The service a record was marked for. */
  function ServiceOf(r: Record): string {
    GetMemberProperty(r, ServiceKeys)
  }

  /** The log shows a record under `filter`. */
  predicate Shown(filter: string, r: Record) {
    filter == AllServices || ServiceOf(r) == filter
  }

  /** The records the log lists, in the order the backend returned them. */
  function FilterRecords(records: seq<Record>, filter: string): seq<Record> {
    Filter(records, r => Shown(filter, r))
  }

  /** The log keeps exactly the records of the selected service, and every
      record under `All`. */
  lemma FilterRecordsContents(records: seq<Record>, filter: string)
    ensures |FilterRecords(records, filter)| <= |records|
    ensures forall k :: 0 <= k < |FilterRecords(records, filter)| ==>
      Shown(filter, FilterRecords(records, filter)[k]) && FilterRecords(records, filter)[k] in records
    ensures forall i :: 0 <= i < |records| && Shown(filter, records[i]) ==> records[i] in FilterRecords(records, filter)
    ensures filter == AllServices ==> FilterRecords(records, filter) == records
  {
    FilterSound(records, r => Shown(filter, r));
    FilterComplete(records, r => Shown(filter, r));
    if filter == AllServices {
      FilterAllKept(records, r => Shown(filter, r));
    }
  }

  /** Filtering keeps the backend's order, and counts add. */
  lemma FilterRecordsAppend(a: seq<Record>, b: seq<Record>, filter: string)
    ensures FilterRecords(a + b, filter) == FilterRecords(a, filter) + FilterRecords(b, filter)
  {
    FilterAppend(a, b, r => Shown(filter, r));
  }

  /** The indices of the records shown under `filter`. */
  function ShownIndices(records: seq<Record>, filter: string): set<nat> {
    set i: nat | i < |records| && Shown(filter, records[i])
  }

  /** The count is the number of records whose service equals the filter
      (every record under `All`). */
  lemma {:induction false} CountIsShownRecords(records: seq<Record>, filter: string)
    ensures |FilterRecords(records, filter)| == |ShownIndices(records, filter)|
    decreases |records|
  {
    if |records| > 0 {
      var n := |records| - 1;
      var front := records[..n];
      assert records == front + [records[n]];
      FilterRecordsAppend(front, [records[n]], filter);
      FilterUnfold([records[n]], r => Shown(filter, r));
      assert [records[n]][1..] == [];
      CountIsShownRecords(front, filter);
      ShownIndicesExtend(records, filter);
      assert n !in ShownIndices(front, filter);
    } else {
      assert ShownIndices(records, filter) == {};
    }
  }

  lemma ShownIndicesExtend(records: seq<Record>, filter: string)
    requires |records| > 0
    ensures var n := |records| - 1;
      ShownIndices(records, filter)
        == ShownIndices(records[..n], filter) + (if Shown(filter, records[n]) then {n} else {})
  {
    var n := |records| - 1;
    assert forall i :: 0 <= i < n ==> records[..n][i] == records[i];
  }

  /** Under `All` the count is the number of records. */
  lemma CountAllIsLength(records: seq<Record>)
    ensures |FilterRecords(records, AllServices)| == |records|
  {
    FilterRecordsContents(records, AllServices);
  }

  /** The backend's reply to `getTodaysAttendance`. */
  datatype LogReply = LogError(message: string) | LogRecords(records: seq<Record>)

  /** The number shown in the "present" counter after a reply, given the
      number it showed before. An `error` field with empty text is falsy:
      the script then walks the reply object as if it were a list of
      records, which throws before the counter is written, so the old
      number stays. */
  function PresentCount(reply: LogReply, filter: string, before: nat): (n: nat)
    ensures reply.LogError? && reply.message != "" ==> n == 0
    ensures reply.LogError? && reply.message == "" ==> n == before
    ensures reply.LogRecords? ==> n == |ShownIndices(reply.records, filter)|
    ensures reply.LogRecords? && filter == AllServices ==> n == |reply.records|
  {
    match reply
    case LogError(message) => if message != "" then 0 else before
    case LogRecords(records) =>
      CountIsShownRecords(records, filter);
      FilterRecordsContents(records, filter);
      |FilterRecords(records, filter)|
  }

  // ---------------------------------------------------------------------
  // Times: the first match of /(\d{1,2}:\d{2}:\d{2})/

  /** A two-digit-hour match `HH:MM:SS` starts at `i`. */
  predicate LongMatchAt(s: string, i: nat) {
    i + 8 <= |s| && IsDigit(s[i]) && IsDigit(s[i + 1]) && s[i + 2] == ':'
    && IsDigit(s[i + 3]) && IsDigit(s[i + 4]) && s[i + 5] == ':'
    && IsDigit(s[i + 6]) && IsDigit(s[i + 7])
  }

  /** A one-digit-hour match `H:MM:SS` starts at `i`. */
  predicate ShortMatchAt(s: string, i: nat) {
    i + 7 <= |s| && IsDigit(s[i]) && s[i + 1] == ':'
    && IsDigit(s[i + 2]) && IsDigit(s[i + 3]) && s[i + 4] == ':'
    && IsDigit(s[i + 5]) && IsDigit(s[i + 6])
  }

  predicate MatchAt(s: string, i: nat) {
    LongMatchAt(s, i) || ShortMatchAt(s, i)
  }

  /** The leftmost position at or after `from` where the pattern matches. */
  function FirstMatch(s: string, from: nat): (r: Option<nat>)
    requires from <= |s|
    ensures r.Some? ==> from <= r.value < |s| && MatchAt(s, r.value)
    ensures r.Some? ==> forall j :: from <= j < r.value ==> !MatchAt(s, j)
    ensures r.None? ==> forall j :: from <= j <= |s| ==> !MatchAt(s, j)
    decreases |s| - from
  {
    if from == |s| then None
    else if MatchAt(s, from) then Some(from)
    else FirstMatch(s, from + 1)
  }

  /** The hour text of a match: greedy `\d{1,2}` takes two digits whenever
      the two-digit form matches there. */
  function HourText(s: string, i: nat): (h: string)
    requires MatchAt(s, i)
    ensures 1 <= |h| <= 2 && AllDigits(h)
  {
    if LongMatchAt(s, i) then s[i..i + 2] else s[i..i + 1]
  }

  /** The minute text of a match. */
  function MinuteText(s: string, i: nat): (m: string)
    requires MatchAt(s, i)
    ensures |m| == 2 && AllDigits(m)
  {
    if LongMatchAt(s, i) then s[i + 3..i + 5] else s[i + 2..i + 4]
  }

  /** A 12-hour clock reading. */
  datatype Clock = Clock(hour: nat, minutes: string, pm: bool)

  /** `parseInt(hours) % 12 || 12`. */
  function TwelveHour(h: nat): (r: nat)
    ensures 1 <= r <= 12 && r % 12 == h % 12
  {
    if h % 12 == 0 then 12 else h % 12
  }

  /** The clock reading of the first match in a timestamp, if there is one. */
  function ClockOf(ts: string): (c: Option<Clock>)
    ensures c.None? <==> forall j :: 0 <= j <= |ts| ==> !MatchAt(ts, j)
    ensures c.Some? ==> 1 <= c.value.hour <= 12 && |c.value.minutes| == 2 && AllDigits(c.value.minutes)
    ensures c.Some? ==> var i := FirstMatch(ts, 0).value; var h := DigitsValue(HourText(ts, i));
      c.value.hour % 12 == h % 12 && (c.value.pm <==> h >= 12) && c.value.minutes == MinuteText(ts, i)
  {
    match FirstMatch(ts, 0)
    case None => None
    case Some(i) =>
      var h := DigitsValue(HourText(ts, i));
      Some(Clock(TwelveHour(h), MinuteText(ts, i), h >= 12))
  }

  /** Reading a 12-hour clock back as a 24-hour hour. */
  function To24(c: Clock): nat {
    (c.hour % 12) + (if c.pm then 12 else 0)
  }

  /** For a real hour of the day the 12-hour reading loses nothing. */
  lemma TwelveHourLosesNothing(ts: string)
    requires ClockOf(ts).Some?
    requires DigitsValue(HourText(ts, FirstMatch(ts, 0).value)) < 24
    ensures To24(ClockOf(ts).value) == DigitsValue(HourText(ts, FirstMatch(ts, 0).value))
  {
  }

  /** `${hour}:${minutes} ${ampm}`. */
  function Render(c: Clock): string {
    DecimalString(c.hour) + ":" + c.minutes + " " + (if c.pm then "PM" else "AM")
  }

  /** The time shown for a record, `--:--` when its timestamp holds no time. */
  function FormatTime(ts: string): string {
    match ClockOf(ts)
    case None => "--:--"
    case Some(c) => Render(c)
  }

  /** The placeholder appears exactly when the timestamp holds no time; a
      shown time ends in AM or PM. */
  lemma PlaceholderIffNoTime(ts: string)
    ensures FormatTime(ts) == "--:--" <==> forall j :: 0 <= j <= |ts| ==> !MatchAt(ts, j)
    ensures FormatTime(ts) != "--:--" ==>
      var r := FormatTime(ts); |r| >= 2 && r[|r| - 1] == 'M' && (r[|r| - 2] == 'A' || r[|r| - 2] == 'P')
  {
    if ClockOf(ts).Some? {
      var r := FormatTime(ts);
      assert r[|r| - 1] == 'M';
      assert "--:--"[4] == '-';
    }
  }

  /** The hour text of a rendered time reads back as the 12-hour value. */
  lemma RenderedHourReadsBack(c: Clock)
    ensures var d := DecimalString(c.hour); Render(c)[..|d|] == d && DigitsValue(d) == c.hour
  {
    DecimalStringRoundTrip(c.hour);
  }

  lemma FormatTimeExampleNoTime()
    ensures FormatTime("") == "--:--"
  {
  }

  lemma FormatTimeExampleAfternoon()
    ensures FormatTime("14:05:09") == "2:05 PM"
  {
    ExampleTime("14:05:09", '1', '4', 2, 14, true);
    assert DecimalString(2) == "2";
  }

  lemma FormatTimeExampleMidnight()
    ensures FormatTime("00:15:00") == "12:15 AM"
  {
    ExampleTime("00:15:00", '0', '0', 12, 0, false);
    assert DecimalString(12) == "12" by {
      assert DecimalString(1) == "1";
    }
  }

  lemma FormatTimeExampleOneDigitHour()
    ensures FormatTime("9:30:00") == "9:30 AM"
  {
    var s := "9:30:00";
    assert !LongMatchAt(s, 0) && ShortMatchAt(s, 0);
    assert FirstMatch(s, 0) == Some(0);
    assert HourText(s, 0) == "9";
    assert DigitsValue("9") == 9 by {
      assert "9"[..0] == "";
    }
    assert MinuteText(s, 0) == "30";
    assert DecimalString(9) == "9";
  }

  /** Evaluates `FormatTime` on a concrete `HH:MM:SS` string. */
  lemma ExampleTime(s: string, h1: char, h2: char, shown: nat, h: nat, pm: bool)
    requires |s| == 8 && LongMatchAt(s, 0) && s[0] == h1 && s[1] == h2
    requires 10 * DigitValue(h1) + DigitValue(h2) == h
    requires shown == TwelveHour(h) && pm == (h >= 12)
    ensures FormatTime(s) == Render(Clock(shown, s[3..5], pm))
  {
    assert MatchAt(s, 0);
    assert FirstMatch(s, 0) == Some(0);
    assert HourText(s, 0) == s[0..2];
    TwoDigits(s[0..2]);
    assert MinuteText(s, 0) == s[3..5];
    assert ClockOf(s) == Some(Clock(shown, s[3..5], pm));
  }

  // ---------------------------------------------------------------------
  // Log rows

  /** One line of the attendance log. */
  datatype LogRow = LogRow(name: string, badge: Option<string>, time: string)

  /** `record.Timestamp || ''`, which is the one-key lookup
      (`OrChainIsLookup`). */
  function TimestampOf(r: Record): string {
    GetMemberProperty(r, ["Timestamp"])
  }

  /** The line for a shown record: the attendee's name or `Unknown`, a
      service badge only in the `All` view, and the formatted time. */
  function LogRowFor(r: Record, filter: string): (row: LogRow)
    ensures GetMemberProperty(r, AttendeeNameKeys) != "" ==> row.name == GetMemberProperty(r, AttendeeNameKeys)
    ensures GetMemberProperty(r, AttendeeNameKeys) == "" ==> row.name == "Unknown"
    ensures row.badge.Some? <==> filter == AllServices && ServiceOf(r) != ""
    ensures row.badge.Some? ==> row.badge.value == ServiceOf(r)
    ensures row.time == FormatTime(TimestampOf(r))
  {
    var name := GetMemberProperty(r, AttendeeNameKeys);
    var service := ServiceOf(r);
    LogRow(if name == "" then "Unknown" else name,
           if filter == AllServices && service != "" then Some(service) else None,
           FormatTime(TimestampOf(r)))
  }

  /** The lines of the log: line `k` is the line of the `k`-th shown record. */
  function LogRows(records: seq<Record>, filter: string): (rows: seq<LogRow>)
    ensures |rows| == |FilterRecords(records, filter)|
    ensures forall k :: 0 <= k < |rows| ==> rows[k] == LogRowFor(FilterRecords(records, filter)[k], filter)
  {
    var shown := FilterRecords(records, filter);
    seq(|shown|, k requires 0 <= k < |shown| => LogRowFor(shown[k], filter))
  }

  /** The lines of two batches of records are the lines of each in turn,
      so the log keeps the backend's order. */
  lemma LogRowsAppend(a: seq<Record>, b: seq<Record>, filter: string)
    ensures LogRows(a + b, filter) == LogRows(a, filter) + LogRows(b, filter)
  {
    FilterRecordsAppend(a, b, filter);
  }

  /** A log line names the attendee whenever some name key holds one; the
      time shows `--:--` exactly when the timestamp holds no time, and a
      badge never appears under a single-service filter. */
  lemma LogRowMeaning(r: Record, filter: string)
    ensures LogRowFor(r, filter).name == "Unknown" <==> GetMemberProperty(r, AttendeeNameKeys) in {"", "Unknown"}
    ensures LogRowFor(r, filter).time == "--:--" <==>
      forall j :: 0 <= j <= |TimestampOf(r)| ==> !MatchAt(TimestampOf(r), j)
    ensures filter != AllServices ==> LogRowFor(r, filter).badge.None?
  {
    PlaceholderIffNoTime(TimestampOf(r));
  }

  // ---------------------------------------------------------------------
  // The reply to markAttendance

  /** The text the backend uses for a second mark on the same day. */
  const DuplicateMarker: string := "already been marked present"

  /** What the user sees after `markAttendance`. */
  datatype Feedback =
    | Confirmed(message: string)   // success modal, then the log reloads
    | Notice(message: string)      // duplicate mark, shown as information
    | Failure(message: string)     // any other error, shown as an error

  /** The reply has an `error` field exactly when `error` is `Some`; an
      empty error text is falsy in JavaScript and reads as success. */
  function MarkFeedback(error: Option<string>, name: string, service: string): (f: Feedback)
    ensures f.Notice? <==> error.Some? && error.value != "" && Includes(error.value, DuplicateMarker)
    ensures f.Failure? <==> error.Some? && error.value != "" && !Includes(error.value, DuplicateMarker)
    ensures f.Notice? ==> f.message == "Note: " + error.value
    ensures f.Failure? ==> f.message == error.value
  {
    if error.Some? && error.value != "" then
      if Includes(error.value, DuplicateMarker) then Notice("Note: " + error.value)
      else Failure(error.value)
    else Confirmed("Attendance marked for " + name + " (" + service + ")")
  }

  /** Any error text that carries the marker, whatever surrounds it, is a
      notice; an error text too short to hold it is a failure. */
  lemma DuplicateIsNotice(pre: string, post: string, name: string, service: string)
    ensures MarkFeedback(Some(pre + DuplicateMarker + post), name, service).Notice?
  {
    IncludesInContext(pre, DuplicateMarker, post);
  }

  lemma ShortErrorIsFailure(e: string, name: string, service: string)
    requires e != "" && |e| < |DuplicateMarker|
    ensures MarkFeedback(Some(e), name, service).Failure?
  {
  }

  lemma MarkFeedbackExampleFailure()
    ensures MarkFeedback(Some("Member not found"), "Ada", "First Service").Failure?
  {
    ShortErrorIsFailure("Member not found", "Ada", "First Service");
  }

  lemma MarkFeedbackExampleSuccess()
    ensures MarkFeedback(None, "Ada", "First Service") == Confirmed("Attendance marked for Ada (First Service)")
  {
  }
}
