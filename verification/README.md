# Church attendance kiosk — verified model of the browser script's core

The kiosk is a single browser page. Ushers use it to:

- search the member list;
- mark a member present for a service;
- register a new member through a chain of prompts;
- watch today's attendance log.

Everything that decides *what* happens lives in `script.js`. This project models that pure core in Dafny and proves what the script promises about it:

- `js_text.dfy` (module `JsText`) holds the JavaScript string behaviour the script relies on:
  - `trim` and the `\s` whitespace class;
  - `\d` and `parseInt` on digit runs;
  - decimal rendering in template literals;
  - `includes`;
  - the elements a `forEach` loop processes when it returns early on the ones it skips.
- `validators.dfy` (module `Validators`) holds the three field validators:
  - `isValidPhone`;
  - `isValidEmail`;
  - `isValidDOB`, together with a model of `new Date(y, m, d)` normalisation that is proved equal to the Gregorian calendar rule for years 100 and later.
- `records.dfy` (module `Records`) holds:
  - `getMemberProperty` and the `||` chains that read a field whose spreadsheet header may be spelled several ways, proved to agree;
  - the search box handler;
  - the list of search results, with its "add as new member" fallback.
- `intake.dfy` (module `Intake`) holds:
  - the new-member intake `collectMemberInfo`, with its three-attempt retry loops and its Cancel rules;
  - the payload sent to the backend;
  - the reply handling of `addNewMember`.
- `attendance.dfy` (module `Attendance`) holds:
  - the service filter and "present" count of `displayTodaysAttendance`;
  - the 12-hour time formatting;
  - the log lines;
  - the duplicate-mark classification of `markMemberAttendance`.

How the outside world appears in the model:

- A backend record is a `map<string, string>`. An absent key is JavaScript's `undefined`.
- The current date is a parameter (`today`).
- The user's answers to the prompt dialogs are a transcript, `seq<Option<string>>`:
  - `None` is Cancel;
  - `Some(text)` is OK with that text.
- Replies from the backend are parameters. An `error` field is `Some(text)`.

## Model

| member | source | states |
|---|---|---|
| JsText.TrimIsSlice | script.js:342 | trimming cuts only whitespace from the two ends; the result neither starts nor ends with whitespace |
| JsText.TrimIdempotent | script.js:342 | trimming an already trimmed answer changes nothing |
| JsText.NoSpaceTrimFixed | script.js:342 | a string with no whitespace is its own trim |
| JsText.Includes | script.js:269 | `includes` is true exactly when the needle occurs at some position of the text |
| JsText.IncludesInContext | script.js:269 | text placed before or after the needle never hides it |
| JsText.DecimalString | script.js:534 | the hour is rendered as digits without a leading zero |
| JsText.DecimalStringRoundTrip | script.js:532-534 | reading the rendered hour back with `parseInt` gives the number rendered |
| JsText.FilterSound | script.js:517-522 | a loop that skips rejected elements processes only accepted elements of its input, never more than the input holds |
| JsText.FilterComplete | script.js:517-522 | every accepted element of the input is processed |
| JsText.FilterAllKept | script.js:517-522 | when no element is rejected, every element is processed in order |
| JsText.FilterAppend | script.js:517-522 | the elements processed from two lists in turn are those of each list in turn, so order is kept |
| JsText.FilterEmptyIff | script.js:203-207 | nothing is processed exactly when no element is accepted |
| JsText.MapAppend | script.js:182-235 | one output per input, built in order, respects concatenation |
| Validators.PhoneShape | script.js:21-24 | a non-empty number is accepted exactly when it is "0" followed by ten ASCII digits |
| Validators.PhoneTrimStable | script.js:21-24 | every accepted number is unchanged by trimming |
| Validators.PhoneExamples | script.js:21-24 | the empty string and 08012345678 are accepted; letters, a missing leading 0, ten digits and twelve digits are refused |
| Validators.EmailShape | script.js:26-30 | a non-empty address is accepted exactly when it is a non-empty local part without whitespace or `@`, then `@`, then gmail.com, yahoo.com or outlook.com in any letter case |
| Validators.EmailSplitAt | script.js:26-30 | once the local part is valid, acceptance depends on the domain alone |
| Validators.EmailTrimStable | script.js:26-30 | every accepted address is unchanged by trimming |
| Validators.EmailExampleEmpty | script.js:27 | the empty address is accepted |
| Validators.EmailExampleGmail | script.js:26-30 | user@gmail.com is accepted |
| Validators.EmailExampleMixedCase | script.js:28 | the domain is compared case-insensitively: Ada@Yahoo.COM is accepted |
| Validators.EmailExampleOtherDomain | script.js:28 | a domain outside the three (hotmail.com) is refused |
| Validators.EmailExampleNoLocalPart | script.js:28 | an address with nothing before the `@` is refused |
| Validators.EmailExampleSpace | script.js:28 | whitespace in the local part is refused |
| Validators.EmailExampleTwoAts | script.js:28 | a second `@` is refused |
| Validators.DaysInMonth | script.js:46-53 | each month has 28 to 31 days, and February has 29 exactly in Gregorian leap years |
| Validators.ShiftDays | script.js:46 | moving any number of days from a first of month lands on a real calendar date |
| Validators.JsDate | script.js:46 | `new Date(y, m, d)` read back through its getters is always a real calendar date |
| Validators.RoundTripIsCalendarRule | script.js:46-53 | the getter round trip succeeds exactly when the parts name a real Gregorian date in year 100 or later |
| Validators.DobParts | script.js:41-44 | the three `parseInt` results of a `YYYY/MM/DD` string are non-negative |
| Validators.DobMeaning | script.js:33-64 | a non-empty birth date is accepted exactly when it has the `YYYY/MM/DD` shape, names a real date in year 100 or later, is not after today and is at most 150 calendar years back |
| Validators.EarlyYearsRefusedByAge | script.js:46-61 | years 0–99 are refused for every current date, and from current year 250 on they are more than 150 years back, so the age rule alone refuses them and their move into the 1900s changes nothing |
| Validators.DobTrimStable | script.js:33-64 | every accepted birth date is unchanged by trimming |
| Validators.DobExampleEmpty | script.js:34 | the empty birth date is accepted |
| Validators.DobExampleOrdinary | script.js:33-64 | 1990/05/15 is accepted |
| Validators.DobExampleLeapDay | script.js:46-53 | 2000/02/29 is accepted, since 2000 is a leap year |
| Validators.DobExampleToday | script.js:55-57 | today's own date is accepted |
| Validators.DobExampleNoSuchDay | script.js:46-53 | 1990/02/30 is refused |
| Validators.DobExampleCenturyNotLeap | script.js:46-53 | 1900/02/29 is refused, since 1900 is not a leap year |
| Validators.DobExampleTomorrow | script.js:55-57 | a date after today is refused |
| Validators.DobExampleTooOld | script.js:59-61 | a birth year more than 150 years back is refused |
| Validators.DobExampleWrongSeparator | script.js:36-38 | dashes instead of slashes are refused |
| Records.GetMemberProperty | script.js:143-150 | the result is empty exactly when no candidate key is filled; otherwise it is the value of the first filled candidate |
| Records.LaterKeysIgnored | script.js:143-150 | once an earlier candidate is filled, adding later candidates changes nothing |
| Records.UnfilledKeysSkipped | script.js:143-150 | leading candidates that are absent or empty can be dropped without changing the result |
| Records.LookupExamples | script.js:143-150 | an upper-case header is found through its own spelling, a record without any candidate yields "", and an empty cell falls through to the next spelling |
| Records.OrChainFirstTruthy | script.js:196-199 | a left-grouped chain of logical ors yields its first truthy operand, or its last operand when none is truthy |
| Records.OrChainIsLookup | script.js:196-199 | each chain of logical ors ending in `''` computes the same value as `getMemberProperty` over the same keys |
| Records.SearchStepFor | script.js:108-123 | a blank query clears the results, a trimmed query of one UTF-16 unit sends nothing, and a trimmed query of two or more units is searched as trimmed |
| Records.SearchIgnoresSurroundingSpace | script.js:108-123 | surrounding whitespace never changes what a query does, and the searched term is already trimmed |
| Records.SearchStepExamples | script.js:108-123 | "a" sends nothing, "an" searches "an", blanks clear the results, and a single emoji (two UTF-16 units) is searched |
| Records.ResultRowsNamed | script.js:182-235 | there are never more result rows than returned members, and every row's name is non-blank |
| Records.NoRowsIffNoneListed | script.js:203-207 | there are no rows exactly when no returned member has a non-blank name |
| Records.ResultRowsAppend | script.js:182-235 | rows keep the order of the returned members |
| Records.SearchViewFor | script.js:166-250 | the "add as new member" offer, carrying the query, appears exactly when no returned member has a name; otherwise the rows shown are exactly the result rows of the returned members, in order, at least one and each named |
| Records.OfferedNameIsSearchTerm | script.js:110-123 | the name offered for a new member is the trimmed query, at least two UTF-16 units long |
| Intake.SettlingAnswer | script.js:333-354 | the answer that ends a field's loop comes after only rejected answers and is not itself rejected |
| Intake.CollectField | script.js:331-359 | a field ends as its settling answer decides: Cancel cancels, OK stores the trimmed text, and three rejections store ""; a stored value is "" or accepted and trimmed |
| Intake.CollectFieldLoop | script.js:331-359 | the flag-and-counter loop as written computes the same outcome as the answer-by-answer definition |
| Intake.OptionalValueFits | script.js:331-359 | whatever a validated field ends with, Cancel included, passes that field's validator and is trimmed |
| Intake.ThreeStrikesStoreEmpty | script.js:356-359 | three rejected answers in a row leave the field empty |
| Intake.PhoneRetryExample | script.js:333-353 | the phone answers "abc", "123", "08012345678" store the third after three prompts |
| Intake.PhoneRetryVerdicts | script.js:21-24 | at the phone prompt "abc" and "123" are rejected and "08012345678" is accepted as typed |
| Intake.AddressValue | script.js:425-430 | Cancel stores "", OK stores the trimmed text, so the stored address is always trimmed |
| Intake.FieldCancelledIff | script.js:331-359 | a field ends cancelled exactly when Cancel comes before any answer that settles it |
| Intake.IntakeAfterPhone | script.js:361-469 | the prompts after the phone never abandon the intake; each of parent phone, email, address and date of birth holds what its own prompt's answers decide, every field passes its validator and is trimmed, and the phone already collected is kept |
| Intake.CollectMemberInfo | script.js:324-470 | the intake is abandoned exactly when the phone prompt is cancelled before a settling answer; otherwise each field holds what its own prompt's answers decide, the name, join date and gender are kept, every validated field passes its validator, every collected field is trimmed, and at most 13 prompts are shown |
| Intake.OptionalCancelContinues | script.js:361-466 | Cancel at the parent phone, email, address or date-of-birth prompt stores "" for that field and the member is still submitted |
| Intake.FieldHoldsSettlingText | script.js:333-359 | a field that is not cancelled holds the trimmed text of its settling answer, or "" after three rejections |
| Intake.CancelAfterPhoneSubmits | script.js:361-466 | cancelling every prompt after the phone still submits a member whose optional fields are all empty |
| Intake.CancelAtPhoneAbandons | script.js:337-340 | Cancel at the first phone prompt submits nothing |
| Intake.Payload | script.js:290-293 | the submitted object has exactly the eight fields Name, DateJoined, Gender, Phone, ParentPhone, Email, Address and DateOfBirth |
| Intake.AfterSubmitFor | script.js:473-485 | a non-empty error reports the failure and nothing else; otherwise the new member is marked present with the stored name and phone |
| Intake.SuccessfulAddMarksNewMember | script.js:469-485 | after a submitted intake and a reply without error, the member is marked under the name and phone the payload carried, the phone being the one collected at the phone prompt, and that mark confirms with the name and service |
| Intake.AddedMarksPayloadMember | script.js:473-485 | a reply without error marks the member under the payload's Name and Phone, and a mark without error confirms with that name |
| Attendance.FilterRecordsContents | script.js:517-522 | the log keeps exactly the records of the selected service, and every record under "All" |
| Attendance.FilterRecordsAppend | script.js:517-522 | filtering keeps the backend's order |
| Attendance.CountIsShownRecords | script.js:517-524 | the number of logged lines is the number of records whose service matches the filter |
| Attendance.CountAllIsLength | script.js:517-524 | under "All" the count is the number of records |
| Attendance.PresentCount | script.js:493-524 | the present counter shows 0 on a reply with error text, keeps its old number when the error text is empty (the script then throws before writing it), and otherwise shows the number of matching records |
| Attendance.FirstMatch | script.js:529 | the time pattern is matched at its leftmost position in the timestamp |
| Attendance.HourText | script.js:529-531 | the hour of a match is one or two digits |
| Attendance.MinuteText | script.js:529-531 | the minutes of a match are two digits |
| Attendance.TwelveHour | script.js:532 | the displayed hour lies in 1..12 and agrees with the hour modulo 12 |
| Attendance.ClockOf | script.js:526-535 | a timestamp has a reading exactly when the pattern matches; the reading carries the first match's minutes, its hour modulo 12, and PM exactly from hour 12 on |
| Attendance.TwelveHourLosesNothing | script.js:532-533 | for a real hour of the day, hour and AM/PM give back the 24-hour hour |
| Attendance.PlaceholderIffNoTime | script.js:526-535 | `--:--` is shown exactly when the timestamp holds no time; any other time ends in AM or PM |
| Attendance.RenderedHourReadsBack | script.js:534 | the shown time starts with the hour's digits, which read back as the 12-hour value |
| Attendance.FormatTimeExampleNoTime | script.js:526-530 | an empty timestamp shows `--:--` |
| Attendance.FormatTimeExampleAfternoon | script.js:529-534 | 14:05:09 shows as 2:05 PM |
| Attendance.FormatTimeExampleMidnight | script.js:532-533 | 00:15:00 shows as 12:15 AM |
| Attendance.FormatTimeExampleOneDigitHour | script.js:529-534 | 9:30:00 shows as 9:30 AM |
| Attendance.LogRowFor | script.js:526-549 | a log line names the attendee looked up over the name keys, or "Unknown" when none is filled; it carries the service badge exactly in the "All" view when the record names a service; its time is the formatted timestamp |
| Attendance.LogRowMeaning | script.js:526-549 | a line reads "Unknown" only when no name is filled (or the name is "Unknown"); its time is `--:--` exactly when the timestamp holds no time; a single-service view never shows a badge |
| Attendance.LogRows | script.js:517-556 | line k of the log is the line of the k-th shown record |
| Attendance.LogRowsAppend | script.js:517-556 | the lines of two batches are the lines of each in turn, so the log keeps the backend's order |
| Attendance.MarkFeedback | script.js:268-276 | a non-empty error that contains "already been marked present" is a notice prefixed "Note: ", any other non-empty error is a failure, and no error (or an empty one) confirms |
| Attendance.DuplicateIsNotice | script.js:268-271 | any error text carrying the duplicate marker, whatever surrounds it, is a notice |
| Attendance.ShortErrorIsFailure | script.js:268-274 | an error too short to hold the marker is a failure |
| Attendance.MarkFeedbackExampleFailure | script.js:272-274 | "Member not found" is a failure |
| Attendance.MarkFeedbackExampleSuccess | script.js:275-276 | a reply without error confirms with "Attendance marked for Ada (First Service)" |

## Left out

- The backend call (`callBackend`, `fetch`, JSON parsing) is not modelled. Replies enter as parameters, and a network failure is just an error reply.
- The 300 ms search debounce is not modelled. `clearTimeout` decides which queries are sent at all: a query replaced or cleared within 300 ms is never searched. The model covers one query that stayed in the box long enough.
- The one-second delay before auto-marking a new member is not modelled. The model goes straight from a successful add to the mark.
- DOM rendering, HTML strings, CSS classes, modal visibility and focus handling are not modelled. The model keeps what the page *shows* as data: rows, views, messages, counts.
- The quote escaping for `onclick` attributes is not modelled. It escapes quotes but leaves backslashes alone, so a name such as `O\Brien` reaches `markMemberAttendance` without its backslash. The model passes names through unchanged.
- `extractMemberName` is not part of this model. The search-result name falls back to it, so it is a function parameter `extract`.
- The gender modal and `promptAddNewMember` are not modelled. They only pass the name, the gender and the current UTC date (`toISOString`) into the intake, which takes them as parameters.
- `setCurrentDate`, `toLocaleDateString` and the date header are not modelled. They are pure presentation.
- The offering section (amount parsing, totals, `toLocaleString`) is not modelled. It uses floating-point money and locale formatting and lies outside this core.
- Values in backend records are assumed to be strings; an absent key is `undefined`. The script does not convert numbers or `null`, so for such values it behaves differently:
  - the service comparison `!==` (script.js:520) compares the raw value, and a numeric service never equals the filter text;
  - `.replace` (script.js:219) and `.match` (script.js:529) throw on a number;
  - `getMemberProperty` returns `0`, while the `||` chains (script.js:196-199) skip it, so `Records.OrChainIsLookup` holds only for string values.
- Time zones and daylight saving are not modelled. `Date` is modelled on calendar days in one zone; the script compares a local-midnight date with the current instant, which is the same as "not after today's date".
- Dafny strings are sequences of code points, while JavaScript counts UTF-16 units. The one length test that can see the difference, the two-character search minimum, counts UTF-16 units through `JsText.Utf16Length`. The phone and date lengths only ever see ASCII digits and slashes. The email local part `[^\s@]+` accepts characters outside the Basic Multilingual Plane both in the script (one surrogate at a time) and in the model (one code point at a time), so "😀@gmail.com" is accepted by both.
- Intake.CollectMemberInfo: requires a transcript of at least 13 answers, the most prompts one intake can show. A shorter transcript would mean the user never answered, which a blocking `prompt` cannot express.
- Validators.DobMeaning: the current date is a calendar date rather than an instant. "Not after today" stands for the script's comparison of local midnight with the current time.
- Nothing in the script checks that the name is non-empty; the model follows the script: any name the search produced is submitted as is.
- The "No attendance marked yet" and "No attendance for …" empty states are not modelled as separate texts. `LogRows` being empty and the count 0 stand for both.
