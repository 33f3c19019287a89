/** The three field validators of the new-member form: `isValidPhone`,
    `isValidEmail` and `isValidDOB`. All accept the empty string ("not
    provided"). The date check is modelled as the script writes it — it
    builds a JavaScript `Date` from the parts and compares the parts back —
    and is then proved equivalent to a plain calendar rule. */
module Validators {
  import opened JsText

  // ---------------------------------------------------------------------
  // Phone: /^0\d{10}$/

  /** `isValidPhone`: empty, or a `0` followed by exactly ten more digits. */
  predicate IsValidPhone(s: string) {
    s == "" || (|s| == 11 && s[0] == '0' && AllDigits(s))
  }

  /** A non-empty number is accepted exactly when it is "0" followed by a
      run of ten digits. */
  lemma PhoneShape(s: string)
    requires s != ""
    ensures IsValidPhone(s) <==> exists d :: |d| == 10 && AllDigits(d) && s == "0" + d
  {
    if IsValidPhone(s) {
      assert s == "0" + s[1..];
      assert |s[1..]| == 10 && AllDigits(s[1..]);
    }
    if exists d :: |d| == 10 && AllDigits(d) && s == "0" + d {
      var d :| |d| == 10 && AllDigits(d) && s == "0" + d;
      assert forall i :: 1 <= i < |s| ==> s[i] == d[i - 1];
    }
  }

  /** An accepted number has no whitespace, so trimming leaves it alone. */
  lemma PhoneTrimStable(s: string)
    requires IsValidPhone(s)
    ensures Trim(s) == s
  {
    assert NoSpace(s) by {
      forall i | 0 <= i < |s| ensures !IsJsSpace(s[i]) {
        assert IsDigit(s[i]);
      }
    }
    NoSpaceTrimFixed(s);
  }

  lemma PhoneExamples()
    ensures IsValidPhone("")
    ensures IsValidPhone("08012345678")
    ensures !IsValidPhone("abc")
    ensures !IsValidPhone("123")
    ensures !IsValidPhone("18012345678")
    ensures !IsValidPhone("0801234567")
    ensures !IsValidPhone("080123456789")
  {
    assert "abc"[0] != '0';
    assert "18012345678"[0] != '0';
  }

  // ---------------------------------------------------------------------
  // Email: /^[^\s@]+@(gmail\.com|yahoo\.com|outlook\.com)$/i

  /** ASCII lower-casing. Without the `u` flag, a case-insensitive regular
      expression only equates a non-ASCII character with an ASCII one when
      their upper-case forms agree and both are ASCII, so for the ASCII
      domain names the `i` flag is exactly ASCII case folding. */
  function LowerAscii(c: char): (d: char)
    ensures 'A' <= c <= 'Z' ==> 'a' <= d <= 'z'
    ensures !('A' <= c <= 'Z') ==> d == c
  {
    if 'A' <= c <= 'Z' then ((c as int) + 32) as char else c
  }

  function LowerAsciiString(s: string): (r: string)
    ensures |r| == |s|
    ensures forall i :: 0 <= i < |s| ==> r[i] == LowerAscii(s[i])
  {
    seq(|s|, i requires 0 <= i < |s| => LowerAscii(s[i]))
  }

  const AcceptedDomains: set<string> := {"gmail.com", "yahoo.com", "outlook.com"}

  /** Characters the local part may hold: `[^\s@]`. */
  predicate LocalChar(c: char) {
    !IsJsSpace(c) && c != '@'
  }

  predicate ValidLocalPart(l: string) {
    |l| > 0 && forall i :: 0 <= i < |l| ==> LocalChar(l[i])
  }

  predicate AcceptedDomain(d: string) {
    LowerAsciiString(d) in AcceptedDomains
  }

  /** Index of the first `@` in `s`, if any. */
  function FirstAt(s: string, from: nat): (r: Option<nat>)
    requires from <= |s|
    ensures r.Some? ==> (from <= r.value < |s| && s[r.value] == '@'
      && forall k :: from <= k < r.value ==> s[k] != '@')
    ensures r.None? ==> forall k :: from <= k < |s| ==> s[k] != '@'
    decreases |s| - from
  {
    if from == |s| then None
    else if s[from] == '@' then Some(from)
    else FirstAt(s, from + 1)
  }

  /** `isValidEmail`: empty, or the part before the first `@` is a valid
      local part and the part after it is one of the accepted domains. A
      second `@` is refused because no accepted domain contains one. */
  predicate IsValidEmail(s: string) {
    s == "" ||
    match FirstAt(s, 0)
    case None => false
    case Some(i) => ValidLocalPart(s[..i]) && AcceptedDomain(s[i + 1..])
  }

  /** The first `@` of a string whose `@` at `k` has none before it. */
  lemma FirstAtIs(s: string, k: nat)
    requires k < |s| && s[k] == '@'
    requires forall j :: 0 <= j < k ==> s[j] != '@'
    ensures FirstAt(s, 0) == Some(k)
  {
  }

  /** A non-empty address is accepted exactly when it splits as
      `local + "@" + domain` with a non-empty local part free of whitespace
      and `@`, and a domain that is case-insensitively one of the three. */
  lemma EmailShape(s: string)
    requires s != ""
    ensures IsValidEmail(s) <==>
      exists i :: 0 <= i < |s| && s[i] == '@' && ValidLocalPart(s[..i]) && AcceptedDomain(s[i + 1..])
  {
    if IsValidEmail(s) {
      var i := FirstAt(s, 0).value;
      assert 0 <= i < |s| && s[i] == '@' && ValidLocalPart(s[..i]) && AcceptedDomain(s[i + 1..]);
    } else {
      forall i | 0 <= i < |s| && s[i] == '@' && ValidLocalPart(s[..i])
        ensures !AcceptedDomain(s[i + 1..])
      {
        EmailSplitAt(s, i);
      }
    }
  }

  /** Once the `@` that ends a valid local part is found, only the domain
      after it decides. */
  lemma EmailSplitAt(s: string, i: nat)
    requires i < |s| && s[i] == '@' && ValidLocalPart(s[..i])
    ensures IsValidEmail(s) <==> AcceptedDomain(s[i + 1..])
  {
    forall j | 0 <= j < i ensures s[j] != '@' {
      assert LocalChar(s[..i][j]);
    }
    FirstAtIs(s, i);
  }

  /** An accepted address contains no whitespace, so trimming leaves it alone. */
  lemma EmailTrimStable(s: string)
    requires IsValidEmail(s)
    ensures Trim(s) == s
  {
    if s != "" {
      var i := FirstAt(s, 0).value;
      var d := s[i + 1..];
      AcceptedDomainEndsInM(d);
      assert s[|s| - 1] == d[|d| - 1];
      assert LocalChar(s[..i][0]);
      TrimFixed(s);
    }
  }

  /** Every accepted domain ends in `m`, in either case. */
  lemma AcceptedDomainEndsInM(d: string)
    requires AcceptedDomain(d)
    ensures |d| > 0 && (d[|d| - 1] == 'm' || d[|d| - 1] == 'M')
  {
    var ld := LowerAsciiString(d);
    assert ld == "gmail.com" || ld == "yahoo.com" || ld == "outlook.com";
    assert ld[|ld| - 1] == 'm';
    assert LowerAscii(d[|d| - 1]) == 'm';
  }

  /** Lower-casing leaves a string without capitals unchanged. */
  lemma LowerAsciiNoCapitals(d: string)
    requires forall i :: 0 <= i < |d| ==> !('A' <= d[i] <= 'Z')
    ensures LowerAsciiString(d) == d
  {
  }

  /** A non-empty run of ASCII letters, digits and dots is a valid local part. */
  lemma PlainLocalPart(l: string)
    requires |l| > 0
    requires forall i :: 0 <= i < |l| ==> 'a' <= l[i] <= 'z' || 'A' <= l[i] <= 'Z' || IsDigit(l[i]) || l[i] == '.'
    ensures ValidLocalPart(l)
  {
  }

  lemma EmailExampleEmpty()
    ensures IsValidEmail("")
  {
  }

  lemma EmailExampleGmail()
    ensures IsValidEmail("user@gmail.com")
  {
    var s := "user@gmail.com";
    PlainLocalPart(s[..4]);
    assert s[5..] == "gmail.com";
    LowerAsciiNoCapitals("gmail.com");
    EmailSplitAt(s, 4);
  }

  /** The domain is compared without regard to case. */
  lemma EmailExampleMixedCase()
    ensures IsValidEmail("Ada@Yahoo.COM")
  {
    var y := "Yahoo.COM";
    YahooLowered();
    var s := "Ada@Yahoo.COM";
    assert s[..3] == "Ada";
    PlainLocalPart("Ada");
    assert s[4..] == y;
    EmailSplitAt(s, 3);
  }

  lemma YahooLowered()
    ensures AcceptedDomain("Yahoo.COM")
  {
    var y := "Yahoo.COM";
    var ly := LowerAsciiString(y);
    forall i | 0 <= i < |y| ensures ly[i] == "yahoo.com"[i] {
    }
    assert ly == "yahoo.com";
  }

  lemma HotmailRefused()
    ensures !AcceptedDomain("hotmail.com")
  {
    assert "hotmail.com"[0] != "outlook.com"[0];
    assert "hotmail.com" !in AcceptedDomains;
    LowerAsciiNoCapitals("hotmail.com");
  }

  lemma EmailExampleOtherDomain()
    ensures !IsValidEmail("user@hotmail.com")
  {
    var s := "user@hotmail.com";
    assert s[..4] == "user";
    PlainLocalPart("user");
    assert s[5..] == "hotmail.com";
    HotmailRefused();
    EmailSplitAt(s, 4);
  }

  lemma EmailExampleNoLocalPart()
    ensures !IsValidEmail("@gmail.com")
  {
    FirstAtIs("@gmail.com", 0);
  }

  lemma EmailExampleSpace()
    ensures !IsValidEmail("a b@gmail.com")
  {
    var s := "a b@gmail.com";
    FirstAtIs(s, 3);
    assert IsJsSpace(s[..3][1]);
  }

  lemma EmailExampleTwoAts()
    ensures !IsValidEmail("a@b@gmail.com")
  {
    var s := "a@b@gmail.com";
    FirstAtIs(s, 1);
    var d := s[2..];
    assert d[1] == '@';
    assert LowerAsciiString(d)[1] == '@';
    assert forall x :: x in AcceptedDomains ==> |x| < 2 || x[1] != '@';
  }

  // ---------------------------------------------------------------------
  // Date of birth: /^\d{4}\/\d{2}\/\d{2}$/ and the Date round trip

  /** A Gregorian calendar date; months and days count from 1. */
  datatype CalendarDate = Date(year: int, month: int, day: int)

  predicate IsLeapYear(y: int) {
    y % 4 == 0 && (y % 100 != 0 || y % 400 == 0)
  }

  function DaysInMonth(y: int, m: int): (n: int)
    requires 1 <= m <= 12
    ensures 28 <= n <= 31
    ensures m == 2 ==> (n == 29 <==> IsLeapYear(y))
  {
    if m == 2 then (if IsLeapYear(y) then 29 else 28)
    else if m == 4 || m == 6 || m == 9 || m == 11 then 30
    else 31
  }

  predicate IsRealDate(d: CalendarDate) {
    1 <= d.month <= 12 && 1 <= d.day <= DaysInMonth(d.year, d.month)
  }

  /** Strictly later in calendar order. */
  predicate After(a: CalendarDate, b: CalendarDate) {
    a.year > b.year
    || (a.year == b.year && a.month > b.month)
    || (a.year == b.year && a.month == b.month && a.day > b.day)
  }

  /** Moves `n` days away from the first day of month `m` of year `y`, the
      way a JavaScript `Date` normalises an out-of-range day of the month. */
  function ShiftDays(y: int, m: int, n: int): (r: CalendarDate)
    requires 1 <= m <= 12
    ensures IsRealDate(r)
    ensures n >= 0 ==> r.year >= y
    ensures n >= -28 ==> r.year >= y - 1
    decreases (if n < 0 then 1 else 0), (if n < 0 then -n else n)
  {
    if n < 0 then
      var py := if m == 1 then y - 1 else y;
      var pm := if m == 1 then 12 else m - 1;
      ShiftDays(py, pm, n + DaysInMonth(py, pm))
    else if n < DaysInMonth(y, m) then Date(y, m, n + 1)
    else
      var ny := if m == 12 then y + 1 else y;
      var nm := if m == 12 then 1 else m + 1;
      ShiftDays(ny, nm, n - DaysInMonth(y, m))
  }

  /** `new Date(year, month0, day)` read back through `getFullYear`,
      `getMonth() + 1` and `getDate`: years 0 to 99 mean 1900 to 1999, an
      out-of-range month carries into the year, and an out-of-range day
      carries into neighbouring months. */
  function JsDate(year: int, month0: int, day: int): (r: CalendarDate)
    ensures IsRealDate(r)
  {
    var y := if 0 <= year <= 99 then 1900 + year else year;
    ShiftDays(y + month0 / 12, month0 % 12 + 1, day - 1)
  }

  /** The script's validity test: the parts survive the `Date` round trip. */
  predicate SurvivesDateRoundTrip(year: int, month: int, day: int) {
    var r := JsDate(year, month - 1, day);
    r.year == year && r.month - 1 == month - 1 && r.day == day
  }

  /** The round trip is the calendar rule, except that years below 100 are
      always refused (JavaScript moves them into the 1900s). */
  lemma RoundTripIsCalendarRule(year: int, month: int, day: int)
    requires year >= 0 && month >= 0 && day >= 0
    ensures SurvivesDateRoundTrip(year, month, day) <==>
      year >= 100 && IsRealDate(Date(year, month, day))
  {
    var r := JsDate(year, month - 1, day);
    if year <= 99 {
      assert r.year >= 1898;
    } else if 1 <= month <= 12 {
      assert (month - 1) / 12 == 0 && (month - 1) % 12 + 1 == month;
      var dim := DaysInMonth(year, month);
      if day == 0 {
        var py := if month == 1 then year - 1 else year;
        var pm := if month == 1 then 12 else month - 1;
        assert r == ShiftDays(py, pm, DaysInMonth(py, pm) - 1);
        assert r.day >= 28;
      } else if day > dim {
        if day <= 31 {
          var ny := if month == 12 then year + 1 else year;
          var nm := if month == 12 then 1 else month + 1;
          assert r == ShiftDays(ny, nm, day - 1 - dim);
          assert r.day == day - dim;
        }
      }
    }
  }

  /** The characters of a `YYYY/MM/DD` string. */
  predicate DobShape(s: string) {
    |s| == 10 && s[4] == '/' && s[7] == '/'
    && AllDigits(s[..4]) && AllDigits(s[5..7]) && AllDigits(s[8..])
  }

  /** The three numbers `parseInt` reads from a `YYYY/MM/DD` string. */
  function DobParts(s: string): (d: CalendarDate)
    requires DobShape(s)
    ensures 0 <= d.year && 0 <= d.month && 0 <= d.day
  {
    Date(DigitsValue(s[..4]), DigitsValue(s[5..7]), DigitsValue(s[8..]))
  }

  /** `isValidDOB`, with the current date as a parameter. The `Date` built
      for the birth date is local midnight, so comparing it with the current
      instant by `>` refuses exactly the later calendar days: today itself
      is accepted. */
  predicate IsValidDob(s: string, today: CalendarDate) {
    s == "" ||
    (DobShape(s) &&
     var d := DobParts(s);
     SurvivesDateRoundTrip(d.year, d.month, d.day)
     && !After(d, today)
     && today.year - d.year <= 150)
  }

  /** A non-empty birth date is accepted exactly when it has the
      `YYYY/MM/DD` shape, names a real Gregorian date in year 100 or
      later, is not after today, and is at most 150 calendar years back. */
  lemma DobMeaning(s: string, today: CalendarDate)
    requires s != ""
    ensures IsValidDob(s, today) <==>
      DobShape(s) &&
      var d := DobParts(s);
      d.year >= 100 && IsRealDate(d) && !After(d, today) && today.year - d.year <= 150
  {
    if DobShape(s) {
      var d := DobParts(s);
      RoundTripIsCalendarRule(d.year, d.month, d.day);
    }
  }

  /** Years 0–99 are always refused: `new Date` moves them into the 1900s,
      so the round trip fails. From current year 250 on they are also more
      than 150 years back, so the age rule alone would refuse them and the
      move into the 1900s changes nothing. */
  lemma EarlyYearsRefusedByAge(s: string, today: CalendarDate)
    requires DobShape(s) && DobParts(s).year <= 99
    ensures !IsValidDob(s, today)
    ensures today.year >= 250 ==> today.year - DobParts(s).year > 150
  {
    DobMeaning(s, today);
  }

  /** An accepted birth date contains no whitespace. */
  lemma DobTrimStable(s: string, today: CalendarDate)
    requires IsValidDob(s, today)
    ensures Trim(s) == s
  {
    if s != "" {
      assert IsDigit(s[..4][0]) && IsDigit(s[8..][1]);
      TrimFixed(s);
    }
  }

  lemma DobExampleEmpty()
    ensures IsValidDob("", Date(2026, 10, 10))
  {
  }

  lemma DobExampleOrdinary()
    ensures IsValidDob("1990/05/15", Date(2026, 10, 10))
  {
    DobDigits("1990/05/15", Date(2026, 10, 10));
  }

  lemma DobExampleLeapDay()
    ensures IsValidDob("2000/02/29", Date(2026, 10, 10))
  {
    DobDigits("2000/02/29", Date(2026, 10, 10));
    assert DobParts("2000/02/29") == Date(2000, 2, 29);
    assert IsLeapYear(2000) && DaysInMonth(2000, 2) == 29;
  }

  lemma DobExampleToday()
    ensures IsValidDob("2026/10/10", Date(2026, 10, 10))
  {
    DobDigits("2026/10/10", Date(2026, 10, 10));
    assert DobParts("2026/10/10") == Date(2026, 10, 10);
    assert DaysInMonth(2026, 10) == 31;
  }

  lemma DobExampleNoSuchDay()
    ensures !IsValidDob("1990/02/30", Date(2026, 10, 10))
  {
    DobDigits("1990/02/30", Date(2026, 10, 10));
  }

  lemma DobExampleCenturyNotLeap()
    ensures !IsValidDob("1900/02/29", Date(2026, 10, 10))
  {
    DobDigits("1900/02/29", Date(2026, 10, 10));
    assert DobParts("1900/02/29") == Date(1900, 2, 29);
    assert !IsLeapYear(1900) && DaysInMonth(1900, 2) == 28;
  }

  lemma DobExampleTomorrow()
    ensures !IsValidDob("2026/10/11", Date(2026, 10, 10))
  {
    DobDigits("2026/10/11", Date(2026, 10, 10));
  }

  lemma DobExampleTooOld()
    ensures !IsValidDob("1875/01/01", Date(2026, 10, 10))
  {
    DobDigits("1875/01/01", Date(2026, 10, 10));
  }

  lemma DobExampleWrongSeparator()
    ensures !IsValidDob("1990-05-15", Date(2026, 10, 10))
  {
    assert "1990-05-15"[4] != '/';
  }

  /** Reads the parts of a concrete `YYYY/MM/DD` string digit by digit. */
  lemma DobDigits(s: string, today: CalendarDate)
    requires |s| == 10 && s[4] == '/' && s[7] == '/'
    requires forall i :: 0 <= i < 10 && i != 4 && i != 7 ==> IsDigit(s[i])
    ensures DobShape(s)
    ensures DobParts(s) == Date(
      1000 * DigitValue(s[0]) + 100 * DigitValue(s[1]) + 10 * DigitValue(s[2]) + DigitValue(s[3]),
      10 * DigitValue(s[5]) + DigitValue(s[6]),
      10 * DigitValue(s[8]) + DigitValue(s[9]))
    ensures var d := DobParts(s);
      IsValidDob(s, today) <==>
      d.year >= 100 && IsRealDate(d) && !After(d, today) && today.year - d.year <= 150
  {
    FourDigits(s[..4]);
    TwoDigits(s[5..7]);
    TwoDigits(s[8..]);
    DobMeaning(s, today);
  }

  lemma FourDigits(s: string)
    requires |s| == 4 && AllDigits(s)
    ensures DigitsValue(s) ==
      1000 * DigitValue(s[0]) + 100 * DigitValue(s[1]) + 10 * DigitValue(s[2]) + DigitValue(s[3])
  {
    var p3 := s[..3];
    var p2 := p3[..2];
    TwoDigits(p2);
    assert DigitsValue(p3) == 10 * DigitsValue(p2) + DigitValue(s[2]);
  }
}
