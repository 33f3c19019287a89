/** The small part of JavaScript string behaviour the kiosk script relies on:
    the whitespace class shared by `\s` and `String.prototype.trim`, decimal
    digits and `parseInt` on digit runs, decimal rendering of a number,
    `String.prototype.includes`, and the list a `forEach` loop visits when
    it returns early on the elements it skips. */
module JsText {

  datatype Option<+T> = None | Some(value: T)

  /** ECMAScript WhiteSpace plus LineTerminator: the set `\s` matches and
      `trim` removes (tab, VT, FF, space, NBSP, ZWNBSP, the Unicode space
      separators, LF, CR, LS, PS). */
  predicate IsJsSpace(c: char) {
    || c == '\t' || c == '\n' || c == '\U{000B}' || c == '\U{000C}' || c == '\r'
    || c == ' ' || c == '\U{00A0}' || c == '\U{1680}'
    || ('\U{2000}' <= c <= '\U{200A}')
    || c == '\U{2028}' || c == '\U{2029}' || c == '\U{202F}' || c == '\U{205F}'
    || c == '\U{3000}' || c == '\U{FEFF}'
  }

  predicate NoSpace(s: string) {
    forall i :: 0 <= i < |s| ==> !IsJsSpace(s[i])
  }

  /** Number of whitespace characters at the front of `s`. */
  function LeadingSpaces(s: string): (k: nat)
    ensures k <= |s|
    ensures forall i :: 0 <= i < k ==> IsJsSpace(s[i])
    ensures k < |s| ==> !IsJsSpace(s[k])
  {
    if |s| == 0 || !IsJsSpace(s[0]) then 0
    else 1 + LeadingSpaces(s[1..])
  }

  /** Number of whitespace characters at the back of `s`. */
  function TrailingSpaces(s: string): (k: nat)
    ensures k <= |s|
    ensures forall i :: |s| - k <= i < |s| ==> IsJsSpace(s[i])
    ensures k < |s| ==> !IsJsSpace(s[|s| - k - 1])
  {
    if |s| == 0 || !IsJsSpace(s[|s| - 1]) then 0
    else 1 + TrailingSpaces(s[..|s| - 1])
  }

  /** `String.prototype.trim`. */
  function Trim(s: string): (r: string)
  {
    var t := s[LeadingSpaces(s)..];
    t[..|t| - TrailingSpaces(t)]
  }

  /** What trimming means: the result is a slice of the input with only
      whitespace cut from either end, and it neither starts nor ends with
      whitespace. */
  lemma TrimIsSlice(s: string)
    ensures var r := Trim(s);
      exists i, j :: 0 <= i <= j <= |s| && r == s[i..j]
        && (forall k :: 0 <= k < i ==> IsJsSpace(s[k]))
        && (forall k :: j <= k < |s| ==> IsJsSpace(s[k]))
    ensures var r := Trim(s); |r| == 0 || (!IsJsSpace(r[0]) && !IsJsSpace(r[|r| - 1]))
  {
    var i := LeadingSpaces(s);
    var t := s[i..];
    var j := i + |t| - TrailingSpaces(t);
    assert Trim(s) == s[i..j];
    forall k | j <= k < |s| ensures IsJsSpace(s[k]) {
      assert s[k] == t[k - i];
    }
  }

  /** A string with no whitespace at either end is left as it is. */
  lemma TrimFixed(s: string)
    requires |s| == 0 || (!IsJsSpace(s[0]) && !IsJsSpace(s[|s| - 1]))
    ensures Trim(s) == s
  {
  }

  /** Trimming twice is trimming once. */
  lemma TrimIdempotent(s: string)
    ensures Trim(Trim(s)) == Trim(s)
  {
    TrimIsSlice(s);
    TrimFixed(Trim(s));
  }

  /** A string without any whitespace is its own trim. */
  lemma NoSpaceTrimFixed(s: string)
    requires NoSpace(s)
    ensures Trim(s) == s
  {
    if |s| > 0 {
      assert !IsJsSpace(s[0]) && !IsJsSpace(s[|s| - 1]);
    }
    TrimFixed(s);
  }

  /** `String.prototype.length`: the number of UTF-16 code units, two for a
      character outside the Basic Multilingual Plane. */
  function Utf16Length(s: string): (n: nat)
    ensures |s| <= n <= 2 * |s|
    ensures n == |s| <==> forall i :: 0 <= i < |s| ==> s[i] as int <= 0xFFFF
  {
    if |s| == 0 then 0
    else
      var n := Utf16Length(s[..|s| - 1]) + (if s[|s| - 1] as int > 0xFFFF then 2 else 1);
      assert forall i :: 0 <= i < |s| - 1 ==> s[..|s| - 1][i] == s[i];
      n
  }

  // ---------------------------------------------------------------------
  // Decimal digits

  /** The regular-expression class `\d` (ASCII digits only). */
  predicate IsDigit(c: char) {
    '0' <= c <= '9'
  }

  predicate AllDigits(s: string) {
    forall i :: 0 <= i < |s| ==> IsDigit(s[i])
  }

  function DigitValue(c: char): (v: nat)
    requires IsDigit(c)
    ensures v <= 9
  {
    (c as int) - ('0' as int)
  }

  function DigitChar(v: nat): (c: char)
    requires v <= 9
    ensures IsDigit(c) && DigitValue(c) == v
  {
    (('0' as int) + v) as char
  }

  /** `parseInt(s, 10)` on a string that is all digits. */
  function DigitsValue(s: string): (v: nat)
    requires AllDigits(s)
    decreases |s|
  {
    if |s| == 0 then 0
    else 10 * DigitsValue(s[..|s| - 1]) + DigitValue(s[|s| - 1])
  }

  /** The value of a two-digit run. */
  lemma TwoDigits(s: string)
    requires |s| == 2 && AllDigits(s)
    ensures DigitsValue(s) == 10 * DigitValue(s[0]) + DigitValue(s[1])
  {
    var p := s[..1];
    assert DigitsValue(p[..0]) == 0;
    assert DigitsValue(p) == DigitValue(s[0]);
    assert DigitsValue(s) == 10 * DigitsValue(p) + DigitValue(s[1]);
  }

  /** The decimal rendering JavaScript uses for a non-negative integer in a
      template literal: no sign, no leading zeros. */
  function DecimalString(n: nat): (s: string)
    ensures |s| >= 1 && AllDigits(s)
    ensures |s| > 1 ==> s[0] != '0'
    decreases n
  {
    if n < 10 then [DigitChar(n)]
    else DecimalString(n / 10) + [DigitChar(n % 10)]
  }

  /** Reading a rendered number back gives the number. */
  lemma {:induction false} DecimalStringRoundTrip(n: nat)
    ensures DigitsValue(DecimalString(n)) == n
    decreases n
  {
    if n >= 10 {
      var s := DecimalString(n);
      assert s[..|s| - 1] == DecimalString(n / 10);
      DecimalStringRoundTrip(n / 10);
    }
  }

  // ---------------------------------------------------------------------
  // Substring search

  /** `needle` occurs in `s` starting at index `i`. */
  predicate OccursAt(s: string, needle: string, i: nat) {
    i + |needle| <= |s| && s[i..i + |needle|] == needle
  }

  /** `s.includes(needle)`, scanning from index `from`. */
  function IncludesFrom(s: string, needle: string, from: nat): (b: bool)
    requires from <= |s|
    ensures b <==> exists i :: from <= i <= |s| && OccursAt(s, needle, i)
    decreases |s| - from
  {
    if OccursAt(s, needle, from) then true
    else if from == |s| then false
    else IncludesFrom(s, needle, from + 1)
  }

  function Includes(s: string, needle: string): (b: bool)
    ensures b <==> exists i :: 0 <= i <= |s| && OccursAt(s, needle, i)
  {
    IncludesFrom(s, needle, 0)
  }

  /** Anything placed around the needle keeps it included. */
  lemma IncludesInContext(pre: string, needle: string, post: string)
    ensures Includes(pre + needle + post, needle)
  {
    var s := pre + needle + post;
    assert s[|pre|..|pre| + |needle|] == needle;
    assert OccursAt(s, needle, |pre|);
  }

  // ---------------------------------------------------------------------
  // Lists

  /** The elements of `xs` that `keep` accepts, in their order: what a
      `forEach` loop processes when it returns early on every element it
      skips (and what `xs.filter(keep)` returns). */
  function Filter<T>(xs: seq<T>, keep: T -> bool): seq<T>
    decreases |xs|
  {
    if |xs| == 0 then []
    else (if keep(xs[0]) then [xs[0]] else []) + Filter(xs[1..], keep)
  }

  /** One step of the filter. */
  lemma FilterUnfold<T>(xs: seq<T>, keep: T -> bool)
    requires |xs| > 0
    ensures Filter(xs, keep) == (if keep(xs[0]) then [xs[0]] else []) + Filter(xs[1..], keep)
  {
  }

  /** Filtering respects concatenation, so order is kept and counts add. */
  lemma {:induction false} FilterAppend<T>(a: seq<T>, b: seq<T>, keep: T -> bool)
    ensures Filter(a + b, keep) == Filter(a, keep) + Filter(b, keep)
    decreases |a|
  {
    if |a| == 0 {
      assert a + b == b;
    } else {
      assert (a + b)[0] == a[0];
      assert (a + b)[1..] == a[1..] + b;
      FilterUnfold(a + b, keep);
      FilterUnfold(a, keep);
      FilterAppend(a[1..], b, keep);
      var h := if keep(a[0]) then [a[0]] else [];
      assert Filter(a, keep) + Filter(b, keep) == h + (Filter(a[1..], keep) + Filter(b, keep));
    }
  }

  /** Every kept element is accepted and comes from the input. */
  lemma {:induction false} FilterSound<T>(xs: seq<T>, keep: T -> bool)
    ensures |Filter(xs, keep)| <= |xs|
    ensures forall k :: 0 <= k < |Filter(xs, keep)| ==> keep(Filter(xs, keep)[k]) && Filter(xs, keep)[k] in xs
    decreases |xs|
  {
    if |xs| > 0 {
      var rest := xs[1..];
      var kept, later := Filter(xs, keep), Filter(rest, keep);
      FilterSound(rest, keep);
      FilterUnfold(xs, keep);
      var h := if keep(xs[0]) then [xs[0]] else [];
      assert kept == h + later;
      forall k | |h| <= k < |kept|
        ensures keep(kept[k]) && kept[k] in xs
      {
        assert kept[k] == later[k - |h|];
        var j :| 0 <= j < |rest| && rest[j] == kept[k];
        assert xs[j + 1] == kept[k];
      }
    }
  }

  /** Every accepted element of the input is kept. */
  lemma {:induction false} FilterComplete<T>(xs: seq<T>, keep: T -> bool)
    ensures forall i :: 0 <= i < |xs| && keep(xs[i]) ==> xs[i] in Filter(xs, keep)
    decreases |xs|
  {
    if |xs| > 0 {
      var rest := xs[1..];
      var kept, later := Filter(xs, keep), Filter(rest, keep);
      FilterComplete(rest, keep);
      FilterUnfold(xs, keep);
      var h := if keep(xs[0]) then [xs[0]] else [];
      assert kept == h + later;
      forall i | 1 <= i < |xs| && keep(xs[i])
        ensures xs[i] in kept
      {
        assert xs[i] == rest[i - 1];
        var j :| 0 <= j < |later| && later[j] == xs[i];
        assert kept[|h| + j] == xs[i];
      }
    }
  }

  /** When every element is accepted, filtering changes nothing. */
  lemma {:induction false} FilterAllKept<T>(xs: seq<T>, keep: T -> bool)
    requires forall i :: 0 <= i < |xs| ==> keep(xs[i])
    ensures Filter(xs, keep) == xs
    decreases |xs|
  {
    if |xs| > 0 {
      var rest := xs[1..];
      assert forall i :: 0 <= i < |rest| ==> rest[i] == xs[i + 1];
      FilterAllKept(rest, keep);
      FilterUnfold(xs, keep);
      assert xs == [xs[0]] + rest;
    }
  }

  /** The filter keeps nothing exactly when it accepts no element. */
  lemma FilterEmptyIff<T>(xs: seq<T>, keep: T -> bool)
    ensures |Filter(xs, keep)| == 0 <==> forall i :: 0 <= i < |xs| ==> !keep(xs[i])
  {
    FilterSound(xs, keep);
    FilterComplete(xs, keep);
    if |Filter(xs, keep)| > 0 {
      var i :| 0 <= i < |xs| && xs[i] == Filter(xs, keep)[0];
    }
  }

  /** `xs.map(f)`: one output per input, in order. */
  function Map<T, U>(xs: seq<T>, f: T -> U): (ys: seq<U>)
    ensures |ys| == |xs|
  {
    seq(|xs|, k requires 0 <= k < |xs| => f(xs[k]))
  }

  /** Mapping respects concatenation. */
  lemma MapAppend<T, U>(a: seq<T>, b: seq<T>, f: T -> U)
    ensures Map(a + b, f) == Map(a, f) + Map(b, f)
  {
    assert forall k :: 0 <= k < |a| + |b| ==> Map(a + b, f)[k] == (Map(a, f) + Map(b, f))[k];
  }
}
