/**
 * The field normalisers of the applicant form and the spreadsheet importer:
 * phone display formatting, digit-only phones, two-character zero padding,
 * and the string branches of the date and time normalisers.
 *
 * Dates follow the calendar-date forms of section 4.1.2.2 of ISO 8601:2004:
 * the basic form YYYYMMDD and the extended form YYYY-MM-DD.
 */
module Normalize {
  import opened Wrappers
  import opened Text

  /** The local-time fields of a valid host `Date`: getFullYear, getMonth
      (zero-based), getDate, getHours and getMinutes. */
  datatype Moment = Moment(year: int, monthIndex: nat, day: nat, hours: nat, minutes: nat)

  /** The host's `new Date(text)` followed by the `isNaN(d.getTime())` test:
      None for an invalid date. Its result depends on the host runtime and on
      the local time zone, so the normalisers take it as a parameter. */
  type DateParser = string -> Option<Moment>

  const MaxPhoneDigits := 11

  function Min(a: int, b: int): int {
    if a <= b then a else b
  }

  // ---------------------------------------------------------------------------
  // Phones

  /** `normalizePhoneDigits`: every non-digit removed. */
  function NormalizePhoneDigits(value: string): (r: string)
    ensures IsDigits(r) && |r| <= |value|
  {
    if value == [] then []
    else (if IsDigit(value[0]) then [value[0]] else []) + NormalizePhoneDigits(value[1..])
  }

  /** The display layout of at most eleven digits: a hyphen after the third and
      after the seventh digit when digits follow them. */
  function HyphenLayout(digits: string): (r: string)
    requires |digits| <= MaxPhoneDigits
    ensures |r| <= 13
    ensures IsDigits(digits) ==> forall i :: 0 <= i < |r| ==> IsDigit(r[i]) || r[i] == '-'
  {
    if |digits| <= 3 then digits
    else if |digits| <= 7 then digits[..3] + "-" + digits[3..]
    else digits[..3] + "-" + digits[3..7] + "-" + digits[7..]
  }

  /** `formatPhoneNumber`: the first eleven digits in the display layout. */
  function FormatPhoneNumber(value: string): (r: string)
    ensures |r| <= 13
    ensures forall i :: 0 <= i < |r| ==> IsDigit(r[i]) || r[i] == '-'
  {
    var all := NormalizePhoneDigits(value);
    HyphenLayout(all[..Min(MaxPhoneDigits, |all|)])
  }

  /** Digit filtering distributes over concatenation: it keeps the digits in their order. */
  lemma {:induction false} DigitsConcat(a: string, b: string)
    ensures NormalizePhoneDigits(a + b) == NormalizePhoneDigits(a) + NormalizePhoneDigits(b)
  {
    if a == [] {
      assert a + b == b;
    } else {
      assert (a + b)[0] == a[0] && (a + b)[1..] == a[1..] + b;
      DigitsConcat(a[1..], b);
    }
  }

  /** A string is its own digit filter exactly when it is all digits. */
  lemma {:induction false} DigitsFixpoint(s: string)
    ensures NormalizePhoneDigits(s) == s <==> IsDigits(s)
  {
    if s != [] {
      DigitsFixpoint(s[1..]);
      if !IsDigit(s[0]) {
        assert |NormalizePhoneDigits(s)| < |s|;
      }
    }
  }

  /** `normalizePhoneDigits` is idempotent. */
  lemma DigitsIdempotent(s: string)
    ensures NormalizePhoneDigits(NormalizePhoneDigits(s)) == NormalizePhoneDigits(s)
  {
    DigitsFixpoint(NormalizePhoneDigits(s));
  }

  /** A character survives the digit filter exactly when it is a digit of the input. */
  lemma {:induction false} DigitsMembership(s: string, c: char)
    ensures c in NormalizePhoneDigits(s) <==> c in s && IsDigit(c)
  {
    if s != [] {
      DigitsMembership(s[1..], c);
      assert s == [s[0]] + s[1..];
    }
  }

  /** A hyphen between two strings is dropped by the digit filter. */
  lemma DigitsAcrossHyphen(u: string, v: string)
    ensures NormalizePhoneDigits(u + "-" + v) == NormalizePhoneDigits(u) + NormalizePhoneDigits(v)
  {
    var uh := u + "-";
    assert NormalizePhoneDigits("-") == [];
    DigitsConcat(u, "-");
    DigitsConcat(uh, v);
  }

  /** Hyphens between groups of digits are dropped by the digit filter. */
  lemma DigitsOfGroups(x: string, y: string, z: string)
    requires IsDigits(x) && IsDigits(y) && IsDigits(z)
    ensures NormalizePhoneDigits(x + "-" + y) == x + y
    ensures NormalizePhoneDigits(x + "-" + y + "-" + z) == x + y + z
  {
    DigitsFixpoint(x);
    DigitsFixpoint(y);
    DigitsFixpoint(z);
    var w := x + "-" + y;
    DigitsAcrossHyphen(x, y);
    DigitsAcrossHyphen(w, z);
  }

  /** The non-hyphen characters of a formatted phone are the first
      min(11, #digits) digits of the input, in order. */
  lemma FormatPhoneDigits(value: string)
    ensures var all := NormalizePhoneDigits(value);
            NormalizePhoneDigits(FormatPhoneNumber(value)) == all[..Min(MaxPhoneDigits, |all|)]
  {
    var all := NormalizePhoneDigits(value);
    var d := all[..Min(MaxPhoneDigits, |all|)];
    assert IsDigits(d);
    assert FormatPhoneNumber(value) == HyphenLayout(d);
    if |d| <= 3 {
      DigitsFixpoint(d);
    } else if |d| <= 7 {
      var x, y := d[..3], d[3..];
      assert IsDigits(x) && IsDigits(y);
      assert HyphenLayout(d) == x + "-" + y;
      DigitsOfGroups(x, y, "");
      assert x + y == d;
    } else {
      var x, y, z := d[..3], d[3..7], d[7..];
      assert IsDigits(x) && IsDigits(y) && IsDigits(z);
      assert HyphenLayout(d) == x + "-" + y + "-" + z;
      DigitsOfGroups(x, y, z);
      assert x + y + z == d;
    }
  }

  /** Where the hyphens of a formatted phone are: none for up to 3 digits, at
      index 3 only for 4 to 7 digits, at indices 3 and 8 for 8 to 11 digits. */
  lemma FormatPhoneHyphens(value: string)
    ensures var all := NormalizePhoneDigits(value);
            var n := Min(MaxPhoneDigits, |all|);
            var r := FormatPhoneNumber(value);
            && (n <= 3 ==> |r| == n && forall i :: 0 <= i < |r| ==> r[i] != '-')
            && (4 <= n <= 7 ==> |r| == n + 1 && forall i :: 0 <= i < |r| ==> (r[i] == '-' <==> i == 3))
            && (8 <= n ==> |r| == n + 2 && forall i :: 0 <= i < |r| ==> (r[i] == '-' <==> i == 3 || i == 8))
  {
    var all := NormalizePhoneDigits(value);
    var d := all[..Min(MaxPhoneDigits, |all|)];
    assert IsDigits(d);
    LayoutHyphens(d);
  }

  /** Where the display layout puts its hyphens among digits. */
  lemma LayoutHyphens(d: string)
    requires |d| <= MaxPhoneDigits && IsDigits(d)
    ensures var r := HyphenLayout(d);
            && (|d| <= 3 ==> |r| == |d| && forall i :: 0 <= i < |r| ==> r[i] != '-')
            && (4 <= |d| <= 7 ==> |r| == |d| + 1 && forall i :: 0 <= i < |r| ==> (r[i] == '-' <==> i == 3))
            && (8 <= |d| ==> |r| == |d| + 2 && forall i :: 0 <= i < |r| ==> (r[i] == '-' <==> i == 3 || i == 8))
  {
    var r := HyphenLayout(d);
    if |d| <= 3 {
      assert forall i :: 0 <= i < |r| ==> r[i] == d[i];
    } else if |d| <= 7 {
      assert forall i :: 0 <= i < 3 ==> r[i] == d[i];
      assert forall i :: 4 <= i < |r| ==> r[i] == d[i - 1];
    } else {
      assert forall i :: 0 <= i < 3 ==> r[i] == d[i];
      assert forall i :: 4 <= i < 8 ==> r[i] == d[i - 1];
      assert forall i :: 9 <= i < |r| ==> r[i] == d[i - 2];
    }
  }

  /** `formatPhoneNumber` is idempotent: a formatted phone formats to itself. */
  lemma FormatPhoneIdempotent(value: string)
    ensures FormatPhoneNumber(FormatPhoneNumber(value)) == FormatPhoneNumber(value)
  {
    FormatPhoneDigits(value);
    var all := NormalizePhoneDigits(value);
    var d := all[..Min(MaxPhoneDigits, |all|)];
    var r := FormatPhoneNumber(value);
    assert NormalizePhoneDigits(r) == d;
    assert NormalizePhoneDigits(r)[..Min(MaxPhoneDigits, |d|)] == d;
  }

  /** Typing one more digit into a phone field of fewer than eleven digits
      extends the displayed text: the old display is a proper prefix of the new. */
  lemma FormatPhoneExtends(value: string, c: char)
    requires IsDigit(c) && |NormalizePhoneDigits(value)| < MaxPhoneDigits
    ensures var before := FormatPhoneNumber(value);
            var after := FormatPhoneNumber(value + [c]);
            |before| < |after| && before == after[..|before|]
  {
    var d := NormalizePhoneDigits(value);
    DigitsConcat(value, [c]);
    assert NormalizePhoneDigits([c]) == [c];
    FormatShortPhone(value);
    FormatShortPhone(value + [c]);
    LayoutExtends(d, c);
  }

  /** A phone of at most eleven digits is shown as all its digits in the display layout. */
  lemma FormatShortPhone(value: string)
    requires |NormalizePhoneDigits(value)| <= MaxPhoneDigits
    ensures FormatPhoneNumber(value) == HyphenLayout(NormalizePhoneDigits(value))
  {
    var d := NormalizePhoneDigits(value);
    assert d[..Min(MaxPhoneDigits, |d|)] == d;
  }

  /** One more digit extends the layout by that digit, after a hyphen when it starts a group. */
  lemma LayoutExtends(d: string, c: char)
    requires |d| < MaxPhoneDigits
    ensures var tail := if |d| == 3 || |d| == 7 then "-" + [c] else [c];
            HyphenLayout(d + [c]) == HyphenLayout(d) + tail
  {
    var e := d + [c];
    if |d| < 3 {
    } else if |d| == 3 {
      assert e[..3] == d && e[3..] == [c];
    } else if |d| < 7 {
      assert e[..3] == d[..3] && e[3..] == d[3..] + [c];
    } else if |d| == 7 {
      assert e[..3] == d[..3] && e[3..7] == d[3..] && e[7..] == [c];
    } else {
      assert e[..3] == d[..3] && e[3..7] == d[3..7] && e[7..] == d[7..] + [c];
    }
  }

  // ---------------------------------------------------------------------------
  // Padding

  /** `pad2`: `padStart(2, '0')`, zeros in front up to two characters. */
  function Pad2(s: string): (r: string)
    ensures |r| == if |s| < 2 then 2 else |s|
    ensures r[|r| - |s|..] == s
    ensures forall i :: 0 <= i < |r| - |s| ==> r[i] == '0'
  {
    if |s| >= 2 then s else if |s| == 1 then "0" + s else "00"
  }

  /** Padding digits gives digits. */
  lemma Pad2Digits(s: string)
    requires IsDigits(s)
    ensures IsDigits(Pad2(s))
  {
    var r := Pad2(s);
    forall i | 0 <= i < |r| ensures IsDigit(r[i]) {
      if i >= |r| - |s| {
        assert r[i] == r[|r| - |s|..][i - (|r| - |s|)];
      }
    }
  }

  // ---------------------------------------------------------------------------
  // Dates

  /** `/^\d{8}$/`: the basic calendar-date form YYYYMMDD. */
  predicate IsBasicDate(s: string) {
    |s| == 8 && IsDigits(s)
  }

  /** `/^\d{4}-\d{2}-\d{2}$/`: the extended calendar-date form YYYY-MM-DD. */
  predicate IsExtendedDate(s: string) {
    |s| == 10 && IsDigits(s[..4]) && s[4] == '-' && IsDigits(s[5..7]) && s[7] == '-' && IsDigits(s[8..])
  }

  /** A host date written as `${year}-${pad2(month + 1)}-${pad2(day)}`. */
  function FormatMomentDate(m: Moment): string {
    IntToString(m.year) + "-" + Pad2(NatToString(m.monthIndex + 1)) + "-" + Pad2(NatToString(m.day))
  }

  /** The basic form YYYYMMDD with hyphens put after the year and the month. */
  function Hyphenate(s: string): (r: string)
    requires IsBasicDate(s)
    ensures IsExtendedDate(r)
  {
    var r := s[..4] + "-" + s[4..6] + "-" + s[6..];
    assert r[..4] == s[..4] && r[5..7] == s[4..6] && r[8..] == s[6..];
    r
  }

  /** The host fallback of `normalizeDate`: the text parsed by the host, or the
      text itself when the host rejects it. */
  function HostDate(str: string, parse: DateParser): (r: string)
    ensures parse(str).None? ==> r == str
    ensures parse(str).Some? && ValidDate(parse(str).value) ==> IsExtendedDate(r)
  {
    match parse(str)
    case Some(m) =>
      if ValidDate(m) then MomentDateExtended(m); FormatMomentDate(m)
      else FormatMomentDate(m)
    case None => str
  }

  /** `normalizeDate` on a string: trim; empty stays empty; basic form gains its
      hyphens; extended form passes; anything else goes through the host parser
      and is returned trimmed when the parser rejects it. */
  function NormalizeDate(value: string, parse: DateParser): (r: string)
    ensures r == "" <==> Trim(value) == ""
    ensures IsBasicDate(Trim(value)) || IsExtendedDate(Trim(value)) ==> IsExtendedDate(r)
  {
    var str := Trim(value);
    if str == "" then ""
    else if IsBasicDate(str) then Hyphenate(str)
    else if IsExtendedDate(str) then str
    else HostDate(str, parse)
  }

  /** Basic to extended is a round trip: dropping the hyphens gives the basic form back. */
  lemma BasicDateRoundTrip(value: string, parse: DateParser)
    requires IsBasicDate(Trim(value))
    ensures var s := Trim(value);
            var r := NormalizeDate(value, parse);
            && r == s[..4] + "-" + s[4..6] + "-" + s[6..]
            && IsExtendedDate(r) && NormalizePhoneDigits(r) == s
  {
    var s := Trim(value);
    DigitsOfGroups(s[..4], s[4..6], s[6..]);
    assert s[..4] + s[4..6] + s[6..] == s;
  }

  /** A date already in extended form (after trimming) is returned unchanged. */
  lemma ExtendedDateUnchanged(value: string, parse: DateParser)
    requires IsExtendedDate(Trim(value))
    ensures NormalizeDate(value, parse) == Trim(value)
  {
    assert !IsDigit(Trim(value)[4]);
  }

  /** An extended-form date is a fixed point of `normalizeDate`. */
  lemma ExtendedDateFixed(s: string, parse: DateParser)
    requires IsExtendedDate(s)
    ensures NormalizeDate(s, parse) == s
  {
    assert IsDigit(s[..4][0]) && IsDigit(s[8..][1]);
    TrimUnchanged(s);
    ExtendedDateUnchanged(s, parse);
  }

  /** Four digits, two digits and two digits joined by hyphens are an extended-form date. */
  lemma ExtendedFromParts(y: string, mm: string, dd: string)
    requires |y| == 4 && |mm| == 2 && |dd| == 2 && IsDigits(y) && IsDigits(mm) && IsDigits(dd)
    ensures IsExtendedDate(y + "-" + mm + "-" + dd)
  {
    var r := y + "-" + mm + "-" + dd;
    assert r[..4] == y && r[5..7] == mm && r[8..] == dd;
  }

  /** A number below 100 written with `pad2` is two digits. */
  lemma Pad2Number(n: nat)
    requires n < 100
    ensures var r := Pad2(NatToString(n)); |r| == 2 && IsDigits(r)
  {
  }

  /** A host date with a four-digit year, a month index below 12 and a day from 1 to 31. */
  predicate ValidDate(m: Moment) {
    1000 <= m.year <= 9999 && m.monthIndex < 12 && 1 <= m.day <= 31
  }

  /** A host date with a four-digit year and a valid month and day is written in extended form. */
  lemma MomentDateExtended(m: Moment)
    requires ValidDate(m)
    ensures IsExtendedDate(FormatMomentDate(m))
  {
    Pad2Number(m.monthIndex + 1);
    Pad2Number(m.day);
    ExtendedFromParts(IntToString(m.year), Pad2(NatToString(m.monthIndex + 1)), Pad2(NatToString(m.day)));
  }

  /** Normalising a date twice gives what normalising once gave, whenever the
      first pass did not depend on a host date outside the four-digit years:
      for empty, basic and extended inputs, strings the host rejects, and
      valid host dates with a four-digit year. */
  lemma NormalizeDateIdempotent(value: string, parse: DateParser)
    requires var s := Trim(value);
             s == "" || IsBasicDate(s) || IsExtendedDate(s) || parse(s).None?
             || ValidDate(parse(s).value)
    ensures NormalizeDate(NormalizeDate(value, parse), parse) == NormalizeDate(value, parse)
  {
    var s := Trim(value);
    var r := NormalizeDate(value, parse);
    if s == "" {
    } else if IsBasicDate(s) || IsExtendedDate(s) {
      ExtendedDateFixed(r, parse);
    } else if parse(s).None? {
      assert r == s;
      TrimIdempotent(value);
    } else {
      assert r == FormatMomentDate(parse(s).value);
      MomentDateExtended(parse(s).value);
      ExtendedDateFixed(r, parse);
    }
  }

  // ---------------------------------------------------------------------------
  // Times

  /** `/^(\d{1,2}):(\d{2})$/`: one or two hour digits, a colon, two minute digits. */
  predicate IsClock(s: string) {
    (|s| == 4 || |s| == 5) && s[|s| - 3] == ':' && IsDigits(s[..|s| - 3]) && IsDigits(s[|s| - 2..])
  }

  /** The canonical time form HH:MM. */
  predicate IsCanonicalTime(s: string) {
    |s| == 5 && IsClock(s)
  }

  /** The prefix `normalizeTime` puts before a time so that the host parses it as a timestamp. */
  const ReferenceDay := "1970-01-01T"

  /** A host time of day: hours below 24, minutes below 60. */
  predicate ValidTime(m: Moment) {
    m.hours < 24 && m.minutes < 60
  }

  /** A valid host time is written in the canonical HH:MM form. */
  lemma MomentTimeCanonical(m: Moment)
    requires ValidTime(m)
    ensures IsCanonicalTime(FormatMomentTime(m))
  {
    Pad2Number(m.hours);
    Pad2Number(m.minutes);
    var h, mm := Pad2(NatToString(m.hours)), Pad2(NatToString(m.minutes));
    var r := h + ":" + mm;
    assert r[..2] == h && r[3..] == mm;
  }

  /** A host time written as `${pad2(hours)}:${pad2(minutes)}`. */
  function FormatMomentTime(m: Moment): string {
    Pad2(NatToString(m.hours)) + ":" + Pad2(NatToString(m.minutes))
  }

  /** A clock time with its hour left-padded to two digits. */
  function PadClock(s: string): (r: string)
    requires IsClock(s)
    ensures IsCanonicalTime(r)
  {
    var hour := Pad2(s[..|s| - 3]);
    var minutes := s[|s| - 2..];
    Pad2Digits(s[..|s| - 3]);
    var r := hour + ":" + minutes;
    assert r[..2] == hour && r[3..] == minutes;
    r
  }

  /** The host fallback of `normalizeTime`: the text after the reference day,
      parsed by the host, or the text itself when the host rejects it. */
  function HostTime(str: string, parse: DateParser): (r: string)
    ensures parse(ReferenceDay + str).None? ==> r == str
    ensures parse(ReferenceDay + str).Some? && ValidTime(parse(ReferenceDay + str).value) ==> IsCanonicalTime(r)
  {
    match parse(ReferenceDay + str)
    case Some(m) =>
      if ValidTime(m) then MomentTimeCanonical(m); FormatMomentTime(m)
      else FormatMomentTime(m)
    case None => str
  }

  /** `normalizeTime` on a string: trim; empty stays empty; H:MM and HH:MM get a
      two-digit hour; anything else goes through the host parser after the
      reference day and is returned trimmed when the parser rejects it. */
  function NormalizeTime(value: string, parse: DateParser): (r: string)
    ensures r == "" <==> Trim(value) == ""
    ensures IsClock(Trim(value)) ==> IsCanonicalTime(r)
  {
    var str := Trim(value);
    if str == "" then ""
    else if IsClock(str) then PadClock(str)
    else HostTime(str, parse)
  }

  /** A clock time keeps its minutes and gets its hour left-padded with '0' to two digits. */
  lemma ClockPadded(value: string, parse: DateParser)
    requires IsClock(Trim(value))
    ensures var s := Trim(value);
            var r := NormalizeTime(value, parse);
            |r| == 5 && r[..2] == Pad2(s[..|s| - 3]) && r[2] == ':' && r[3..] == s[|s| - 2..]
  {
  }

  /** A canonical HH:MM time is a fixed point of `normalizeTime`. */
  lemma CanonicalTimeFixed(s: string, parse: DateParser)
    requires IsCanonicalTime(s)
    ensures NormalizeTime(s, parse) == s
  {
    assert IsDigit(s[..2][0]) && IsDigit(s[3..][1]);
    TrimUnchanged(s);
    assert s[..2] + ":" + s[3..] == s;
  }

  /** `normalizeTime` is idempotent on clock times. */
  lemma NormalizeTimeIdempotent(value: string, parse: DateParser)
    requires IsClock(Trim(value))
    ensures NormalizeTime(NormalizeTime(value, parse), parse) == NormalizeTime(value, parse)
  {
    CanonicalTimeFixed(NormalizeTime(value, parse), parse);
  }

  /** A one-digit hour gains a leading zero: H:MM becomes 0H:MM. */
  lemma ShortHourGainsZero(h: char, mm: string, parse: DateParser)
    requires IsDigit(h) && |mm| == 2 && IsDigits(mm)
    ensures NormalizeTime([h] + ":" + mm, parse) == ['0', h] + ":" + mm
  {
    var s := [h] + ":" + mm;
    assert s[..1] == [h] && s[2..] == mm;
    assert IsClock(s);
    assert s[0] == h && s[3] == mm[1];
    TrimUnchanged(s);
    assert NormalizeTime(s, parse) == PadClock(s);
    assert Pad2([h]) == ['0', h];
  }

  /** A basic-form date gains hyphens after the year and the month. */
  lemma BasicDateHyphenated(y: string, mm: string, dd: string, parse: DateParser)
    requires |y| == 4 && |mm| == 2 && |dd| == 2 && IsDigits(y) && IsDigits(mm) && IsDigits(dd)
    ensures NormalizeDate(y + mm + dd, parse) == y + "-" + mm + "-" + dd
  {
    var s := y + mm + dd;
    assert s[..4] == y && s[4..6] == mm && s[6..] == dd;
    assert IsBasicDate(s);
    assert s[0] == y[0] && s[7] == dd[1];
    TrimUnchanged(s);
    assert NormalizeDate(s, parse) == Hyphenate(s);
  }

  /** H:M with a single minute digit misses the clock pattern: it goes to the
      host parser after the reference day. It comes back as the host's time
      with hours and minutes padded when the host accepts it, and as typed
      when the host rejects it. */
  lemma SingleMinuteDigitToHost(h: char, m: char, parse: DateParser)
    requires IsDigit(h) && IsDigit(m)
    ensures NormalizeTime([h, ':', m], parse) == HostTime([h, ':', m], parse)
    ensures parse(ReferenceDay + [h, ':', m]).None? ==> NormalizeTime([h, ':', m], parse) == [h, ':', m]
    ensures parse(ReferenceDay + [h, ':', m]).Some? ==>
              NormalizeTime([h, ':', m], parse) == FormatMomentTime(parse(ReferenceDay + [h, ':', m]).value)
    ensures parse(ReferenceDay + [h, ':', m]).Some? && ValidTime(parse(ReferenceDay + [h, ':', m]).value) ==>
              IsCanonicalTime(NormalizeTime([h, ':', m], parse))
  {
    var s := [h, ':', m];
    assert !IsClock(s);
    TrimUnchanged(s);
  }

  /** An example: "14:00" stays. */
  lemma CanonicalTimeExample(parse: DateParser)
    ensures NormalizeTime("14:00", parse) == "14:00"
  {
    var s := "14:00";
    assert IsDigits(s[..2]) && IsDigits(s[3..]);
    CanonicalTimeFixed(s, parse);
  }

  /** An example: "1995-03-15" stays. */
  lemma ExtendedDateExample(parse: DateParser)
    ensures NormalizeDate("1995-03-15", parse) == "1995-03-15"
  {
    var s := "1995-03-15";
    assert IsDigits(s[..4]) && IsDigits(s[5..7]) && IsDigits(s[8..]);
    ExtendedDateFixed(s, parse);
  }
}
