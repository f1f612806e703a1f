/** Timestamps: RFC 3339 text to Unix seconds and back (sections 5.6 and 5.7 of RFC 3339). */
module Timestamps {
  import opened Prelude
  import opened Text
  import opened Calendar

  const DAY := 86_400

  // ---------- Text ----------

  function TrimStart(s: string): (r: string)
    ensures |r| <= |s|
  {
    if s != [] && IsWhitespace(s[0]) then TrimStart(s[1..]) else s
  }

  function TrimEnd(s: string): (r: string)
    ensures |r| <= |s|
  {
    if s != [] && IsWhitespace(s[|s| - 1]) then TrimEnd(s[..|s| - 1]) else s
  }

  function Trim(s: string): string {
    TrimEnd(TrimStart(s))
  }

  predicate IsDigit(c: char) {
    '0' <= c <= '9'
  }

  function ParseDigits(s: string, acc: nat): Option<nat> {
    if s == [] then Some(acc)
    else if IsDigit(s[0]) then ParseDigits(s[1..], 10 * acc + (s[0] as int - '0' as int))
    else None
  }

  /** Integer parsing of the host language: one optional sign, then at least one digit. */
  function ParseUnsigned(s: string): Option<nat> {
    if s == [] then None
    else if s[0] == '+' then (if |s| == 1 then None else ParseDigits(s[1..], 0))
    else ParseDigits(s, 0)
  }

  function ParseSigned(s: string): Option<int> {
    if s != [] && s[0] == '-' then
      if |s| == 1 then None
      else var n: int :- ParseDigits(s[1..], 0); Some(-n)
    else
      var n :- ParseUnsigned(s); Some(n)
  }

  // ---------- Parsing ----------

  function ParseDate(v: string): Option<CivilDate> {
    if |v| != 10 || (v[4] != '-' && v[4] != '/') || v[7] != v[4] then None
    else
      var year :- ParseSigned(v[0..4]);
      var month :- ParseUnsigned(v[5..7]);
      var day :- ParseUnsigned(v[8..10]);
      var d := CivilDate(year, month, day);
      if DaysFromCivil(d).Some? then Some(d) else None
  }

  /** Seconds of day. The fields may carry a sign, and only upper bounds are checked. */
  function ParseClock(v: string): Option<int>
    requires |v| >= 19
  {
    if v[10] !in {'T', 't', ' '} || v[13] != ':' || v[16] != ':' then None
    else
      var hour :- ParseSigned(v[11..13]);
      var minute :- ParseSigned(v[14..16]);
      var second :- ParseSigned(v[17..19]);
      if hour > 23 || minute > 59 || second > 59 then None else Some(hour * 3600 + minute * 60 + second)
  }

  function LeadingDigits(s: string): (n: nat)
    ensures n <= |s|
  {
    if s != [] && IsDigit(s[0]) then 1 + LeadingDigits(s[1..]) else 0
  }

  /** Drops a fraction of a second, which needs at least one digit. */
  function DropFraction(suffix: string): Option<string> {
    if suffix == [] || suffix[0] != '.' then Some(suffix)
    else
      var n := LeadingDigits(suffix[1..]);
      if n == 0 then None else Some(suffix[1 + n..])
  }

  function ParseOffset(suffix: string): Option<int> {
    if suffix in {"", "Z", "z"} then Some(0)
    else if |suffix| == 6 && suffix[0] in {'+', '-'} && suffix[3] == ':' then
      var hours :- ParseSigned(suffix[1..3]);
      var minutes :- ParseSigned(suffix[4..6]);
      if hours > 23 || minutes > 59 then None
      else Some(if suffix[0] == '-' then -(hours * 3600 + minutes * 60) else hours * 3600 + minutes * 60)
    else None
  }

  /** The instant written by date and clock, before any offset is applied. */
  function LocalInstant(v: string): Option<I64>
    requires |v| >= 19
  {
    var date :- ParseDate(v[..10]);
    var days :- DaysFromCivil(date);
    var dayStart :- Checked(days * DAY);
    var clock :- ParseClock(v);
    Checked(dayStart + clock)
  }

  /** What follows the clock: an optional fraction, then an optional offset, which is subtracted. */
  function ApplySuffix(local: I64, tail: string): Option<I64> {
    var suffix :- DropFraction(tail);
    var offset :- ParseOffset(suffix);
    Checked(local - offset)
  }

  function ParseTimestamp(value: string): Option<I64> {
    var v := Trim(value);
    if |v| == 10 then
      var date :- ParseDate(v);
      var days :- DaysFromCivil(date);
      Checked(days * DAY)
    else if |v| < 19 then None
    else
      var local :- LocalInstant(v);
      ApplySuffix(local, v[19..])
  }

  // ---------- Printing ----------

  function Digit(n: nat): char
    requires n < 10
  {
    '0' + n as char
  }

  function Pad2(n: nat): string
    requires n < 100
  {
    [Digit(n / 10), Digit(n % 10)]
  }

  function Pad4(n: nat): string
    requires n < 10_000
  {
    Pad2(n / 100) + Pad2(n % 100)
  }

  function Render(d: CivilDate, hour: nat, minute: nat, second: nat): string
    requires 0 <= d.year < 10_000 && d.month < 100 && d.day < 100 && hour < 100 && minute < 100 && second < 100
  {
    Pad4(d.year) + "-" + Pad2(d.month) + "-" + Pad2(d.day) + "T" + Pad2(hour) + ":" + Pad2(minute) + ":" +
      Pad2(second) + "Z"
  }

  /** A date and the seconds of its day. */
  function RenderAt(d: CivilDate, seconds: nat): string
    requires IsValid(d) && seconds < DAY
  {
    Render(d, seconds / 3600, seconds % 3600 / 60, seconds % 60)
  }

  function FormatTimestamp(ts: I64): Option<string> {
    var date :- CivilFromDays(ts / DAY);
    DaysRoundTrip(ts / DAY);
    Some(RenderAt(date, ts % DAY))
  }

  // ---------- Lemmas ----------

  lemma DigitIsDigit(n: nat)
    requires n < 10
    ensures IsDigit(Digit(n)) && Digit(n) as int - '0' as int == n && Digit(n) != '+' && Digit(n) != '-' &&
      Digit(n) != '.'
    ensures !IsWhitespace(Digit(n))
  {
  }

  lemma ParsePad2(n: nat)
    requires n < 100
    ensures |Pad2(n)| == 2 && ParseUnsigned(Pad2(n)) == Some(n) && ParseSigned(Pad2(n)) == Some(n)
  {
    DigitIsDigit(n / 10);
    DigitIsDigit(n % 10);
    var s := Pad2(n);
    assert s[1..] == [s[1]] && s[1..][1..] == [];
    assert ParseDigits(s, 0) == ParseDigits(s[1..], n / 10) == ParseDigits([], n) == Some(n);
  }

  lemma ParsePad4(n: nat)
    requires n < 10_000
    ensures |Pad4(n)| == 4 && ParseSigned(Pad4(n)) == Some(n)
  {
    var a, b, c, d := n / 100 / 10, n / 100 % 10, n % 100 / 10, n % 100 % 10;
    DigitIsDigit(a);
    DigitIsDigit(b);
    DigitIsDigit(c);
    DigitIsDigit(d);
    var s := Pad4(n);
    assert s == [Digit(a), Digit(b), Digit(c), Digit(d)];
    assert s[1..] == [s[1], s[2], s[3]] && s[1..][1..] == [s[2], s[3]] && s[1..][1..][1..] == [s[3]];
    assert ParseDigits(s, 0) == ParseDigits([s[1], s[2], s[3]], a) == ParseDigits([s[2], s[3]], 10 * a + b)
        == ParseDigits([s[3]], 100 * a + 10 * b + c) == ParseDigits([], n);
  }

  lemma TrimIsIdentity(s: string)
    requires s != [] && !IsWhitespace(s[0]) && !IsWhitespace(s[|s| - 1])
    ensures Trim(s) == s
  {
  }

  lemma RenderShape(d: CivilDate, hour: nat, minute: nat, second: nat)
    requires 0 <= d.year < 10_000 && d.month < 100 && d.day < 100 && hour < 100 && minute < 100 && second < 100
    ensures var s := Render(d, hour, minute, second);
      && |s| == 20 && s[0..4] == Pad4(d.year) && s[4] == '-' && s[5..7] == Pad2(d.month) && s[7] == '-'
      && s[8..10] == Pad2(d.day)
      && s[10] == 'T' && s[11..13] == Pad2(hour) && s[13] == ':' && s[14..16] == Pad2(minute) && s[16] == ':'
      && s[17..19] == Pad2(second) && s[19..] == "Z" && Trim(s) == s
  {
    var s := Render(d, hour, minute, second);
    assert |Pad4(d.year)| == 4;
    assert s[19..] == "Z";
    assert s[0] == Pad4(d.year)[0] == Digit(d.year / 100 / 10);
    DigitIsDigit(d.year / 100 / 10);
    TrimIsIdentity(s);
  }

  lemma ParseRendered(d: CivilDate, hour: nat, minute: nat, second: nat)
    requires IsValid(d) && hour <= 23 && minute <= 59 && second <= 59
    ensures ParseTimestamp(Render(d, hour, minute, second)) ==
      Some(DayNumber(d) * DAY + hour * 3600 + minute * 60 + second)
  {
    hide DayNumber, DateOf, Render, DaysFromCivil, ParseDate;
    var s := Render(d, hour, minute, second);
    RenderShape(d, hour, minute, second);
    RenderedDate(d, s);
    ParsePad2(hour);
    ParsePad2(minute);
    ParsePad2(second);
    ValidDayNumbers(d);
    assert DropFraction("Z") == Some("Z");
  }

  lemma RenderedDate(d: CivilDate, s: string)
    requires IsValid(d) && |s| >= 10
    requires s[0..4] == Pad4(d.year) && s[4] == '-' && s[5..7] == Pad2(d.month) && s[7] == '-' &&
      s[8..10] == Pad2(d.day)
    ensures ParseDate(s[..10]) == Some(d) && DaysFromCivil(d) == Some(DayNumber(d))
  {
    var v := s[..10];
    assert v[0..4] == s[0..4] && v[5..7] == s[5..7] && v[8..10] == s[8..10];
    ParsePad4(d.year);
    ParsePad2(d.month);
    ParsePad2(d.day);
    DaysFromCivilDefined(d);
  }

  /** A day and its seconds of day determine the instant. */
  lemma ClockRoundTrip(seconds: nat)
    requires seconds < DAY
    ensures seconds / 3600 <= 23 && seconds % 3600 / 60 <= 59 && seconds % 60 <= 59
    ensures (seconds / 3600) * 3600 + (seconds % 3600 / 60) * 60 + seconds % 60 == seconds
  {
    var hour, rest := seconds / 3600, seconds % 3600;
    DivUnique(seconds, 60, 60 * hour + rest / 60);
  }

  /** What is printed parses back to the same instant. */
  lemma FormatThenParse(ts: I64)
    requires FormatTimestamp(ts).Some?
    ensures ParseTimestamp(FormatTimestamp(ts).value) == Some(ts)
  {
    var d := PrintedDate(ts);
    ParsePrinted(d, ts, ts % DAY, DayNumber(d));
  }

  lemma ParsePrinted(d: CivilDate, ts: I64, seconds: nat, days: int)
    requires IsValid(d) && seconds < DAY && ts == days * DAY + seconds && days == DayNumber(d)
    ensures ParseTimestamp(RenderAt(d, seconds)) == Some(ts)
  {
    hide DayNumber, DateOf, Render, ParseTimestamp;
    ClockRoundTrip(seconds);
    ParseRendered(d, seconds / 3600, seconds % 3600 / 60, seconds % 60);
  }

  lemma PrintedDate(ts: I64) returns (d: CivilDate)
    requires FormatTimestamp(ts).Some?
    ensures IsValid(d) && DayNumber(d) == ts / DAY
    ensures FormatTimestamp(ts) == Some(RenderAt(d, ts % DAY))
  {
    hide DayNumber, DateOf, RenderAt, IsDate;
    DaysRoundTrip(ts / DAY);
    d := CivilFromDays(ts / DAY).value;
    DaysFromCivilDefined(d);
  }

  /** The printable instants are the seconds of years 1 to 9999. */
  lemma Printable(ts: I64)
    ensures FormatTimestamp(ts).Some? <==> FIRST_DAY * DAY <= ts < (LAST_DAY + 1) * DAY
  {
    DaysRoundTrip(ts / DAY);
  }

  /** Distinct printable instants print differently. */
  lemma FormatInjective(ts: I64, ts': I64)
    requires FormatTimestamp(ts).Some? && FormatTimestamp(ts) == FormatTimestamp(ts')
    ensures ts == ts'
  {
    FormatThenParse(ts);
    FormatThenParse(ts');
  }

  /** An accepted string with a printable instant normalises to a fixed point. */
  lemma NormalFormIsFixed(value: string)
    requires ParseTimestamp(value).Some? && FormatTimestamp(ParseTimestamp(value).value).Some?
    ensures var normal := FormatTimestamp(ParseTimestamp(value).value).value;
      && ParseTimestamp(normal) == ParseTimestamp(value)
      && FormatTimestamp(ParseTimestamp(normal).value) == Some(normal)
  {
    FormatThenParse(ParseTimestamp(value).value);
  }

  // ---------- Offsets ----------

  lemma {:induction false} LeadingDigitsUpTo(body: string, rest: string)
    requires rest == [] || !IsDigit(rest[0])
    ensures LeadingDigits(body + rest) == LeadingDigits(body)
  {
    if body == [] {
      assert body + rest == rest;
    } else {
      assert (body + rest)[1..] == body[1..] + rest;
      LeadingDigitsUpTo(body[1..], rest);
    }
  }

  /** A fraction or nothing, as `DropFraction` skips it. */
  predicate IsFraction(f: string) {
    f == [] || (|f| > 1 && f[0] == '.' && LeadingDigits(f[1..]) == |f| - 1)
  }

  lemma DropFractionBefore(f: string, rest: string)
    requires IsFraction(f) && rest != [] && !IsDigit(rest[0]) && rest[0] != '.'
    ensures DropFraction(f + rest) == Some(rest)
  {
    if f == [] {
      assert f + rest == rest;
    } else {
      assert (f + rest)[1..] == f[1..] + rest;
      LeadingDigitsUpTo(f[1..], rest);
      assert (f + rest)[|f|..] == rest;
    }
  }

  /** If the text before a final Z is accepted, it is a fraction or nothing. */
  lemma {:induction false} AcceptedFraction(f: string)
    requires DropFraction(f + "Z").Some? && ParseOffset(DropFraction(f + "Z").value).Some?
    ensures IsFraction(f)
  {
    var t := f + "Z";
    if f != [] && f[0] == '.' {
      assert t[1..] == f[1..] + "Z";
      LeadingDigitsUpTo(f[1..], "Z");
      var n := LeadingDigits(f[1..]);
      assert t[1 + n..] == f[1 + n..] + "Z";
      OffsetEndingInZ(f[1 + n..]);
    } else if f != [] {
      OffsetEndingInZ(f);
    }
  }

  lemma ZIsNoDigit(acc: nat)
    ensures ParseDigits(['Z'], acc).None?
  {
  }

  lemma EndsInZ(c: char)
    ensures ParseSigned([c, 'Z']).None?
  {
    var m := [c, 'Z'];
    assert m[1..] == ['Z'];
    ZIsNoDigit(0);
    if IsDigit(c) {
      ZIsNoDigit(10 * 0 + (c as int - '0' as int));
    }
    assert ParseDigits(m, 0).None?;
  }

  lemma OffsetEndingInZ(x: string)
    requires ParseOffset(x + "Z").Some?
    ensures x == []
  {
    var s := x + "Z";
    if x != [] && |s| == 6 {
      assert s[4..6] == [s[4], 'Z'];
      EndsInZ(s[4]);
    }
  }

  /** The printed form of an offset of `hours` and `minutes`. */
  function OffsetText(negative: bool, hours: nat, minutes: nat): string
    requires hours < 100 && minutes < 100
  {
    (if negative then "-" else "+") + Pad2(hours) + ":" + Pad2(minutes)
  }

  function OffsetSeconds(negative: bool, hours: nat, minutes: nat): int {
    if negative then -(hours * 3600 + minutes * 60) else hours * 3600 + minutes * 60
  }

  lemma ParseOffsetText(negative: bool, hours: nat, minutes: nat)
    requires hours <= 23 && minutes <= 59
    ensures var o := OffsetText(negative, hours, minutes);
      |o| == 6 && !IsDigit(o[0]) && o[0] != '.' && !IsWhitespace(o[5])
      && ParseOffset(o) == Some(OffsetSeconds(negative, hours, minutes))
  {
    var o := OffsetText(negative, hours, minutes);
    ParsePad2(hours);
    ParsePad2(minutes);
    assert o[1..3] == Pad2(hours) && o[4..6] == Pad2(minutes);
    DigitIsDigit(minutes % 10);
  }

  /** Date and clock are read from the first 19 characters only. */
  lemma LocalFromPrefix(v: string, w: string)
    requires |v| >= 19 && |w| >= 19 && v[..19] == w[..19]
    ensures LocalInstant(v) == LocalInstant(w)
  {
    var p, q := v[..19], w[..19];
    assert forall k :: 0 <= k < 19 ==> v[k] == p[k] && w[k] == q[k];
    assert v[..10] == w[..10];
    assert v[11..13] == w[11..13];
    assert v[14..16] == w[14..16];
    assert v[17..19] == w[17..19];
    assert ParseClock(v) == ParseClock(w);
  }

  lemma ParseLong(v: string)
    requires |v| >= 19 && !IsWhitespace(v[0]) && !IsWhitespace(v[|v| - 1])
    ensures ParseTimestamp(v) == if LocalInstant(v).None? then None else ApplySuffix(LocalInstant(v).value, v[19..])
  {
    TrimIsIdentity(v);
  }

  /** Replacing a final Z by a numeric offset moves the instant by exactly that offset. */
  lemma OffsetShifts(body: string, t: I64, negative: bool, hours: nat, minutes: nat)
    requires |body| >= 19 && !IsWhitespace(body[0])
    requires ParseTimestamp(body + "Z") == Some(t)
    requires hours <= 23 && minutes <= 59
    ensures ParseTimestamp(body + OffsetText(negative, hours, minutes)) ==
      Checked(t - OffsetSeconds(negative, hours, minutes))
  {
    hide ParseTimestamp, LocalInstant, ApplySuffix, OffsetSeconds;
    var f, rest := body[19..], OffsetText(negative, hours, minutes);
    ParseOffsetText(negative, hours, minutes);
    var zulu, shifted := body + "Z", body + rest;
    ParseLong(zulu);
    ParseLong(shifted);
    assert zulu[..19] == body[..19] == shifted[..19];
    LocalFromPrefix(zulu, shifted);
    assert zulu[19..] == f + "Z" && shifted[19..] == f + rest;
    SuffixShifts(LocalInstant(zulu).value, f, t, negative, hours, minutes);
  }

  lemma SuffixShifts(local: I64, f: string, t: I64, negative: bool, hours: nat, minutes: nat)
    requires ApplySuffix(local, f + "Z") == Some(t)
    requires hours <= 23 && minutes <= 59
    ensures ApplySuffix(local, f + OffsetText(negative, hours, minutes)) ==
      Checked(t - OffsetSeconds(negative, hours, minutes))
  {
    ParseOffsetText(negative, hours, minutes);
    AcceptedFraction(f);
    DropFractionBefore(f, "Z");
    DropFractionBefore(f, OffsetText(negative, hours, minutes));
  }

  // ---------- What a clock may look like ----------

  predicate IsSign(c: char) {
    c == '+' || c == '-'
  }

  function DigitValue(c: char): int {
    c as int - '0' as int
  }

  /** Two characters: a digit, and before it a digit that keeps the number in range, or a sign. */
  predicate IsField(f: string, max: int) {
    |f| == 2 && IsDigit(f[1]) && (IsSign(f[0]) || (IsDigit(f[0]) && 10 * DigitValue(f[0]) + DigitValue(f[1]) <= max))
  }

  /** Two digits that keep the number in range. */
  predicate IsPlainField(f: string, max: int) {
    |f| == 2 && IsDigit(f[0]) && IsDigit(f[1]) && 10 * DigitValue(f[0]) + DigitValue(f[1]) <= max
  }

  /** Date-time mark, separators and three fields of two digits. */
  predicate IsPlainClock(v: string)
    requires |v| >= 19
  {
    && v[10] in {'T', 't', ' '} && v[13] == ':' && v[16] == ':'
    && IsPlainField(v[11..13], 23) && IsPlainField(v[14..16], 59) && IsPlainField(v[17..19], 59)
  }

  lemma OneDigit(f: string, acc: nat)
    requires |f| == 1
    ensures ParseDigits(f, acc) == if IsDigit(f[0]) then Some(10 * acc + DigitValue(f[0])) else None
  {
    assert f[1..] == [];
    assert ParseDigits([], 10 * acc) == Some(10 * acc);
  }

  lemma TwoDigits(f: string, acc: nat)
    requires |f| == 2
    ensures ParseDigits(f, acc) ==
      if IsDigit(f[0]) && IsDigit(f[1]) then Some(100 * acc + 10 * DigitValue(f[0]) + DigitValue(f[1])) else None
    ensures ParseDigits(f[1..], acc) == if IsDigit(f[1]) then Some(10 * acc + DigitValue(f[1])) else None
  {
    OneDigit(f[1..], acc);
    if IsDigit(f[0]) {
      OneDigit(f[1..], 10 * acc + DigitValue(f[0]));
    }
  }

  /** A field is read, within its bound, exactly when it has that shape; a minus sign makes it negative. */
  lemma FieldAccepted(f: string, max: int)
    requires |f| == 2 && max >= 9
    ensures ParseSigned(f).Some? && ParseSigned(f).value <= max <==> IsField(f, max)
    ensures IsField(f, max) ==>
      ParseSigned(f).value ==
        if f[0] == '-' then -DigitValue(f[1]) else if f[0] == '+' then DigitValue(f[1])
        else 10 * DigitValue(f[0]) + DigitValue(f[1])
  {
    hide ParseDigits;
    TwoDigits(f, 0);
  }

  /**
   A clock is accepted exactly when mark and separators are in place and each field
   has that shape. It is then plain, and within a day, unless a field has a sign.
   */
  lemma ClockAccepted(v: string)
    requires |v| >= 19
    ensures ParseClock(v).Some? <==>
      && v[10] in {'T', 't', ' '} && v[13] == ':' && v[16] == ':'
      && IsField(v[11..13], 23) && IsField(v[14..16], 59) && IsField(v[17..19], 59)
    ensures IsPlainClock(v) <==> ParseClock(v).Some? && !IsSign(v[11]) && !IsSign(v[14]) && !IsSign(v[17])
    ensures IsPlainClock(v) ==> 0 <= ParseClock(v).value < DAY
  {
    hide ParseSigned, IsField, IsPlainField;
    FieldAccepted(v[11..13], 23);
    FieldAccepted(v[14..16], 59);
    FieldAccepted(v[17..19], 59);
    PlainField(v[11..13], 23);
    PlainField(v[14..16], 59);
    PlainField(v[17..19], 59);
    assert v[11..13][0] == v[11] && v[14..16][0] == v[14] && v[17..19][0] == v[17];
  }

  lemma PlainField(f: string, max: int)
    requires |f| == 2 && max >= 9
    ensures IsPlainField(f, max) <==> IsField(f, max) && !IsSign(f[0])
    ensures IsPlainField(f, max) ==> ParseSigned(f).Some? && 0 <= ParseSigned(f).value <= max
  {
    hide ParseSigned;
    FieldAccepted(f, max);
  }

  const MINUS_FIVE := "2024-01-01T-5:00:00Z"

  lemma MinusFiveText()
    ensures |MINUS_FIVE| == 20 && MINUS_FIVE[19..] == "Z" && !IsWhitespace(MINUS_FIVE[0]) &&
      !IsWhitespace(MINUS_FIVE[19])
    ensures MINUS_FIVE[0..4] == Pad4(2024) && MINUS_FIVE[4] == '-' && MINUS_FIVE[7] == '-'
    ensures MINUS_FIVE[5..7] == MINUS_FIVE[8..10] == Pad2(1)
  {
    assert MINUS_FIVE[0..4] == "2024" && MINUS_FIVE[5..7] == "01" && MINUS_FIVE[8..10] == "01";
    assert Pad4(2024) == "2024" && Pad2(1) == "01";
  }

  lemma SignedClock()
    ensures ParseClock(MINUS_FIVE) == Some(-18_000) && !IsPlainClock(MINUS_FIVE)
  {
    var v := MINUS_FIVE;
    assert v[11..13] == "-5" && v[14..16] == "00" && v[17..19] == "00";
    hide ParseSigned;
    FieldAccepted("-5", 23);
    FieldAccepted("00", 59);
  }

  lemma SignedLocal(d: CivilDate)
    requires d == CivilDate(2024, 1, 1)
    ensures LocalInstant(MINUS_FIVE) == Some(DayNumber(d) * DAY - 18_000)
  {
    MinusFiveText();
    SignedClock();
    JanuaryFirst(d);
    hide MINUS_FIVE, ParseClock, ParseDate, DayNumber, DateOf, DaysFromCivil, Pad2, Pad4, IsValid, IsPlainClock;
    RenderedDate(d, MINUS_FIVE);
  }

  lemma JanuaryFirst(d: CivilDate)
    requires d == CivilDate(2024, 1, 1)
    ensures IsValid(d) && FIRST_DAY <= DayNumber(d) <= LAST_DAY
  {
    hide DayNumber;
    ValidDayNumbers(d);
  }

  lemma ZuluTimestamp(v: string, t: I64)
    requires |v| == 20 && v[19..] == "Z" && !IsWhitespace(v[0]) && !IsWhitespace(v[19])
    requires LocalInstant(v) == Some(t)
    ensures ParseTimestamp(v) == Some(t)
  {
    hide LocalInstant, ParseTimestamp;
    ParseLong(v);
  }

  /** An hour of minus five: the instant is five hours before the day begins. */
  lemma SignedHour()
    ensures ParseTimestamp(MINUS_FIVE) == Some(DayNumber(CivilDate(2024, 1, 1)) * DAY - 18_000)
    ensures !IsPlainClock(MINUS_FIVE)
  {
    hide MINUS_FIVE, LocalInstant, DayNumber, ParseTimestamp, ParseClock, IsPlainClock, Pad2, Pad4;
    MinusFiveText();
    SignedClock();
    SignedLocal(CivilDate(2024, 1, 1));
    ZuluTimestamp(MINUS_FIVE, LocalInstant(MINUS_FIVE).value);
  }
}
