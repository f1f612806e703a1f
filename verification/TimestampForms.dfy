/** Spellings of one instant, and the print of a known one. */
module TimestampForms {
  import opened Prelude
  import opened Text
  import opened Calendar
  import opened Timestamps

  /** No whitespace at either end. */
  ghost predicate Trimmed(s: string) {
    s != [] && !IsWhitespace(s[0]) && !IsWhitespace(s[|s| - 1])
  }

  ghost predicate Blank(s: string) {
    forall i :: 0 <= i < |s| ==> IsWhitespace(s[i])
  }

  lemma {:induction false} TrimBlanks(left: string, s: string, right: string)
    requires Blank(left) && Trimmed(s) && Blank(right)
    ensures Trim(left + s + right) == s
    decreases |left|, |right|
  {
    hide IsWhitespace;
    var all := left + s + right;
    if left != [] {
      assert all[0] == left[0] && all[1..] == left[1..] + s + right;
      TrimBlanks(left[1..], s, right);
    } else if right != [] {
      assert left + s + right[..|right| - 1] == all[..|all| - 1];
      assert all[|all| - 1] == right[|right| - 1];
      TrimBlanks(left, s, right[..|right| - 1]);
    } else {
      assert all == s;
    }
  }

  /** Whitespace around a timestamp does not matter. */
  lemma BlanksIgnored(left: string, s: string, right: string)
    requires Blank(left) && Trimmed(s) && Blank(right)
    ensures ParseTimestamp(left + s + right) == ParseTimestamp(s)
  {
    hide Trim, Trimmed, Blank, LocalInstant, ApplySuffix, ParseDate, DaysFromCivil;
    TrimBlanks(left, s, right);
    NothingToTrim(s);
  }

  lemma NothingToTrim(s: string)
    requires Trimmed(s)
    ensures Trim(s) == s
  {
    TrimIsIdentity(s);
  }

  /** A small z, and no mark at all, mean what Z means. */
  lemma NoOffsetForms(body: string, t: I64)
    requires |body| >= 19 && Trimmed(body) && ParseTimestamp(body + "Z") == Some(t)
    ensures ParseTimestamp(body + "z") == Some(t) && ParseTimestamp(body) == Some(t)
  {
    hide ParseTimestamp, LocalInstant, ApplySuffix;
    var upper, lower, f := body + "Z", body + "z", body[19..];
    ParseLong(upper);
    ParseLong(lower);
    ParseLong(body);
    assert upper[..19] == body[..19] == lower[..19];
    LocalFromPrefix(upper, body);
    LocalFromPrefix(lower, body);
    assert upper[19..] == f + "Z" && lower[19..] == f + "z";
    NoOffsetSuffix(LocalInstant(body).value, f, t);
  }

  lemma NoOffsetSuffix(local: I64, f: string, t: I64)
    requires ApplySuffix(local, f + "Z") == Some(t)
    ensures t == local && ApplySuffix(local, f + "z") == Some(t) && ApplySuffix(local, f) == Some(t)
  {
    AcceptedFraction(f);
    DropFractionBefore(f, "Z");
    DropFractionBefore(f, "z");
    DropFractionAlone(f);
  }

  lemma DropFractionAlone(f: string)
    requires IsFraction(f)
    ensures DropFraction(f) == Some([])
  {
    assert f != [] ==> f[|f|..] == [];
  }

  lemma {:induction false} AllLeading(digits: string)
    requires forall i :: 0 <= i < |digits| ==> IsDigit(digits[i])
    ensures LeadingDigits(digits) == |digits|
  {
    if digits != [] {
      AllLeading(digits[1..]);
    }
  }

  /** A fraction of any number of digits is dropped. */
  lemma FractionIgnored(base: string, digits: string, rest: string)
    requires |base| == 19 && Trimmed(base) && digits != [] && forall i :: 0 <= i < |digits| ==> IsDigit(digits[i])
    requires rest != [] && !IsWhitespace(rest[|rest| - 1]) && !IsDigit(rest[0]) && rest[0] != '.'
    ensures ParseTimestamp(base + ("." + digits + rest)) == ParseTimestamp(base + rest)
  {
    hide ParseTimestamp, LocalInstant, ParseOffset;
    var long, short, f := base + ("." + digits + rest), base + rest, "." + digits;
    ParseLong(long);
    ParseLong(short);
    assert long[..19] == base == short[..19];
    LocalFromPrefix(long, short);
    assert long[19..] == f + rest && short[19..] == rest;
    assert f[1..] == digits;
    AllLeading(digits);
    DropFractionBefore(f, rest);
  }

  /** Between date and clock a small t or a blank will do. */
  lemma MarkForms(v: string)
    requires |v| >= 19 && Trimmed(v)
    ensures ParseTimestamp(v[10 := 't']) == ParseTimestamp(v[10 := 'T']) == ParseTimestamp(v[10 := ' '])
  {
    hide ParseTimestamp, ApplySuffix;
    var upper, lower, blank := v[10 := 'T'], v[10 := 't'], v[10 := ' '];
    ParseLong(upper);
    ParseLong(lower);
    ParseLong(blank);
    assert upper[19..] == v[19..] == lower[19..] == blank[19..];
    SameLocal(upper, lower);
    SameLocal(upper, blank);
  }

  lemma SameLocal(v: string, w: string)
    requires |v| == |w| >= 19 && v[10] in {'T', 't', ' '} && w[10] in {'T', 't', ' '}
    requires forall k :: 0 <= k < |v| && k != 10 ==> v[k] == w[k]
    ensures LocalInstant(v) == LocalInstant(w)
  {
    assert v[..10] == w[..10];
    assert v[11..13] == w[11..13];
    assert v[14..16] == w[14..16];
    assert v[17..19] == w[17..19];
    assert ParseClock(v) == ParseClock(w);
  }

  /** Slashes will do for the dashes of the date. */
  lemma SlashesForDashes(v: string)
    requires |v| >= 10 && Trimmed(v)
    ensures ParseTimestamp(v[4 := '/'][7 := '/']) == ParseTimestamp(v[4 := '-'][7 := '-'])
  {
    hide ParseTimestamp, ApplySuffix, ParseDate, LocalInstant;
    var slashed, dashed := v[4 := '/'][7 := '/'], v[4 := '-'][7 := '-'];
    SameDate(slashed, dashed);
    if |v| == 10 {
      ParseShort(slashed);
      ParseShort(dashed);
      assert slashed[..10] == slashed && dashed[..10] == dashed;
    } else if |v| < 19 {
      ParseTooShort(slashed);
      ParseTooShort(dashed);
    } else {
      ParseLong(slashed);
      ParseLong(dashed);
      assert slashed[19..] == v[19..] == dashed[19..];
      LocalByParts(slashed, dashed);
    }
  }

  lemma ParseShort(v: string)
    requires |v| == 10 && Trimmed(v)
    ensures ParseTimestamp(v) == DayStart(v)
  {
    TrimIsIdentity(v);
  }

  lemma ParseTooShort(v: string)
    requires 10 != |v| < 19 && Trimmed(v)
    ensures ParseTimestamp(v).None?
  {
    TrimIsIdentity(v);
  }

  function DayStart(v: string): Option<I64> {
    var date :- ParseDate(v);
    var days :- DaysFromCivil(date);
    Checked(days * DAY)
  }

  lemma SameDate(v: string, w: string)
    requires |v| == |w| >= 10 && v[4] == v[7] == '/' && w[4] == w[7] == '-'
    requires forall k :: 0 <= k < |v| && k != 4 && k != 7 ==> v[k] == w[k]
    ensures ParseDate(v[..10]) == ParseDate(w[..10])
  {
    hide DaysFromCivil, ParseSigned, ParseUnsigned;
    var p, q := v[..10], w[..10];
    assert forall k :: 0 <= k < 10 ==> p[k] == v[k] && q[k] == w[k];
    SameParts(p, q);
  }

  lemma SameParts(p: string, q: string)
    requires |p| == |q| == 10 && forall k :: 0 <= k < 10 && k != 4 && k != 7 ==> p[k] == q[k]
    ensures p[0..4] == q[0..4] && p[5..7] == q[5..7] && p[8..10] == q[8..10]
  {
  }

  lemma LocalByParts(v: string, w: string)
    requires |v| == |w| >= 19 && ParseDate(v[..10]) == ParseDate(w[..10])
    requires forall k :: 10 <= k < |v| ==> v[k] == w[k]
    ensures LocalInstant(v) == LocalInstant(w)
  {
    hide ParseDate;
    assert v[11..13] == w[11..13];
    assert v[14..16] == w[14..16];
    assert v[17..19] == w[17..19];
    assert ParseClock(v) == ParseClock(w);
  }

  /** A date alone is its midnight in UTC. */
  lemma DateIsMidnight(v: string)
    requires |v| == 10 && Trimmed(v)
    ensures ParseTimestamp(v) == ParseTimestamp(v + "T00:00:00Z")
  {
    hide ParseTimestamp, ParseDate, LocalInstant;
    var long := v + "T00:00:00Z";
    ParseShort(v);
    ParseLong(long);
    MidnightClock(long);
    assert long[..10] == v && long[19..] == "Z";
    MidnightLocal(v, long);
    assert DropFraction("Z") == Some("Z");
  }

  lemma MidnightClock(v: string)
    requires |v| == 20 && v[10..] == "T00:00:00Z"
    ensures ParseClock(v) == Some(0)
  {
    hide ParseSigned;
    TailAt(v);
    TwoZeros(v, 11);
    TwoZeros(v, 14);
    TwoZeros(v, 17);
    FieldAccepted("00", 23);
    FieldAccepted("00", 59);
  }

  lemma TailAt(v: string)
    requires |v| == 20 && v[10..] == "T00:00:00Z"
    ensures v[10] == 'T' && v[11] == v[12] == '0' && v[13] == ':' && v[14] == v[15] == '0' && v[16] == ':'
    ensures v[17] == v[18] == '0'
  {
    var c := v[10..];
    assert forall k :: 0 <= k < 10 ==> v[10 + k] == c[k];
    assert c[0] == v[10] && c[1] == v[11] && c[2] == v[12] && c[3] == v[13] && c[4] == v[14];
    assert c[5] == v[15] && c[6] == v[16] && c[7] == v[17] && c[8] == v[18];
  }

  lemma TwoZeros(v: string, i: nat)
    requires i + 2 <= |v| && v[i] == v[i + 1] == '0'
    ensures v[i..i + 2] == "00"
  {
  }

  lemma MidnightLocal(v: string, long: string)
    requires |v| == 10 && |long| == 20 && long[..10] == v && ParseClock(long) == Some(0)
    ensures LocalInstant(long) == DayStart(v)
  {
    hide ParseDate, ParseClock;
  }

  // ---------- A known instant ----------

  lemma LeapDay(d: CivilDate)
    requires d == CivilDate(2000, 2, 29)
    ensures IsValid(d) && DayNumber(d) == 11_016
  {
  }

  lemma LeapDayDate(d: CivilDate)
    requires d == CivilDate(2000, 2, 29)
    ensures IsValid(d) && CivilFromDays(11_016) == Some(d)
  {
    hide DayNumber, DateOf, CivilFromDays, DaysFromCivil;
    LeapDay(d);
    CivilRoundTrip(d);
    DaysFromCivilDefined(d);
  }

  lemma LeapDayText(d: CivilDate)
    requires d == CivilDate(2000, 2, 29)
    ensures Render(d, 23, 59, 59) == "2000-02-29T23:59:59Z"
  {
    assert Pad4(2000) == "2000" && Pad2(2) == "02" && Pad2(29) == "29" && Pad2(23) == "23" && Pad2(59) == "59";
  }

  /** The last second of a leap day prints as it should. */
  lemma LeapDayPrint()
    ensures FormatTimestamp(951_868_799) == Some("2000-02-29T23:59:59Z")
  {
    hide CivilFromDays, Render, IsValid;
    var d := CivilDate(2000, 2, 29);
    LeapDayDate(d);
    LeapDayText(d);
  }
}
