/**
 Time cues in query text. A query is searched for one cue, which does not depend on
 the present; the cue and the present day then give a range. The query is already
 lower-cased, and `alnum` is the Unicode alphanumeric test.
 */
module TemporalQuery {
  import opened Prelude
  import opened Text
  import opened Calendar
  import opened Timestamps
  import opened DateRanges

  datatype Cue =
    | DayOf(ts: I64)
    | DayShift(days: I64)
    | WeekShift(weeks: int)
    | MonthShift(months: int)
    | YearShift(years: int)
    | Quarter(quarter: nat, year: Option<int>)
    | NamedMonth(month: nat, year: Option<int>)

  // ---------- Text ----------

  predicate HasPrefix(s: string, p: string) {
    |p| <= |s| && s[..|p|] == p
  }

  predicate Contains(s: string, needle: string) {
    HasPrefix(s, needle) || (s != [] && Contains(s[1..], needle))
  }

  /** Every occurrence, left to right, without overlap. */
  function Replace(s: string, from: string, to: string): string
    requires from != []
  {
    if s == [] then []
    else if HasPrefix(s, from) then to + Replace(s[|from|..], from, to)
    else [s[0]] + Replace(s[1..], from, to)
  }

  function TrimLeft(s: string, drop: char -> bool): (r: string)
    ensures |r| <= |s|
  {
    if s != [] && drop(s[0]) then TrimLeft(s[1..], drop) else s
  }

  function TrimRight(s: string, drop: char -> bool): string {
    if s != [] && drop(s[|s| - 1]) then TrimRight(s[..|s| - 1], drop) else s
  }

  function TrimMatches(s: string, drop: char -> bool): string {
    TrimRight(TrimLeft(s, drop), drop)
  }

  predicate NotDigit(c: char) {
    !IsDigit(c)
  }

  predicate NotAsciiAlphanumeric(c: char) {
    !(IsDigit(c) || 'a' <= c <= 'z' || 'A' <= c <= 'Z')
  }

  predicate TokenChar(c: char) {
    IsDigit(c) || c in {'-', '/', 'T', ':', '+', 'Z'}
  }

  /** The pieces between separators; `cur` is the piece being read. */
  function TokensFrom(s: string, cur: string): (r: seq<string>)
    ensures |r| > 0
  {
    if s == [] then [cur]
    else if TokenChar(s[0]) then TokensFrom(s[1..], cur + [s[0]])
    else [cur] + TokensFrom(s[1..], [])
  }

  const REPLACEMENTS: seq<(string, string)> := [
    ("gestern", "yesterday"),
    ("heute", "today"),
    ("morgen", "tomorrow"),
    ("letzte woche", "last week"),
    ("letzten woche", "last week"),
    ("diese woche", "this week"),
    ("dieser woche", "this week"),
    ("n\U{00E4}chste woche", "next week"),
    ("naechste woche", "next week"),
    ("letzten monat", "last month"),
    ("letzter monat", "last month"),
    ("diesen monat", "this month"),
    ("dieser monat", "this month"),
    ("n\U{00E4}chsten monat", "next month"),
    ("naechsten monat", "next month"),
    ("letztes jahr", "last year"),
    ("dieses jahr", "this year"),
    ("n\U{00E4}chstes jahr", "next year"),
    ("naechstes jahr", "next year")
  ]

  ghost predicate NonEmptyKeys(pairs: seq<(string, string)>) {
    forall i :: 0 <= i < |pairs| ==> pairs[i].0 != []
  }

  function ReplaceEach(s: string, pairs: seq<(string, string)>): string
    requires NonEmptyKeys(pairs)
    decreases |pairs|
  {
    if pairs == [] then s else ReplaceEach(Replace(s, pairs[0].0, pairs[0].1), pairs[1..])
  }

  /** One replacement after the other, each on the result of the one before. */
  method ReplaceInTurn(text: string, pairs: seq<(string, string)>) returns (query: string)
    requires NonEmptyKeys(pairs)
    ensures query == ReplaceEach(text, pairs)
  {
    query := text;
    for i := 0 to |pairs|
      invariant NonEmptyKeys(pairs[i..]) && ReplaceEach(text, pairs) == ReplaceEach(query, pairs[i..])
    {
      assert pairs[i..][0] == pairs[i] && pairs[i..][1..] == pairs[i + 1..];
      query := Replace(query, pairs[i].0, pairs[i].1);
    }
  }

  lemma KeysAreNonEmpty()
    ensures NonEmptyKeys(REPLACEMENTS)
  {
  }

  function MonthNum(name: string): (m: Option<nat>)
    ensures m.Some? ==> 1 <= m.value <= 12
  {
    if name in {"january", "jan", "januar"} then Some(1)
    else if name in {"february", "feb", "februar"} then Some(2)
    else if name in {"march", "mar", "m\U{00E4}rz", "maerz"} then Some(3)
    else if name in {"april", "apr"} then Some(4)
    else if name in {"may", "mai"} then Some(5)
    else if name in {"june", "jun", "juni"} then Some(6)
    else if name in {"july", "jul", "juli"} then Some(7)
    else if name in {"august", "aug"} then Some(8)
    else if name in {"september", "sep", "sept"} then Some(9)
    else if name in {"october", "oct", "oktober", "okt"} then Some(10)
    else if name in {"november", "nov"} then Some(11)
    else if name in {"december", "dec", "dezember", "dez"} then Some(12)
    else None
  }

  function UnitDays(unit: string): Option<nat> {
    if unit in {"day", "days", "tag", "tage", "tagen"} then Some(1)
    else if unit in {"week", "weeks", "woche", "wochen"} then Some(7)
    else if unit in {"month", "months", "monat", "monate", "monaten"} then Some(30)
    else if unit in {"year", "years", "jahr", "jahre", "jahren"} then Some(365)
    else None
  }

  /** 64-bit wrap-around. */
  function Wrap(x: int): I64 {
    (x - I64_MIN) % 0x1_0000_0000_0000_0000 + I64_MIN
  }

  // ---------- Finding the cue ----------

  /** The first defined value of f on i, ..., n - 1. */
  function FirstSome<T>(f: nat -> Option<T>, i: nat, n: nat): (r: Option<T>)
    requires i <= n
    ensures r.None? <==> forall j :: i <= j < n ==> f(j).None?
    ensures r.Some? ==> exists j :: i <= j < n && f(j) == r && forall k :: i <= k < j ==> f(k).None?
    decreases n - i
  {
    if i == n then None
    else if f(i).Some? then f(i)
    else FirstSome(f, i + 1, n)
  }

  function OrElse<T>(a: Option<T>, b: Option<T>): Option<T> {
    if a.Some? then a else b
  }

  function TokenCue(token: string): Option<Cue> {
    if |token| >= 10 && ParseTimestamp(token).Some? then Some(DayOf(ParseTimestamp(token).value)) else None
  }

  const DAY_NEEDLES: seq<(string, Cue)> :=
    [("yesterday", DayShift(-1)), ("today", DayShift(0)), ("tomorrow", DayShift(1))]

  const PERIOD_NEEDLES: seq<(string, Cue)> := [
    ("last week", WeekShift(-1)), ("this week", WeekShift(0)), ("next week", WeekShift(1)),
    ("last month", MonthShift(-1)), ("this month", MonthShift(0)), ("next month", MonthShift(1))
  ]

  const YEAR_NEEDLES: seq<(string, Cue)> :=
    [("last year", YearShift(-1)), ("this year", YearShift(0)), ("next year", YearShift(1))]

  function NeedleCue(query: string, needle: (string, Cue)): Option<Cue> {
    if Contains(query, needle.0) then Some(needle.1) else None
  }

  function ParseI64(s: string): Option<I64> {
    var n :- ParseSigned(s);
    Checked(n)
  }

  function CleanWord(word: string, alnum: char -> bool): string {
    TrimMatches(word, c => !alnum(c))
  }

  /** "n units ago", "in n units" or "vor n units" around word i. */
  function RelativeCue(words: seq<string>, i: nat, alnum: char -> bool): Option<Cue>
    requires i < |words|
  {
    var count: int :- ParseI64(TrimMatches(words[i], NotDigit));
    if i + 2 < |words| && CleanWord(words[i + 2], alnum) == "ago" && UnitDays(CleanWord(words[i + 1], alnum)).Some? then
      Some(DayShift(Wrap(Wrap(-count) * UnitDays(CleanWord(words[i + 1], alnum)).value)))
    else if i > 0 && i + 1 < |words| && words[i - 1] == "in" && UnitDays(CleanWord(words[i + 1], alnum)).Some? then
      Some(DayShift(Wrap(count * UnitDays(CleanWord(words[i + 1], alnum)).value)))
    else if i > 0 && i + 1 < |words| && words[i - 1] == "vor" && UnitDays(CleanWord(words[i + 1], alnum)).Some? then
      Some(DayShift(Wrap(Wrap(-count) * UnitDays(CleanWord(words[i + 1], alnum)).value)))
    else None
  }

  /** The year named by the next word, if it is one of 1900 to 2099. */
  function YearAfter(words: seq<string>, i: nat): Option<int> {
    if i + 1 < |words| then
      var year: int :- ParseSigned(TrimMatches(words[i + 1], NotDigit));
      if 1900 <= year < 2100 then Some(year) else None
    else None
  }

  function QuarterCue(words: seq<string>, i: nat): (c: Option<Cue>)
    requires i < |words|
    ensures c.Some? ==> c.value.Quarter? && 1 <= c.value.quarter <= 4
  {
    var token := TrimMatches(words[i], NotAsciiAlphanumeric);
    if token == [] || token[0] != 'q' then None
    else
      var quarter :- ParseUnsigned(token[1..]);
      if 1 <= quarter <= 4 then Some(Quarter(quarter, YearAfter(words, i))) else None
  }

  function MonthCue(words: seq<string>, i: nat, alnum: char -> bool): (c: Option<Cue>)
    requires i < |words|
    ensures c.Some? ==> c.value.NamedMonth? && 1 <= c.value.month <= 12
  {
    var month :- MonthNum(CleanWord(words[i], alnum));
    Some(NamedMonth(month, YearAfter(words, i)))
  }

  function TokenAt(tokens: seq<string>): nat -> Option<Cue> {
    (i: nat) => if i < |tokens| then TokenCue(tokens[i]) else None
  }

  function NeedleAt(query: string, needles: seq<(string, Cue)>): nat -> Option<Cue> {
    (i: nat) => if i < |needles| then NeedleCue(query, needles[i]) else None
  }

  function RelativeAt(words: seq<string>, alnum: char -> bool): nat -> Option<Cue> {
    (i: nat) => if i < |words| then RelativeCue(words, i, alnum) else None
  }

  function QuarterAt(words: seq<string>): nat -> Option<Cue> {
    (i: nat) => if i < |words| then QuarterCue(words, i) else None
  }

  function MonthAt(words: seq<string>, alnum: char -> bool): nat -> Option<Cue> {
    (i: nat) => if i < |words| then MonthCue(words, i, alnum) else None
  }

  /** One pass over the query: what it makes of each position. */
  datatype Pass = Pass(at: nat -> Option<Cue>, length: nat)

  /** The passes over a normalized query. */
  function Passes(query: string, alnum: char -> bool): seq<Pass> {
    var words := SplitWhitespace(query);
    var tokens := TokensFrom(query, []);
    [Pass(TokenAt(tokens), |tokens|),
     Pass(NeedleAt(query, DAY_NEEDLES), |DAY_NEEDLES|),
     Pass(RelativeAt(words, alnum), |words|),
     Pass(NeedleAt(query, PERIOD_NEEDLES), |PERIOD_NEEDLES|),
     Pass(NeedleAt(query, YEAR_NEEDLES), |YEAR_NEEDLES|),
     Pass(QuarterAt(words), |words|),
     Pass(MonthAt(words, alnum), |words|)]
  }

  ghost predicate NoHit(p: Pass) {
    forall i :: 0 <= i < p.length ==> p.at(i).None?
  }

  /** Position i of pass c hits, no earlier position of that pass does, and no earlier pass does anywhere. */
  ghost predicate HitsFirst(passes: seq<Pass>, c: nat, i: nat)
    requires c < |passes|
  {
    && i < passes[c].length && passes[c].at(i).Some?
    && (forall j :: 0 <= j < i ==> passes[c].at(j).None?)
    && forall b :: 0 <= b < c ==> NoHit(passes[b])
  }

  /** The cue at the first hit of all, or none when no position of any pass hits. */
  ghost predicate IsFirstHit(passes: seq<Pass>, cue: Option<Cue>) {
    if cue.None? then forall c :: 0 <= c < |passes| ==> NoHit(passes[c])
    else exists c, i :: 0 <= c < |passes| && 0 <= i && HitsFirst(passes, c, i) && passes[c].at(i) == cue
  }

  lemma EarlierPass(p: Pass, rest: seq<Pass>, cue: Option<Cue>)
    requires IsFirstHit(rest, cue)
    ensures IsFirstHit([p] + rest, OrElse(FirstSome(p.at, 0, p.length), cue))
  {
    hide FirstSome;
    var all := [p] + rest;
    assert forall b :: 0 <= b < |rest| ==> all[b + 1] == rest[b];
    var mine := FirstSome(p.at, 0, p.length);
    if mine.Some? {
      var i: nat :| 0 <= i < p.length && p.at(i) == mine && forall k: nat :: 0 <= k < i ==> p.at(k).None?;
      assert HitsFirst(all, 0, i);
    } else if cue.Some? {
      var c, i :| 0 <= c < |rest| && 0 <= i && HitsFirst(rest, c, i) && rest[c].at(i) == cue;
      assert NoHit(p);
      forall b | 0 <= b < c + 1
        ensures NoHit(all[b])
      {
        assert b > 0 ==> all[b] == rest[b - 1];
      }
      assert HitsFirst(all, c + 1, i) && all[c + 1].at(i) == cue;
    } else {
      forall b | 0 <= b < |all|
        ensures NoHit(all[b])
      {
        assert b > 0 ==> all[b] == rest[b - 1];
      }
    }
  }

  /** The first hit of several passes, by nesting. */
  function Nested(passes: seq<Pass>): Option<Cue> {
    if passes == [] then None else OrElse(FirstSome(passes[0].at, 0, passes[0].length), Nested(passes[1..]))
  }

  lemma {:induction false} NestedIsFirstHit(passes: seq<Pass>)
    ensures IsFirstHit(passes, Nested(passes))
    decreases |passes|
  {
    if passes != [] {
      NestedIsFirstHit(passes[1..]);
      EarlierPass(passes[0], passes[1..], Nested(passes[1..]));
      assert passes == [passes[0]] + passes[1..];
    }
  }

  /** The cue of a normalized query. */
  function CueIn(query: string, alnum: char -> bool): Option<Cue> {
    Nested(Passes(query, alnum))
  }

  lemma CueIsFirstHit(query: string, alnum: char -> bool)
    ensures IsFirstHit(Passes(query, alnum), CueIn(query, alnum))
  {
    hide Passes, IsFirstHit;
    NestedIsFirstHit(Passes(query, alnum));
  }

  lemma CueByPass(query: string, alnum: char -> bool)
    ensures var words, tokens := SplitWhitespace(query), TokensFrom(query, []);
      CueIn(query, alnum) ==
        OrElse(FirstSome(TokenAt(tokens), 0, |tokens|),
        OrElse(FirstSome(NeedleAt(query, DAY_NEEDLES), 0, |DAY_NEEDLES|),
        OrElse(FirstSome(RelativeAt(words, alnum), 0, |words|),
        OrElse(FirstSome(NeedleAt(query, PERIOD_NEEDLES), 0, |PERIOD_NEEDLES|),
        OrElse(FirstSome(NeedleAt(query, YEAR_NEEDLES), 0, |YEAR_NEEDLES|),
        OrElse(FirstSome(QuarterAt(words), 0, |words|),
          FirstSome(MonthAt(words, alnum), 0, |words|)))))))
  {
    hide TokenAt, RelativeAt, QuarterAt, MonthAt, NeedleAt, SplitWhitespace, TokensFrom, FirstSome, Nested;
    hide DAY_NEEDLES, PERIOD_NEEDLES, YEAR_NEEDLES;
    NestedByPass(Passes(query, alnum));
  }

  // ---------- Resolving it ----------

  function Resolve(cue: Cue, today: CivilDate): Option<DateRange> {
    match cue
    case DayOf(ts) =>
      var lo := ts - ts % DAY;
      Some(DateRange(lo, lo + DAY - 1))
    case DayShift(days) =>
      var d :- AddDays(today, days);
      Some(DayBounds(d))
    case WeekShift(weeks) =>
      var d :- AddDays(today, weeks * 7);
      WeekOf(d)
    case MonthShift(months) =>
      var index := today.year * 12 + today.month - 1 + months;
      MonthOf(index / 12, index % 12 + 1)
    case YearShift(years) => YearOf(today.year + years)
    case Quarter(quarter, year) =>
      if 1 <= quarter <= 4 then QuarterOf(if year.Some? then year.value else today.year, quarter) else None
    case NamedMonth(month, year) => MonthOf(if year.Some? then year.value else today.year, month)
  }

  function TemporalRange(lowered: string, now: I64, alnum: char -> bool): Option<DateRange> {
    var today :- CivilFromDays(now / DAY);
    KeysAreNonEmpty();
    var cue :- CueIn(ReplaceEach(lowered, REPLACEMENTS), alnum);
    Resolve(cue, today)
  }

  /** A scan that returns at the first hit. */
  method Scan(f: nat -> Option<Cue>, n: nat) returns (cue: Option<Cue>)
    ensures cue == FirstSome(f, 0, n)
  {
    for i := 0 to n
      invariant FirstSome(f, 0, n) == FirstSome(f, i, n)
    {
      cue := f(i);
      if cue.Some? {
        return;
      }
    }
    cue := None;
  }

  /** The passes in turn, each only when those before it met nothing: the first hit of all. */
  method FindCue(query: string, alnum: char -> bool) returns (cue: Option<Cue>)
    ensures IsFirstHit(Passes(query, alnum), cue)
    ensures cue == CueIn(query, alnum)
  {
    hide TokenAt, RelativeAt, QuarterAt, MonthAt, NeedleAt;
    hide SplitWhitespace, TokensFrom, FirstSome, CueIn, Passes, IsFirstHit;
    hide DAY_NEEDLES, PERIOD_NEEDLES, YEAR_NEEDLES;
    CueByPass(query, alnum);
    CueIsFirstHit(query, alnum);
    var tokens := TokensFrom(query, []);
    cue := Scan(TokenAt(tokens), |tokens|);
    if cue.Some? {
      return;
    }
    cue := Scan(NeedleAt(query, DAY_NEEDLES), |DAY_NEEDLES|);
    if cue.Some? {
      return;
    }
    var words := SplitWhitespace(query);
    cue := Scan(RelativeAt(words, alnum), |words|);
    if cue.Some? {
      return;
    }
    cue := Scan(NeedleAt(query, PERIOD_NEEDLES), |PERIOD_NEEDLES|);
    if cue.Some? {
      return;
    }
    cue := Scan(NeedleAt(query, YEAR_NEEDLES), |YEAR_NEEDLES|);
    if cue.Some? {
      return;
    }
    cue := Scan(QuarterAt(words), |words|);
    if cue.Some? {
      return;
    }
    cue := Scan(MonthAt(words, alnum), |words|);
  }

  function FirstOf(p: Pass): Option<Cue> {
    FirstSome(p.at, 0, p.length)
  }

  lemma NestedByPass(p: seq<Pass>)
    requires |p| == 7
    ensures Nested(p) == OrElse(FirstOf(p[0]), OrElse(FirstOf(p[1]), OrElse(FirstOf(p[2]), OrElse(FirstOf(p[3]),
      OrElse(FirstOf(p[4]), OrElse(FirstOf(p[5]), FirstOf(p[6])))))))
  {
    hide Nested, FirstOf;
    assert p[0..] == p;
    NestedStep(p, 0);
    NestedStep(p, 1);
    NestedStep(p, 2);
    NestedStep(p, 3);
    NestedStep(p, 4);
    NestedStep(p, 5);
    NestedStep(p, 6);
    NestedStep(p, 7);
  }

  lemma NestedStep(p: seq<Pass>, c: nat)
    requires c <= |p|
    ensures Nested(p[c..]) == if c == |p| then None else OrElse(FirstOf(p[c]), Nested(p[c + 1..]))
  {
    hide FirstSome;
    if c < |p| {
      assert p[c..][0] == p[c] && p[c..][1..] == p[c + 1..];
    }
  }

  method ParseTemporal(lowered: string, now: I64, alnum: char -> bool) returns (range: Option<DateRange>)
    ensures range == TemporalRange(lowered, now, alnum)
    ensures range.Some? ==> WholeDays(range.value)
  {
    hide CueIn, Resolve, REPLACEMENTS;
    KeysAreNonEmpty();
    var query := ReplaceInTurn(lowered, REPLACEMENTS);
    var today := CivilFromDays(now / DAY);
    if today.None? {
      return None;
    }
    var cue := FindCue(query, alnum);
    if cue.None? {
      return None;
    }
    range := Resolve(cue.value, today.value);
    if range.Some? {
      ResolvesToWholeDays(cue.value, today.value);
    }
  }

  // ---------- Whole days ----------

  lemma DayIsWhole(d: CivilDate)
    ensures WholeDays(DayBounds(d))
  {
    hide DayNumber;
  }

  lemma YearIsWhole(year: int)
    requires YearOf(year).Some?
    ensures WholeDays(YearOf(year).value)
  {
    hide DayNumber, DateOf, YearOf;
    YearDefined(year);
  }

  lemma {:induction false} MonthsAfter(year: int, month: nat)
    requires 1 <= month <= 12
    ensures DayNumber(CivilDate(year, 1, 1)) <= DayNumber(CivilDate(year, month, 1))
  {
    hide DayNumber, DateOf;
    if month > 1 {
      MonthIsLong(year, month - 1);
      MonthsAfter(year, month - 1);
    }
  }

  /** A day of a year lies between its new year and the next. */
  lemma DayInYear(d: CivilDate)
    requires IsDate(d)
    ensures DayNumber(CivilDate(d.year, 1, 1)) <= DayNumber(d) < DayNumber(CivilDate(d.year + 1, 1, 1))
  {
    hide DayNumber, DateOf;
    DayInMonth(d.year, d.month, d.day);
    MonthsAfter(d.year, d.month);
    MonthIsLong(d.year, d.month);
    if d.month < 12 {
      MonthsBefore(d.year, d.month + 1);
    }
  }

  /** Every range a cue gives is non-empty and covers whole UTC days. */
  lemma ResolvesToWholeDays(cue: Cue, today: CivilDate)
    requires Resolve(cue, today).Some?
    ensures WholeDays(Resolve(cue, today).value)
  {
    hide DayNumber, DateOf, DaysFromCivil, CivilFromDays, DateRanges.MonthOf, QuarterOf, YearOf, WeekOf, DayBounds;
    match cue
    case DayOf(ts) =>
    case DayShift(days) =>
      DayIsWhole(AddDays(today, days).value);
    case WeekShift(weeks) =>
      WeekHoldsItsDay(AddDays(today, weeks * 7).value);
    case MonthShift(months) =>
      var index := today.year * 12 + today.month - 1 + months;
      MonthDefined(index / 12, index % 12 + 1);
    case YearShift(years) =>
      YearIsWhole(today.year + years);
    case Quarter(quarter, year) =>
      QuarterTiled(if year.Some? then year.value else today.year, quarter);
    case NamedMonth(month, year) =>
      MonthDefined(if year.Some? then year.value else today.year, month);
  }

  // ---------- What the relative cues mean ----------

  /**
   A shift by n days names the day of the instant n days from now, and is defined while
   that day is in years 1 to 9999.
   */
  lemma DayShiftExact(now: I64, n: I64)
    requires CivilFromDays(now / DAY).Some?
    ensures var today := CivilFromDays(now / DAY).value;
      && (Resolve(DayShift(n), today).Some? <==> FIRST_DAY <= now / DAY + n <= LAST_DAY)
      && (Resolve(DayShift(n), today).Some? ==> InRange(Resolve(DayShift(n), today).value, now + n * DAY))
  {
    hide DayNumber, DateOf, CivilFromDays;
    DaysRoundTrip(now / DAY);
    var today := CivilFromDays(now / DAY).value;
    var target := now / DAY + n;
    if I64_MIN <= target <= I64_MAX {
      DaysRoundTrip(target);
      assert (now + n * DAY) / DAY == target;
    }
  }

  /**
   This week, month and year hold the present instant, and each is defined for every
   present day up to the end of the calendar.
   */
  lemma ThisPeriodHoldsNow(now: I64)
    requires CivilFromDays(now / DAY).Some?
    ensures var today := CivilFromDays(now / DAY).value;
      && Resolve(WeekShift(0), today).Some? && InRange(Resolve(WeekShift(0), today).value, now)
      && (Resolve(MonthShift(0), today).Some? <==> !(today.year == 9999 && today.month == 12))
      && (Resolve(MonthShift(0), today).Some? ==> InRange(Resolve(MonthShift(0), today).value, now))
      && (Resolve(YearShift(0), today).Some? <==> today.year != 9999)
      && (Resolve(YearShift(0), today).Some? ==> InRange(Resolve(YearShift(0), today).value, now))
  {
    hide DayNumber, DateOf, DateRanges.MonthOf, YearOf, WeekOf, DayBounds, InRange;
    DaysRoundTrip(now / DAY);
    var today := CivilFromDays(now / DAY).value;
    NowIsInside(now);
    CivilRoundTrip(today);
    assert AddDays(today, 0) == Some(today);
    MonthIndex(today.year, today.month);
    MonthDefined(today.year, today.month);
    YearDefined(today.year);
    if today.year != 9999 {
      YearHoldsToday(now, today);
    }
  }

  lemma MonthIndex(year: int, month: nat)
    requires 1 <= month <= 12
    ensures (year * 12 + month - 1) / 12 == year && (year * 12 + month - 1) % 12 + 1 == month
  {
  }

  lemma YearHoldsToday(now: I64, today: CivilDate)
    requires CivilFromDays(now / DAY) == Some(today) && YearOf(today.year).Some?
    ensures InRange(YearOf(today.year).value, now)
  {
    hide DayNumber, DateOf, YearOf, CivilFromDays;
    DaysRoundTrip(now / DAY);
    DaysFromCivilDefined(today);
    DayInYear(today);
    YearDefined(today.year);
    YearIsWhole(today.year);
    WholeRangeHoldsDay(YearOf(today.year).value, DayNumber(today), now);
  }

  /** Consecutive weeks, months and years of a present day follow each other without gap or overlap. */
  lemma PeriodsAdjacent(today: CivilDate, k: int)
    requires 1 <= today.month <= 12
    ensures Adjacent(Resolve(WeekShift(k), today), Resolve(WeekShift(k + 1), today))
    ensures Adjacent(Resolve(MonthShift(k), today), Resolve(MonthShift(k + 1), today))
    ensures Adjacent(Resolve(YearShift(k), today), Resolve(YearShift(k + 1), today))
  {
    hide Resolve, Adjacent;
    WeeksAdjacent(today, k);
    ShiftedMonthsAdjacent(today, k);
    YearsAdjacent(today, k);
  }

  lemma YearsAdjacent(today: CivilDate, k: int)
    ensures Adjacent(Resolve(YearShift(k), today), Resolve(YearShift(k + 1), today))
  {
    hide DayNumber, DateOf, YearOf;
    YearDefined(today.year + k);
    YearDefined(today.year + k + 1);
  }

  ghost predicate Adjacent(a: Option<DateRange>, b: Option<DateRange>) {
    a.Some? && b.Some? ==> b.value.lo == a.value.hi + 1
  }

  lemma WeeksAdjacent(today: CivilDate, k: int)
    ensures Adjacent(Resolve(WeekShift(k), today), Resolve(WeekShift(k + 1), today))
  {
    hide DayNumber, DateOf, CivilFromDays, DaysFromCivil;
    if Resolve(WeekShift(k), today).Some? && Resolve(WeekShift(k + 1), today).Some? {
      var n := DaysFromCivil(today).value;
      DaysRoundTrip(n + k * 7);
      DaysRoundTrip(n + k * 7 + 7);
      assert (k + 1) * 7 == k * 7 + 7;
    }
  }

  lemma ShiftedMonthsAdjacent(today: CivilDate, k: int)
    ensures Adjacent(Resolve(MonthShift(k), today), Resolve(MonthShift(k + 1), today))
  {
    hide DayNumber, DateOf, DaysFromCivil, DateRanges.MonthOf;
    var index := today.year * 12 + today.month - 1 + k;
    var year, month := index / 12, index % 12 + 1;
    assert NextMonth(year, month) == ((index + 1) / 12, (index + 1) % 12 + 1);
    if DateRanges.MonthOf(year, month).Some? && DateRanges.MonthOf((index + 1) / 12, (index + 1) % 12 + 1).Some? {
      MonthsAdjacent(year, month);
    }
  }

  // ---------- Dates written in the query ----------

  /** "YYYY-MM-DD". */
  function RenderDate(d: CivilDate): (s: string)
    requires IsValid(d)
    ensures |s| == 10
  {
    Pad4(d.year) + "-" + Pad2(d.month) + "-" + Pad2(d.day)
  }

  lemma DateParses(d: CivilDate)
    requires IsValid(d)
    ensures TokenCue(RenderDate(d)) == Some(DayOf(DayNumber(d) * DAY))
    ensures forall i :: 0 <= i < 10 ==> TokenChar(RenderDate(d)[i])
  {
    hide DayNumber, DateOf, ParseDate, DaysFromCivil;
    var s := RenderDate(d);
    assert s[..10] == s;
    assert s[0..4] == Pad4(d.year) && s[5..7] == Pad2(d.month) && s[8..10] == Pad2(d.day);
    RenderedDate(d, s);
    ValidDayNumbers(d);
    TrimIsIdentity(s);
  }

  ghost predicate NoTokenChars(s: string) {
    forall i :: 0 <= i < |s| ==> !TokenChar(s[i])
  }

  ghost predicate Blank(tokens: seq<string>, n: nat) {
    n <= |tokens| && forall i :: 0 <= i < n ==> tokens[i] == []
  }

  lemma {:induction false} TokensAfter(pre: string, s: string)
    requires NoTokenChars(pre)
    ensures var tokens := TokensFrom(pre + s, []); Blank(tokens, |pre|) && tokens[|pre|..] == TokensFrom(s, [])
    decreases |pre|
  {
    hide TokenChar;
    if pre == [] {
      assert pre + s == s;
    } else {
      assert (pre + s)[1..] == pre[1..] + s;
      TokensAfter(pre[1..], s);
      var rest := TokensFrom(pre[1..] + s, []);
      assert TokensFrom(pre + s, []) == [[]] + rest;
      assert ([[]] + rest)[|pre|..] == rest[|pre| - 1..];
    }
  }

  lemma {:induction false} TokenRun(token: string, cur: string, post: string)
    requires forall i :: 0 <= i < |token| ==> TokenChar(token[i])
    requires post == [] || !TokenChar(post[0])
    ensures TokensFrom(token + post, cur)[0] == cur + token
    decreases |token|
  {
    hide TokenChar;
    if token == [] {
      assert token + post == post && cur + token == cur;
    } else {
      assert (token + post)[1..] == token[1..] + post;
      assert cur + [token[0]] + token[1..] == cur + token;
      TokenRun(token[1..], cur + [token[0]], post);
    }
  }

  lemma {:induction false} FirstSomeAt(f: nat -> Option<Cue>, i: nat, n: nat, j: nat)
    requires i <= j < n && f(j).Some? && forall k: nat :: i <= k < j ==> f(k).None?
    ensures FirstSome(f, i, n) == f(j)
    decreases j - i
  {
    hide FirstSome;
    FirstSomeStep(f, i, n);
    if i < j {
      FirstSomeAt(f, i + 1, n, j);
    }
  }

  lemma FirstSomeStep(f: nat -> Option<Cue>, i: nat, n: nat)
    requires i < n
    ensures FirstSome(f, i, n) == OrElse(f(i), FirstSome(f, i + 1, n))
  {
  }

  lemma FirstTokenCue(tokens: seq<string>, n: nat)
    requires Blank(tokens, n) && n < |tokens| && TokenCue(tokens[n]).Some?
    ensures FirstSome(TokenAt(tokens), 0, |tokens|) == TokenCue(tokens[n])
  {
    hide FirstSome, TokenCue;
    var f := TokenAt(tokens);
    NoBlankCue();
    forall k: nat | 0 <= k < n
      ensures f(k).None?
    {
    }
    FirstSomeAt(f, 0, |tokens|, n);
  }

  lemma NoBlankCue()
    ensures TokenCue([]).None?
  {
  }

  /** A date written in a query, with no digits or date punctuation before it, is the cue, whatever follows it. */
  lemma WrittenDateIsCue(pre: string, d: CivilDate, post: string, alnum: char -> bool)
    requires IsValid(d) && NoTokenChars(pre) && (post == [] || !TokenChar(post[0]))
    ensures CueIn(pre + RenderDate(d) + post, alnum) == Some(DayOf(DayNumber(d) * DAY))
  {
    hide DayNumber, RenderDate, TokenCue, FirstSome, SplitWhitespace, TokenChar, CueIn;
    var token := RenderDate(d);
    var query := pre + token + post;
    DateParses(d);
    assert query == pre + (token + post);
    TokensAfter(pre, token + post);
    TokenRun(token, [], post);
    var tokens := TokensFrom(query, []);
    assert tokens[|pre|] == tokens[|pre|..][0] == [] + token == token;
    FirstTokenCue(tokens, |pre|);
    TokensComeFirst(query, alnum);
  }

  lemma TokensComeFirst(query: string, alnum: char -> bool)
    ensures var tokens := TokensFrom(query, []); var hit := FirstSome(TokenAt(tokens), 0, |tokens|);
      hit.Some? ==> CueIn(query, alnum) == hit
  {
    hide CueIn, FirstSome, TokenAt, NeedleAt, RelativeAt, QuarterAt, MonthAt, TokensFrom, SplitWhitespace;
    CueByPass(query, alnum);
  }

  /** Such a query gives the written day, at any present instant in years 1 to 9999. */
  lemma WrittenDateRange(pre: string, d: CivilDate, post: string, alnum: char -> bool, today: CivilDate)
    requires IsValid(d) && NoTokenChars(pre) && (post == [] || !TokenChar(post[0]))
    ensures var cue := CueIn(pre + RenderDate(d) + post, alnum);
      cue.Some? && Resolve(cue.value, today) == Some(DayBounds(d))
  {
    hide DayNumber, RenderDate, CueIn;
    WrittenDateIsCue(pre, d, post, alnum);
    BoundsOf(d);
  }

  ghost predicate NoClockMark(token: string) {
    forall i :: 0 <= i < |token| ==> TokenChar(token[i]) && token[i] != 'T'
  }

  /**
   Lower-casing leaves no 'T' in a query, so a token that is accepted is a bare date:
   the clock and offset of a full timestamp are never read.
   */
  lemma ClockIsNeverRead(token: string)
    requires NoClockMark(token) && TokenCue(token).Some?
    ensures |token| == 10 && ParseDate(token).Some?
  {
    hide DayNumber, DateOf, ParseDate, DaysFromCivil, ApplySuffix;
    TrimIsIdentity(token);
    NoClock(token);
  }

  lemma NoClock(token: string)
    requires NoClockMark(token)
    ensures |token| >= 19 ==> ParseClock(token).None?
  {
    if |token| >= 19 {
      assert TokenChar(token[10]) && token[10] != 'T';
    }
  }

  /** A full timestamp: date, clock and numeric offset. */
  function RenderWithOffset(d: CivilDate, hour: nat, minute: nat, second: nat, negative: bool, hours: nat,
                            minutes: nat): (s: string)
    requires IsValid(d) && hour <= 23 && minute <= 59 && second <= 59 && hours <= 23 && minutes <= 59
  {
    Render(d, hour, minute, second)[..19] + OffsetText(negative, hours, minutes)
  }

  /**
   A query that writes a full timestamp gets the day of its date part. That day holds
   the instant written exactly when the offset does not carry the clock over midnight.
   */
  lemma WrittenOffset(pre: string, d: CivilDate, hour: nat, minute: nat, second: nat, negative: bool, hours: nat,
                      minutes: nat, alnum: char -> bool, today: CivilDate)
    requires IsValid(d) && hour <= 23 && minute <= 59 && second <= 59 && hours <= 23 && minutes <= 59 &&
      NoTokenChars(pre)
    ensures var text := RenderWithOffset(d, hour, minute, second, negative, hours, minutes);
      var clock := hour * 3600 + minute * 60 + second - OffsetSeconds(negative, hours, minutes);
      && |text| == 25
      && ParseTimestamp(text) == Some(DayNumber(d) * DAY + clock)
      && var cue := CueIn(pre + text[10 := 't'], alnum);
        && cue.Some? && Resolve(cue.value, today) == Some(DayBounds(d))
        && (InRange(DayBounds(d), DayNumber(d) * DAY + clock) <==> 0 <= clock < DAY)
  {
    hide DayNumber, DateOf, ParseTimestamp, CueIn, Resolve, RenderDate;
    var text := RenderWithOffset(d, hour, minute, second, negative, hours, minutes);
    WrittenInstant(d, hour, minute, second, negative, hours, minutes);
    var post := "t" + text[11..];
    DatePart(d, hour, minute, second, negative, hours, minutes);
    assert pre + text[10 := 't'] == pre + RenderDate(d) + post;
    WrittenDateRange(pre, d, post, alnum, today);
    BoundsOf(d);
  }

  const MIDNIGHT := "2024-01-01T00:00:00+01:00"

  lemma MidnightText()
    ensures RenderWithOffset(CivilDate(2024, 1, 1), 0, 0, 0, false, 1, 0) == MIDNIGHT
  {
    MidnightFields();
    hide Pad2, Pad4;
    var s := Render(CivilDate(2024, 1, 1), 0, 0, 0);
    assert s == "2024-01-01T00:00:00Z";
    assert s[..19] == "2024-01-01T00:00:00";
    assert OffsetText(false, 1, 0) == "+01:00";
  }

  lemma MidnightFields()
    ensures Pad4(2024) == "2024" && Pad2(1) == "01" && Pad2(0) == "00"
  {
  }

  /** Midnight an hour east of UTC: the query gets the first of January, the instant is on the day before. */
  lemma MidnightMisses(alnum: char -> bool, today: CivilDate)
    ensures var cue := CueIn(MIDNIGHT[10 := 't'], alnum);
      && ParseTimestamp(MIDNIGHT).Some? && cue.Some?
      && Resolve(cue.value, today) == Some(DayBounds(CivilDate(2024, 1, 1)))
      && !InRange(DayBounds(CivilDate(2024, 1, 1)), ParseTimestamp(MIDNIGHT).value)
  {
    var d := CivilDate(2024, 1, 1);
    MidnightText();
    assert IsValid(d);
    hide MIDNIGHT, RenderWithOffset, CueIn, Resolve, ParseTimestamp, DayBounds, DayNumber;
    WrittenOffset([], d, 0, 0, 0, false, 1, 0, alnum, today);
    assert [] + MIDNIGHT[10 := 't'] == MIDNIGHT[10 := 't'];
  }

  lemma DatePart(d: CivilDate, hour: nat, minute: nat, second: nat, negative: bool, hours: nat, minutes: nat)
    requires IsValid(d) && hour <= 23 && minute <= 59 && second <= 59 && hours <= 23 && minutes <= 59
    ensures var text := RenderWithOffset(d, hour, minute, second, negative, hours, minutes);
      |text| == 25 && text[..10] == RenderDate(d)
  {
    hide Pad2, Pad4;
    RenderShape(d, hour, minute, second);
    ParseOffsetText(negative, hours, minutes);
    var s := Render(d, hour, minute, second);
    assert s[..10] == RenderDate(d);
  }

  lemma WrittenInstant(d: CivilDate, hour: nat, minute: nat, second: nat, negative: bool, hours: nat, minutes: nat)
    requires IsValid(d) && hour <= 23 && minute <= 59 && second <= 59 && hours <= 23 && minutes <= 59
    ensures ParseTimestamp(RenderWithOffset(d, hour, minute, second, negative, hours, minutes))
      == Some(DayNumber(d) * DAY + hour * 3600 + minute * 60 + second - OffsetSeconds(negative, hours, minutes))
  {
    hide DayNumber, DateOf, ParseTimestamp, Render;
    var s := Render(d, hour, minute, second);
    RenderShape(d, hour, minute, second);
    ParseRendered(d, hour, minute, second);
    assert s[..19] + "Z" == s;
    assert s[0..4][0] == Digit(d.year / 100 / 10);
    DigitIsDigit(d.year / 100 / 10);
    ValidDayNumbers(d);
    OffsetShifts(s[..19], DayNumber(d) * DAY + hour * 3600 + minute * 60 + second, negative, hours, minutes);
  }
}
