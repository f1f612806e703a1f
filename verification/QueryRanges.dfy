/** From the words of a query to its range: days, counted units, periods, quarters and months. */
module QueryRanges {
  import opened Prelude
  import opened Text
  import opened Calendar
  import opened Timestamps
  import opened DateRanges
  import opened TemporalQuery
  import opened QueryPhrases

  // ---------- Queries without a written date ----------

  ghost predicate AllDigits(s: string) {
    forall i :: 0 <= i < |s| ==> IsDigit(s[i])
  }

  /** The only date characters are digits. */
  ghost predicate NoDateMarks(query: string) {
    forall i :: 0 <= i < |query| ==> TokenChar(query[i]) ==> IsDigit(query[i])
  }

  lemma {:induction false} TokensAreDigits(s: string, cur: string)
    requires NoDateMarks(s) && AllDigits(cur)
    ensures forall k :: 0 <= k < |TokensFrom(s, cur)| ==> AllDigits(TokensFrom(s, cur)[k])
    decreases |s|
  {
    if s != [] {
      if TokenChar(s[0]) {
        TokensAreDigits(s[1..], cur + [s[0]]);
      } else {
        TokensAreDigits(s[1..], []);
      }
    }
  }

  /** Digits alone are no timestamp. */
  lemma DigitsAreNoDate(t: string)
    requires AllDigits(t)
    ensures TokenCue(t).None?
  {
    hide DayNumber, DateOf;
    if |t| >= 10 {
      TrimIsIdentity(t);
      assert t[..10][4] == t[4] && IsDigit(t[4]);
      assert ParseDate(t[..10]).None?;
      assert |t| == 10 ==> t[..10] == t;
    }
  }

  lemma NoWrittenDate(query: string)
    requires NoDateMarks(query)
    ensures var tokens := TokensFrom(query, []); FirstSome(TokenAt(tokens), 0, |tokens|).None?
  {
    hide TokenCue, TokensFrom;
    var tokens := TokensFrom(query, []);
    TokensAreDigits(query, []);
    forall k: nat | k < |tokens|
      ensures TokenAt(tokens)(k).None?
    {
      DigitsAreNoDate(tokens[k]);
    }
  }

  // ---------- The order of the passes ----------

  ghost predicate NoDayWord(query: string) {
    !Contains(query, "yesterday") && !Contains(query, "today") && !Contains(query, "tomorrow")
  }

  ghost predicate NoCount(query: string, alnum: char -> bool) {
    var words := SplitWhitespace(query);
    FirstSome(RelativeAt(words, alnum), 0, |words|).None?
  }

  lemma ThreeNeedles(query: string, needles: seq<(string, Cue)>)
    requires |needles| == 3
    ensures FirstSome(NeedleAt(query, needles), 0, 3) ==
      OrElse(NeedleCue(query, needles[0]), OrElse(NeedleCue(query, needles[1]), NeedleCue(query, needles[2])))
  {
    hide NeedleCue, FirstSome;
    var f := NeedleAt(query, needles);
    FirstSomeStep(f, 0, 3);
    FirstSomeStep(f, 1, 3);
    FirstSomeStep(f, 2, 3);
    NothingLeft(f, 3);
  }

  lemma NothingLeft(f: nat -> Option<Cue>, n: nat)
    ensures FirstSome(f, n, n).None?
  {
  }

  lemma OrNothing(a: Option<Cue>)
    ensures OrElse(a, None) == a
  {
  }

  lemma SixNeedles(query: string, needles: seq<(string, Cue)>)
    requires |needles| == 6
    ensures FirstSome(NeedleAt(query, needles), 0, 6) ==
      OrElse(NeedleCue(query, needles[0]), OrElse(NeedleCue(query, needles[1]), OrElse(NeedleCue(query, needles[2]),
      OrElse(NeedleCue(query, needles[3]), OrElse(NeedleCue(query, needles[4]), NeedleCue(query, needles[5]))))))
  {
    hide NeedleCue, FirstSome, OrElse;
    var f := NeedleAt(query, needles);
    SixInTurn(f);
  }

  lemma SixInTurn(f: nat -> Option<Cue>)
    ensures FirstSome(f, 0, 6) == OrElse(f(0), OrElse(f(1), OrElse(f(2), OrElse(f(3), OrElse(f(4), f(5))))))
  {
    hide FirstSome, OrElse;
    OrNothing(f(5));
    FirstSomeStep(f, 0, 6);
    FirstSomeStep(f, 1, 6);
    FirstSomeStep(f, 2, 6);
    FirstSomeStep(f, 3, 6);
    FirstSomeStep(f, 4, 6);
    FirstSomeStep(f, 5, 6);
    NothingLeft(f, 6);
  }

  lemma DayNeedle(query: string)
    ensures FirstSome(NeedleAt(query, DAY_NEEDLES), 0, |DAY_NEEDLES|) ==
      if Contains(query, "yesterday") then Some(DayShift(-1))
      else if Contains(query, "today") then Some(DayShift(0))
      else if Contains(query, "tomorrow") then Some(DayShift(1))
      else None
  {
    hide FirstSome, Contains;
    ThreeNeedles(query, DAY_NEEDLES);
  }

  lemma PeriodNeedle(query: string)
    ensures FirstSome(NeedleAt(query, PERIOD_NEEDLES), 0, |PERIOD_NEEDLES|) ==
      if Contains(query, "last week") then Some(WeekShift(-1))
      else if Contains(query, "this week") then Some(WeekShift(0))
      else if Contains(query, "next week") then Some(WeekShift(1))
      else if Contains(query, "last month") then Some(MonthShift(-1))
      else if Contains(query, "this month") then Some(MonthShift(0))
      else if Contains(query, "next month") then Some(MonthShift(1))
      else None
  {
    hide FirstSome, Contains;
    SixNeedles(query, PERIOD_NEEDLES);
  }

  lemma YearNeedle(query: string)
    ensures FirstSome(NeedleAt(query, YEAR_NEEDLES), 0, |YEAR_NEEDLES|) ==
      if Contains(query, "last year") then Some(YearShift(-1))
      else if Contains(query, "this year") then Some(YearShift(0))
      else if Contains(query, "next year") then Some(YearShift(1))
      else None
  {
    hide FirstSome, Contains;
    ThreeNeedles(query, YEAR_NEEDLES);
  }

  /** The first day word there is, in this order, anywhere in a query without a written date. */
  lemma DayWord(query: string, alnum: char -> bool)
    requires NoDateMarks(query)
    ensures Contains(query, "yesterday") ==> CueIn(query, alnum) == Some(DayShift(-1))
    ensures !Contains(query, "yesterday") && Contains(query, "today") ==> CueIn(query, alnum) == Some(DayShift(0))
    ensures !Contains(query, "yesterday") && !Contains(query, "today") && Contains(query, "tomorrow") ==>
      CueIn(query, alnum) == Some(DayShift(1))
  {
    hide CueIn, FirstSome, Contains, TokenAt, NeedleAt, RelativeAt, QuarterAt, MonthAt, TokensFrom, SplitWhitespace;
    hide DAY_NEEDLES, PERIOD_NEEDLES, YEAR_NEEDLES;
    CueByPass(query, alnum);
    NoWrittenDate(query);
    DayNeedle(query);
  }

  /** Without a day word a counted unit comes next. */
  lemma CountedUnit(query: string, alnum: char -> bool)
    requires NoDateMarks(query) && NoDayWord(query)
    ensures var words := SplitWhitespace(query); var hit := FirstSome(RelativeAt(words, alnum), 0, |words|);
      hit.Some? ==> CueIn(query, alnum) == hit
  {
    hide CueIn, FirstSome, Contains, TokenAt, NeedleAt, RelativeAt, QuarterAt, MonthAt, TokensFrom, SplitWhitespace;
    hide DAY_NEEDLES, PERIOD_NEEDLES, YEAR_NEEDLES;
    CueByPass(query, alnum);
    NoWrittenDate(query);
    DayNeedle(query);
  }

  ghost predicate NoPeriod(query: string) {
    && !Contains(query, "last week") && !Contains(query, "this week") && !Contains(query, "next week")
    && !Contains(query, "last month") && !Contains(query, "this month") && !Contains(query, "next month")
  }

  ghost predicate NoYearWord(query: string) {
    !Contains(query, "last year") && !Contains(query, "this year") && !Contains(query, "next year")
  }

  /** Then weeks and months, in this order. */
  lemma PeriodWord(query: string, alnum: char -> bool)
    requires NoDateMarks(query) && NoDayWord(query) && NoCount(query, alnum)
    ensures !NoPeriod(query) ==> CueIn(query, alnum) == Some(
      if Contains(query, "last week") then WeekShift(-1)
      else if Contains(query, "this week") then WeekShift(0)
      else if Contains(query, "next week") then WeekShift(1)
      else if Contains(query, "last month") then MonthShift(-1)
      else if Contains(query, "this month") then MonthShift(0)
      else MonthShift(1))
  {
    hide CueIn, FirstSome, Contains, TokenAt, NeedleAt, RelativeAt, QuarterAt, MonthAt, TokensFrom, SplitWhitespace;
    hide DAY_NEEDLES, PERIOD_NEEDLES, YEAR_NEEDLES;
    CueByPass(query, alnum);
    NoWrittenDate(query);
    DayNeedle(query);
    PeriodNeedle(query);
  }

  /** Then years. */
  lemma YearWord(query: string, alnum: char -> bool)
    requires NoDateMarks(query) && NoDayWord(query) && NoCount(query, alnum) && NoPeriod(query)
    ensures !NoYearWord(query) ==> CueIn(query, alnum) == Some(
      if Contains(query, "last year") then YearShift(-1)
      else if Contains(query, "this year") then YearShift(0)
      else YearShift(1))
  {
    hide CueIn, FirstSome, Contains, TokenAt, NeedleAt, RelativeAt, QuarterAt, MonthAt, TokensFrom, SplitWhitespace;
    hide DAY_NEEDLES, PERIOD_NEEDLES, YEAR_NEEDLES;
    CueByPass(query, alnum);
    NoWrittenDate(query);
    DayNeedle(query);
    PeriodNeedle(query);
    YearNeedle(query);
  }

  /** Then quarters, then month names. */
  lemma QuarterOrMonth(query: string, alnum: char -> bool)
    requires NoDateMarks(query) && NoDayWord(query) && NoCount(query, alnum) && NoPeriod(query) && NoYearWord(query)
    ensures var words := SplitWhitespace(query);
      CueIn(query, alnum) ==
        OrElse(FirstSome(QuarterAt(words), 0, |words|), FirstSome(MonthAt(words, alnum), 0, |words|))
  {
    hide CueIn, FirstSome, Contains, TokenAt, NeedleAt, RelativeAt, QuarterAt, MonthAt, TokensFrom, SplitWhitespace;
    hide DAY_NEEDLES, PERIOD_NEEDLES, YEAR_NEEDLES;
    CueByPass(query, alnum);
    NoWrittenDate(query);
    DayNeedle(query);
    PeriodNeedle(query);
    YearNeedle(query);
  }

  // ---------- Words without digits count nothing ----------

  ghost predicate LettersOnly(s: string) {
    forall i :: 0 <= i < |s| ==> 'a' <= s[i] <= 'z' || s[i] == ' '
  }

  ghost predicate NoDigits(s: string) {
    forall i :: 0 <= i < |s| ==> !IsDigit(s[i])
  }

  lemma LettersAreNoDate(s: string)
    requires LettersOnly(s)
    ensures NoDateMarks(s) && NoDigits(s)
  {
  }

  lemma {:induction false} WordsWithoutDigits(s: string, cur: string)
    requires NoDigits(s) && NoDigits(cur)
    ensures forall k :: 0 <= k < |SplitFrom(s, cur)| ==> NoDigits(SplitFrom(s, cur)[k])
    decreases |s|
  {
    if s != [] {
      if IsWhitespace(s[0]) {
        WordsWithoutDigits(s[1..], []);
      } else {
        WordsWithoutDigits(s[1..], cur + [s[0]]);
      }
    }
  }

  lemma {:induction false} TrimEverything(s: string)
    requires NoDigits(s)
    ensures TrimMatches(s, NotDigit) == []
  {
    if s != [] {
      TrimEverything(s[1..]);
    }
  }

  lemma NoDigitsNoCount(query: string, alnum: char -> bool)
    requires NoDigits(query)
    ensures NoCount(query, alnum)
  {
    hide SplitWhitespace, TrimMatches, FirstSome;
    var words := SplitWhitespace(query);
    forall k: nat | k < |words|
      ensures RelativeAt(words, alnum)(k).None?
    {
      WordAt(query, k);
      TrimEverything(words[k]);
    }
  }

  lemma WordAt(query: string, k: nat)
    requires NoDigits(query) && k < |SplitWhitespace(query)|
    ensures NoDigits(SplitWhitespace(query)[k])
  {
    WordsWithoutDigits(query, []);
  }

  // ---------- Ranges of phrases ----------

  /** The present is in years 1 to 9999. */
  predicate InCalendar(ts: int) {
    FIRST_DAY * DAY <= ts < (LAST_DAY + 1) * DAY
  }

  function Today(now: I64): (d: CivilDate)
    requires InCalendar(now)
    ensures IsValid(d) && DaysFromCivil(d) == Some(now / DAY)
  {
    DaysRoundTrip(now / DAY);
    CivilFromDays(now / DAY).value
  }

  /** Outside the calendar no query has a range; inside, its cue decides. */
  lemma RangeByCue(text: string, now: I64, alnum: char -> bool)
    ensures !InCalendar(now) ==> TemporalRange(text, now, alnum).None?
    ensures InCalendar(now) ==>
      var cue := CueIn(Normalized(text), alnum);
      TemporalRange(text, now, alnum) == if cue.None? then None else Resolve(cue.value, Today(now))
  {
    hide CueIn, Resolve, REPLACEMENTS, DayNumber, DateOf;
    DaysRoundTrip(now / DAY);
  }

  /** The UTC day that holds this instant, where the calendar has it. */
  ghost predicate IsDayOf(r: Option<DateRange>, ts: int) {
    && (r.Some? <==> InCalendar(ts))
    && (r.Some? ==> r.value.lo <= ts <= r.value.hi && r.value.lo % DAY == 0 && r.value.hi == r.value.lo + DAY - 1)
  }

  /** The week, Monday to Sunday, that holds this instant. */
  ghost predicate IsWeekOf(r: Option<DateRange>, ts: int) {
    && (r.Some? <==> InCalendar(ts))
    && (r.Some? ==>
          && r.value.lo <= ts <= r.value.hi && r.value.hi == r.value.lo + 7 * DAY - 1
          && r.value.lo % DAY == 0 && (r.value.lo / DAY - 4) % 7 == 0)
  }

  lemma ShiftIsDay(now: I64, n: I64)
    requires InCalendar(now)
    ensures IsDayOf(Resolve(DayShift(n), Today(now)), now + n * DAY)
  {
    hide DayNumber, DateOf, CivilFromDays, DaysFromCivil;
    DaysRoundTrip(now / DAY);
    DayShiftExact(now, n);
    DayIsWhole(AddDaysOr(Today(now), n));
  }

  function AddDaysOr(d: CivilDate, n: int): CivilDate {
    if AddDays(d, n).Some? then AddDays(d, n).value else d
  }

  lemma ShiftIsWeek(now: I64, k: int)
    requires InCalendar(now) && -1 <= k <= 1
    ensures IsWeekOf(Resolve(WeekShift(k), Today(now)), now + 7 * k * DAY)
  {
    hide DayNumber, DateOf, CivilFromDays, DaysFromCivil, WeekOf, DayBounds;
    DaysRoundTrip(now / DAY);
    DaysRoundTrip(now / DAY + 7 * k);
    var d := AddDaysOr(Today(now), 7 * k);
    if AddDays(Today(now), 7 * k).Some? {
      WeekHoldsItsDay(d);
      BoundsOf(d);
      DaysFromCivilDefined(d);
    }
  }

  lemma ContainsSelf(s: string)
    ensures Contains(s, s)
  {
    assert s[..|s|] == s;
  }

  lemma Absent(query: string, word: string, c: char)
    requires c in word && Avoids(query, c)
    ensures !Contains(query, word)
  {
    hide Contains;
    Lacking(query, word, c);
    NotContained(query, word);
  }

  // ---------- Days by name ----------

  lemma DayWords()
    ensures CueOf("yesterday", DayShift(-1)) && CueOf("today", DayShift(0)) && CueOf("tomorrow", DayShift(1))
  {
    hide CueIn, Contains, NoDateMarks;
    ContainsSelf("yesterday");
    ContainsSelf("today");
    ContainsSelf("tomorrow");
    LettersAreNoDate("yesterday");
    LettersAreNoDate("today");
    LettersAreNoDate("tomorrow");
    Absent("today", "yesterday", 'e');
    Absent("tomorrow", "yesterday", 'd');
    Absent("tomorrow", "today", 'd');
    forall alnum: char -> bool
      ensures CueIn("yesterday", alnum) == Some(DayShift(-1))
      ensures CueIn("today", alnum) == Some(DayShift(0))
      ensures CueIn("tomorrow", alnum) == Some(DayShift(1))
    {
      DayWord("yesterday", alnum);
      DayWord("today", alnum);
      DayWord("tomorrow", alnum);
    }
  }

  /** A normalized query has this cue, whatever counts as alphanumeric. */
  ghost predicate CueOf(query: string, cue: Cue) {
    forall alnum: char -> bool :: CueIn(query, alnum) == Some(cue)
  }

  lemma DayNames(text: string)
    ensures text in {"yesterday", "gestern"} ==> Normalized(text) == "yesterday"
    ensures text in {"today", "heute"} ==> Normalized(text) == "today"
    ensures text in {"tomorrow", "morgen"} ==> Normalized(text) == "tomorrow"
  {
    hide KeyFree, Normalized;
    DayPhrasesFree();
    GermanDays();
    if KeyFree(text) {
      KeyFreeUnchanged(text);
    }
  }

  lemma RangeOfCue(text: string, cue: Cue, now: I64, alnum: char -> bool)
    requires InCalendar(now) && CueOf(Normalized(text), cue)
    ensures TemporalRange(text, now, alnum) == Resolve(cue, Today(now))
  {
    hide CueIn, Resolve, Normalized, TemporalRange;
    RangeByCue(text, now, alnum);
  }

  /** Yesterday, today and tomorrow, and the German words for them, are the days around the present instant. */
  lemma DaysByName(text: string, now: I64, alnum: char -> bool)
    requires InCalendar(now)
    ensures text in {"yesterday", "gestern"} ==> IsDayOf(TemporalRange(text, now, alnum), now - DAY)
    ensures text in {"today", "heute"} ==> IsDayOf(TemporalRange(text, now, alnum), now)
    ensures text in {"tomorrow", "morgen"} ==> IsDayOf(TemporalRange(text, now, alnum), now + DAY)
  {
    hide Resolve, Normalized, TemporalRange, CueOf, IsDayOf, Today, InCalendar;
    DayNames(text);
    DayWords();
    if text in {"yesterday", "gestern"} {
      RangeOfCue(text, DayShift(-1), now, alnum);
      ShiftIsDay(now, -1);
    }
    if text in {"today", "heute"} {
      RangeOfCue(text, DayShift(0), now, alnum);
      ShiftIsDay(now, 0);
    }
    if text in {"tomorrow", "morgen"} {
      RangeOfCue(text, DayShift(1), now, alnum);
      ShiftIsDay(now, 1);
    }
  }

  /** The same anywhere in a query without date marks, before any other cue. */
  lemma DayWordRange(text: string, now: I64, alnum: char -> bool)
    requires InCalendar(now) && NoDateMarks(Normalized(text))
    ensures Contains(Normalized(text), "yesterday") ==> IsDayOf(TemporalRange(text, now, alnum), now - DAY)
    ensures !Contains(Normalized(text), "yesterday") && Contains(Normalized(text), "today") ==>
      IsDayOf(TemporalRange(text, now, alnum), now)
    ensures (!Contains(Normalized(text), "yesterday") && !Contains(Normalized(text), "today")
        && Contains(Normalized(text), "tomorrow")) ==>
      IsDayOf(TemporalRange(text, now, alnum), now + DAY)
  {
    hide Resolve, Normalized, TemporalRange, IsDayOf, Today, InCalendar, Contains, CueIn;
    RangeByCue(text, now, alnum);
    DayWord(Normalized(text), alnum);
    ShiftIsDay(now, -1);
    ShiftIsDay(now, 0);
    ShiftIsDay(now, 1);
  }

  // ---------- Weeks, months and years by name ----------

  /** A phrase of letters with no day word in it. */
  lemma PeriodPhrase(query: string, c: char)
    requires LettersOnly(query) && Avoids(query, 'd') && c in "tomorrow" && Avoids(query, c)
    ensures NoDateMarks(query) && NoDayWord(query) && forall alnum: char -> bool :: NoCount(query, alnum)
  {
    hide Contains, NoCount, NoDateMarks, NoDigits, Avoids;
    LettersAreNoDate(query);
    Absent(query, "yesterday", 'd');
    Absent(query, "today", 'd');
    Absent(query, "tomorrow", c);
    forall alnum: char -> bool
      ensures NoCount(query, alnum)
    {
      NoDigitsNoCount(query, alnum);
    }
  }

  lemma PeriodCue(query: string, cue: Cue)
    requires NoDateMarks(query) && NoDayWord(query) && (forall alnum: char -> bool :: NoCount(query, alnum))
    requires !NoPeriod(query) && cue ==
      if Contains(query, "last week") then WeekShift(-1)
      else if Contains(query, "this week") then WeekShift(0)
      else if Contains(query, "next week") then WeekShift(1)
      else if Contains(query, "last month") then MonthShift(-1)
      else if Contains(query, "this month") then MonthShift(0)
      else MonthShift(1)
    ensures CueOf(query, cue)
  {
    hide Contains, NoCount, NoDateMarks, NoDayWord, CueIn;
    forall alnum: char -> bool
      ensures CueIn(query, alnum) == Some(cue)
    {
      PeriodWord(query, alnum);
    }
  }

  lemma LastWeekWord()
    ensures CueOf("last week", WeekShift(-1))
  {
    hide Contains, NoDateMarks, NoDayWord, NoCount, CueOf;
    ContainsSelf("last week");
    PeriodPhrase("last week", 'm');
    PeriodCue("last week", WeekShift(-1));
  }

  lemma ThisWeekWord()
    ensures CueOf("this week", WeekShift(0))
  {
    hide Contains, NoDateMarks, NoDayWord, NoCount, CueOf;
    ContainsSelf("this week");
    PeriodPhrase("this week", 'm');
    Absent("this week", "last week", 'l');
    PeriodCue("this week", WeekShift(0));
  }

  lemma NextWeekWord()
    ensures CueOf("next week", WeekShift(1))
  {
    hide Contains, NoDateMarks, NoDayWord, NoCount, CueOf;
    ContainsSelf("next week");
    PeriodPhrase("next week", 'm');
    Absent("next week", "last week", 'l');
    Absent("next week", "this week", 'h');
    PeriodCue("next week", WeekShift(1));
  }

  lemma NoWeekWord(query: string)
    requires Avoids(query, 'w')
    ensures !Contains(query, "last week") && !Contains(query, "this week") && !Contains(query, "next week")
  {
    hide Contains, Avoids;
    Absent(query, "last week", 'w');
    Absent(query, "this week", 'w');
    Absent(query, "next week", 'w');
  }

  lemma LastMonthWord()
    ensures CueOf("last month", MonthShift(-1))
  {
    hide Contains, NoDateMarks, NoDayWord, NoCount, CueOf;
    ContainsSelf("last month");
    PeriodPhrase("last month", 'r');
    NoWeekWord("last month");
    PeriodCue("last month", MonthShift(-1));
  }

  lemma ThisMonthWord()
    ensures CueOf("this month", MonthShift(0))
  {
    hide Contains, NoDateMarks, NoDayWord, NoCount, CueOf;
    ContainsSelf("this month");
    PeriodPhrase("this month", 'r');
    NoWeekWord("this month");
    Absent("this month", "last month", 'l');
    PeriodCue("this month", MonthShift(0));
  }

  lemma NextMonthWord()
    ensures CueOf("next month", MonthShift(1))
  {
    hide Contains, NoDateMarks, NoDayWord, NoCount, CueOf;
    ContainsSelf("next month");
    PeriodPhrase("next month", 'r');
    NoWeekWord("next month");
    Absent("next month", "last month", 'l');
    Absent("next month", "this month", 'i');
    PeriodCue("next month", MonthShift(1));
  }

  lemma NoPeriodWord(query: string)
    requires Avoids(query, 'w') && Avoids(query, 'm')
    ensures NoPeriod(query)
  {
    hide Contains, Avoids;
    NoWeekWord(query);
    Absent(query, "last month", 'm');
    Absent(query, "this month", 'm');
    Absent(query, "next month", 'm');
  }

  lemma YearCue(query: string, cue: Cue)
    requires NoDateMarks(query) && NoDayWord(query) && (forall alnum: char -> bool :: NoCount(query, alnum))
    requires NoPeriod(query) && !NoYearWord(query) && cue ==
      if Contains(query, "last year") then YearShift(-1)
      else if Contains(query, "this year") then YearShift(0)
      else YearShift(1)
    ensures CueOf(query, cue)
  {
    hide Contains, NoCount, NoDateMarks, NoDayWord, NoPeriod, CueIn;
    forall alnum: char -> bool
      ensures CueIn(query, alnum) == Some(cue)
    {
      YearWord(query, alnum);
    }
  }

  lemma LastYearWord()
    ensures CueOf("last year", YearShift(-1))
  {
    hide Contains, NoDateMarks, NoDayWord, NoCount, CueOf, NoPeriod;
    ContainsSelf("last year");
    PeriodPhrase("last year", 'm');
    NoPeriodWord("last year");
    YearCue("last year", YearShift(-1));
  }

  lemma ThisYearWord()
    ensures CueOf("this year", YearShift(0))
  {
    hide Contains, NoDateMarks, NoDayWord, NoCount, CueOf, NoPeriod;
    ContainsSelf("this year");
    PeriodPhrase("this year", 'm');
    NoPeriodWord("this year");
    Absent("this year", "last year", 'l');
    YearCue("this year", YearShift(0));
  }

  lemma NextYearWord()
    ensures CueOf("next year", YearShift(1))
  {
    hide Contains, NoDateMarks, NoDayWord, NoCount, CueOf, NoPeriod;
    ContainsSelf("next year");
    PeriodPhrase("next year", 'm');
    NoPeriodWord("next year");
    Absent("next year", "last year", 'l');
    Absent("next year", "this year", 'h');
    YearCue("next year", YearShift(1));
  }

  lemma WeekNames(text: string)
    ensures text in {"last week", "letzte woche", "letzten woche"} ==> Normalized(text) == "last week"
    ensures text in {"this week", "diese woche", "dieser woche"} ==> Normalized(text) == "this week"
    ensures text in {"next week", "n\U{00E4}chste woche", "naechste woche"} ==> Normalized(text) == "next week"
  {
    hide KeyFree, Normalized;
    WeekPhrasesFree();
    GermanLastWeek();
    GermanThisWeek();
    GermanNextWeek();
    GermanNextWeekSpelled();
    if KeyFree(text) {
      KeyFreeUnchanged(text);
    }
  }

  /** Last, this and next week, in both languages, are the weeks that hold the instants seven days apart. */
  lemma WeeksByName(text: string, now: I64, alnum: char -> bool)
    requires InCalendar(now)
    ensures text in {"last week", "letzte woche", "letzten woche"} ==>
      IsWeekOf(TemporalRange(text, now, alnum), now - 7 * DAY)
    ensures text in {"this week", "diese woche", "dieser woche"} ==> IsWeekOf(TemporalRange(text, now, alnum), now)
    ensures text in {"next week", "n\U{00E4}chste woche", "naechste woche"} ==>
      IsWeekOf(TemporalRange(text, now, alnum), now + 7 * DAY)
  {
    hide Resolve, Normalized, TemporalRange, CueOf, IsWeekOf, Today, InCalendar;
    WeekNames(text);
    LastWeekWord();
    ThisWeekWord();
    NextWeekWord();
    ShiftIsWeek(now, -1);
    ShiftIsWeek(now, 0);
    ShiftIsWeek(now, 1);
    if text in {"last week", "letzte woche", "letzten woche"} {
      RangeOfCue(text, WeekShift(-1), now, alnum);
    }
    if text in {"this week", "diese woche", "dieser woche"} {
      RangeOfCue(text, WeekShift(0), now, alnum);
    }
    if text in {"next week", "n\U{00E4}chste woche", "naechste woche"} {
      RangeOfCue(text, WeekShift(1), now, alnum);
    }
  }

  lemma MonthNames(text: string)
    ensures text in {"last month", "letzten monat", "letzter monat"} ==> Normalized(text) == "last month"
    ensures text in {"this month", "diesen monat", "dieser monat"} ==> Normalized(text) == "this month"
    ensures text in {"next month", "n\U{00E4}chsten monat", "naechsten monat"} ==> Normalized(text) == "next month"
  {
    hide KeyFree, Normalized;
    MonthPhrasesFree();
    GermanLastMonth();
    GermanThisMonth();
    GermanNextMonth();
    GermanNextMonthSpelled();
    if KeyFree(text) {
      KeyFreeUnchanged(text);
    }
  }

  /** The month before the day's, across the turn of the year. */
  function MonthBefore(d: CivilDate): Option<DateRange> {
    if d.month <= 1 then DateRanges.MonthOf(d.year - 1, 12) else DateRanges.MonthOf(d.year, d.month - 1)
  }

  function MonthAfter(d: CivilDate): Option<DateRange> {
    if d.month == 12 then DateRanges.MonthOf(d.year + 1, 1) else DateRanges.MonthOf(d.year, d.month + 1)
  }

  lemma MonthsAround(d: CivilDate)
    requires 1 <= d.month <= 12
    ensures Resolve(MonthShift(-1), d) == MonthBefore(d) && Resolve(MonthShift(1), d) == MonthAfter(d)
    ensures Resolve(MonthShift(0), d) == DateRanges.MonthOf(d.year, d.month)
  {
    hide DateRanges.MonthOf;
  }

  /** Last, this and next month, in both languages, are the months around today's. */
  lemma MonthsByName(text: string, now: I64, alnum: char -> bool)
    requires InCalendar(now)
    ensures text in {"last month", "letzten monat", "letzter monat"} ==>
      TemporalRange(text, now, alnum) == MonthBefore(Today(now))
    ensures text in {"this month", "diesen monat", "dieser monat"} ==>
      TemporalRange(text, now, alnum) == DateRanges.MonthOf(Today(now).year, Today(now).month)
    ensures text in {"next month", "n\U{00E4}chsten monat", "naechsten monat"} ==>
      TemporalRange(text, now, alnum) == MonthAfter(Today(now))
  {
    hide Resolve, Normalized, TemporalRange, CueOf, Today, InCalendar, DateRanges.MonthOf, MonthBefore, MonthAfter;
    MonthNames(text);
    LastMonthWord();
    ThisMonthWord();
    NextMonthWord();
    MonthsAround(Today(now));
    if text in {"last month", "letzten monat", "letzter monat"} {
      RangeOfCue(text, MonthShift(-1), now, alnum);
    }
    if text in {"this month", "diesen monat", "dieser monat"} {
      RangeOfCue(text, MonthShift(0), now, alnum);
    }
    if text in {"next month", "n\U{00E4}chsten monat", "naechsten monat"} {
      RangeOfCue(text, MonthShift(1), now, alnum);
    }
  }

  lemma YearNames(text: string)
    ensures text in {"last year", "letztes jahr"} ==> Normalized(text) == "last year"
    ensures text in {"this year", "dieses jahr"} ==> Normalized(text) == "this year"
    ensures text in {"next year", "n\U{00E4}chstes jahr", "naechstes jahr"} ==> Normalized(text) == "next year"
  {
    hide KeyFree, Normalized;
    YearPhrasesFree();
    GermanYears();
    GermanNextYear();
    if KeyFree(text) {
      KeyFreeUnchanged(text);
    }
  }

  /** Last, this and next year, in both languages, are the years around today's. */
  lemma YearsByName(text: string, now: I64, alnum: char -> bool)
    requires InCalendar(now)
    ensures text in {"last year", "letztes jahr"} ==> TemporalRange(text, now, alnum) == YearOf(Today(now).year - 1)
    ensures text in {"this year", "dieses jahr"} ==> TemporalRange(text, now, alnum) == YearOf(Today(now).year)
    ensures text in {"next year", "n\U{00E4}chstes jahr", "naechstes jahr"} ==>
      TemporalRange(text, now, alnum) == YearOf(Today(now).year + 1)
  {
    hide Normalized, TemporalRange, CueOf, Today, InCalendar, YearOf;
    YearNames(text);
    LastYearWord();
    ThisYearWord();
    NextYearWord();
    if text in {"last year", "letztes jahr"} {
      RangeOfCue(text, YearShift(-1), now, alnum);
    }
    if text in {"this year", "dieses jahr"} {
      RangeOfCue(text, YearShift(0), now, alnum);
    }
    if text in {"next year", "n\U{00E4}chstes jahr", "naechstes jahr"} {
      RangeOfCue(text, YearShift(1), now, alnum);
    }
  }
}
