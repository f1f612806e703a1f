/** Counted units, quarters and month names: the words of a query that carry a number. */
module QueryNames {
  import opened Prelude
  import opened Text
  import opened Calendar
  import opened Timestamps
  import opened DateRanges
  import opened TemporalQuery
  import opened QueryPhrases
  import opened QueryRanges

  /** Letters count as alphanumeric. */
  ghost predicate KnowsLetters(alnum: char -> bool) {
    forall c: char :: 'a' <= c <= 'z' ==> alnum(c)
  }

  // ---------- Words ----------

  lemma TwoWords(a: string, b: string)
    requires IsWord(a) && IsWord(b)
    ensures SplitWhitespace(a + " " + b) == [a, b]
  {
    hide SplitWhitespace, IsWord;
    FirstWord(a, ' ', b);
    FirstWord(b, ' ', []);
  }

  lemma ThreeWords(a: string, b: string, c: string)
    requires IsWord(a) && IsWord(b) && IsWord(c)
    ensures SplitWhitespace(a + " " + (b + " " + c)) == [a, b, c]
  {
    hide SplitWhitespace, IsWord;
    FirstWord(a, ' ', b + " " + c);
    TwoWords(b, c);
  }

  /** Nothing to trim at either end. */
  lemma TrimKeeps(s: string, drop: char -> bool)
    requires s != [] && !drop(s[0]) && !drop(s[|s| - 1])
    ensures TrimMatches(s, drop) == s
  {
  }

  ghost predicate AllDropped(s: string, drop: char -> bool) {
    forall i :: 0 <= i < |s| ==> drop(s[i])
  }

  /** What is to be dropped goes at both ends, and nothing else. */
  lemma {:induction false} TrimEnds(left: string, s: string, right: string, drop: char -> bool)
    requires AllDropped(left, drop) && AllDropped(right, drop) && s != [] && !drop(s[0]) && !drop(s[|s| - 1])
    ensures TrimMatches(left + s + right, drop) == s
    decreases |left|, |right|
  {
    var all := left + s + right;
    if left != [] {
      assert all[0] == left[0] && all[1..] == left[1..] + s + right;
      TrimEnds(left[1..], s, right, drop);
    } else if right != [] {
      assert left + s + right[..|right| - 1] == all[..|all| - 1];
      assert all[|all| - 1] == right[|right| - 1];
      TrimEnds(left, s, right[..|right| - 1], drop);
    } else {
      assert all == s;
    }
  }

  lemma CleanLetters(w: string, alnum: char -> bool)
    requires KnowsLetters(alnum) && w != [] && 'a' <= w[0] <= 'z' && 'a' <= w[|w| - 1] <= 'z'
    ensures CleanWord(w, alnum) == w
  {
    TrimKeeps(w, c => !alnum(c));
  }

  /** A number as the query writes it. */
  ghost predicate IsNumber(num: string, n: nat) {
    num != [] && AllDigits(num) && ParseSigned(num) == Some(n)
  }

  lemma NumberWord(num: string, n: nat)
    requires IsNumber(num, n)
    ensures IsWord(num) && TrimMatches(num, NotDigit) == num && NoDateMarks(num)
    ensures n <= I64_MAX ==> ParseI64(num) == Some(n)
  {
    TrimKeeps(num, NotDigit);
  }

  // ---------- Counted units ----------

  /** The words for a unit of so many days. */
  function UnitWords(days: nat): set<string> {
    if days == 1 then {"day", "days", "tag", "tage", "tagen"}
    else if days == 7 then {"week", "weeks", "woche", "wochen"}
    else if days == 30 then {"month", "months", "monat", "monate", "monaten"}
    else if days == 365 then {"year", "years", "jahr", "jahre", "jahren"}
    else {}
  }

  ghost predicate AsciiWord(w: string) {
    w != [] && forall i :: 0 <= i < |w| ==> 'a' <= w[i] <= 'z'
  }

  /** Letters that no unit word has together, so that a counted unit is no other phrase. */
  ghost predicate UnitShape(w: string) {
    && AsciiWord(w) && Avoids(w, 'u') && Avoids(w, 'z')
    && (Avoids(w, 'y') || Avoids(w, 't')) && (Avoids(w, 'w') || Avoids(w, 't'))
    && (Avoids(w, 'e') || Avoids(w, 't') || Avoids(w, 's'))
    && (Avoids(w, 'm') || Avoids(w, 'e') || (Avoids(w, 'g') && Avoids(w, 'r')))
    && (Avoids(w, 's') || Avoids(w, 'e') || Avoids(w, 'd'))
    && (Avoids(w, 'c') || Avoids(w, 's'))
  }

  /** The word is spelled with these letters. */
  ghost predicate SpelledWith(w: string, letters: set<char>) {
    w != [] && forall i :: 0 <= i < |w| ==> w[i] in letters
  }

  lemma MissingLetter(w: string, letters: set<char>, c: char)
    requires SpelledWith(w, letters) && c !in letters
    ensures Avoids(w, c)
  {
  }

  /** The shape of a unit word, told by its letters. */
  ghost predicate UnitLetters(letters: set<char>) {
    && (forall c :: c in letters ==> 'a' <= c <= 'z') && 'u' !in letters && 'z' !in letters
    && ('y' !in letters || 't' !in letters) && ('w' !in letters || 't' !in letters)
    && ('e' !in letters || 't' !in letters || 's' !in letters)
    && ('m' !in letters || 'e' !in letters || ('g' !in letters && 'r' !in letters))
    && ('s' !in letters || 'e' !in letters || 'd' !in letters)
    && ('c' !in letters || 's' !in letters)
  }

  lemma ShapeOfUnit(w: string, letters: set<char>)
    requires SpelledWith(w, letters) && UnitLetters(letters)
    ensures UnitShape(w)
  {
    assert AsciiWord(w);
    hide Avoids, SpelledWith, AsciiWord;
    forall c | c !in letters
      ensures Avoids(w, c)
    {
      MissingLetter(w, letters, c);
    }
  }

  lemma EnglishDayWords(w: string)
    requires w in {"day", "days", "week", "weeks"}
    ensures SpelledWith(w, {'a', 'd', 's', 'y'}) || SpelledWith(w, {'e', 'k', 's', 'w'})
  {
  }

  lemma EnglishMonthWords(w: string)
    requires w in {"month", "months", "year", "years"}
    ensures SpelledWith(w, {'h', 'm', 'n', 'o', 's', 't'}) || SpelledWith(w, {'a', 'e', 'r', 's', 'y'})
  {
  }

  lemma GermanDayWords(w: string)
    requires w in {"tag", "tage", "tagen", "woche", "wochen"}
    ensures SpelledWith(w, {'a', 'e', 'g', 'n', 't'}) || SpelledWith(w, {'c', 'e', 'h', 'n', 'o', 'w'})
  {
  }

  lemma GermanMonthWords(w: string)
    requires w in {"monat", "monate", "monaten", "jahr", "jahre", "jahren"}
    ensures SpelledWith(w, {'a', 'e', 'm', 'n', 'o', 't'}) || SpelledWith(w, {'a', 'e', 'h', 'j', 'n', 'r'})
  {
  }

  lemma UnitWord(w: string, days: nat)
    requires w in UnitWords(days)
    ensures UnitDays(w) == Some(days) && UnitShape(w) && 1 <= days <= 365
  {
    UnitDaysOf(w, days);
    UnitIsShaped(w, days);
  }

  lemma UnitDaysOf(w: string, days: nat)
    requires w in UnitWords(days)
    ensures UnitDays(w) == Some(days) && 1 <= days <= 365
  {
  }

  lemma EnglishDayShapes(w: string)
    requires w in {"day", "days", "week", "weeks"}
    ensures UnitShape(w)
  {
    hide SpelledWith, UnitShape;
    EnglishDayWords(w);
    ShapeOfEither(w, {'a', 'd', 's', 'y'}, {'e', 'k', 's', 'w'});
  }

  lemma EnglishMonthShapes(w: string)
    requires w in {"month", "months", "year", "years"}
    ensures UnitShape(w)
  {
    hide SpelledWith, UnitShape;
    EnglishMonthWords(w);
    ShapeOfEither(w, {'h', 'm', 'n', 'o', 's', 't'}, {'a', 'e', 'r', 's', 'y'});
  }

  lemma GermanDayShapes(w: string)
    requires w in {"tag", "tage", "tagen", "woche", "wochen"}
    ensures UnitShape(w)
  {
    hide SpelledWith, UnitShape;
    GermanDayWords(w);
    ShapeOfEither(w, {'a', 'e', 'g', 'n', 't'}, {'c', 'e', 'h', 'n', 'o', 'w'});
  }

  lemma GermanMonthShapes(w: string)
    requires w in {"monat", "monate", "monaten", "jahr", "jahre", "jahren"}
    ensures UnitShape(w)
  {
    hide SpelledWith, UnitShape;
    GermanMonthWords(w);
    ShapeOfEither(w, {'a', 'e', 'm', 'n', 'o', 't'}, {'a', 'e', 'h', 'j', 'n', 'r'});
  }

  lemma UnitIsShaped(w: string, days: nat)
    requires w in UnitWords(days)
    ensures UnitShape(w)
  {
    hide UnitShape;
    if w in {"day", "days", "week", "weeks"} {
      EnglishDayShapes(w);
    } else if w in {"month", "months", "year", "years"} {
      EnglishMonthShapes(w);
    } else if w in {"tag", "tage", "tagen", "woche", "wochen"} {
      GermanDayShapes(w);
    } else {
      GermanMonthShapes(w);
    }
  }

  lemma ShapeOfEither(w: string, first: set<char>, second: set<char>)
    requires SpelledWith(w, first) || SpelledWith(w, second)
    requires UnitLetters(first) && UnitLetters(second)
    ensures UnitShape(w)
  {
    hide SpelledWith, UnitLetters, UnitShape;
    if SpelledWith(w, first) {
      ShapeOfUnit(w, first);
    } else {
      ShapeOfUnit(w, second);
    }
  }

  // ---------- Three words ----------

  ghost predicate PlainQuery(query: string) {
    Normalized(query) == query && NoDateMarks(query) && NoDayWord(query)
  }

  lemma NoLetter(a: string, b: string, c: string, x: char)
    requires Avoids(a, x) && Avoids(b, x) && Avoids(c, x) && x != ' '
    ensures Avoids(a + " " + (b + " " + c), x)
  {
  }

  lemma NumberAvoids(num: string, c: char)
    requires AllDigits(num) && 'a' <= c <= 'z'
    ensures Avoids(num, c)
  {
  }

  /** A letter that none of three words has. */
  lemma NoneHas(a: string, b: string, c: string, word: string, x: char)
    requires Avoids(a, x) && Avoids(b, x) && Avoids(c, x) && x != ' ' && x in word
    ensures LacksOne(a + " " + (b + " " + c), word)
  {
    NoLetter(a, b, c, x);
    Lacking(a + " " + (b + " " + c), word, x);
  }

  /** The word beside a counted unit. */
  ghost predicate FrameWord(f: string) {
    f == "ago" || f == "in" || f == "vor"
  }

  lemma FrameLetters(f: string)
    requires FrameWord(f)
    ensures AsciiWord(f) && Avoids(f, 'e') && Avoids(f, 't') && Avoids(f, 's') && Avoids(f, 'u') && Avoids(f, 'z')
    ensures Avoids(f, 'd') && Avoids(f, 'c') && Avoids(f, 'm') && Avoids(f, 'y') && Avoids(f, 'w')
    ensures Avoids(f, 'r') || Avoids(f, 'g')
  {
  }

  /** The three words in either order. */
  ghost predicate Arranged(a: string, b: string, c: string, num: string, w: string, f: string) {
    (a == num && b == w && c == f) || (a == f && b == num && c == w)
  }

  lemma CountLacks(a: string, b: string, c: string, num: string, w: string, f: string, word: string, x: char)
    requires Arranged(a, b, c, num, w, f) && AllDigits(num) && 'a' <= x <= 'z' && x in word
    requires Avoids(w, x) && Avoids(f, x)
    ensures LacksOne(a + " " + (b + " " + c), word)
  {
    hide Avoids;
    NumberAvoids(num, x);
    NoneHas(a, b, c, word, x);
  }

  lemma CountIsFree(a: string, b: string, c: string, num: string, w: string, f: string)
    requires Arranged(a, b, c, num, w, f) && AllDigits(num) && UnitShape(w) && FrameWord(f)
    ensures KeyFree(a + " " + (b + " " + c))
  {
    FrameLetters(f);
    hide Avoids, FrameWord, LacksOne, Arranged;
    CountLacks(a, b, c, num, w, f, "gestern", if Avoids(w, 'e') then 'e' else if Avoids(w, 't') then 't' else 's');
    CountLacks(a, b, c, num, w, f, "heute", 'u');
    CountLacks(a, b, c, num, w, f, "morgen",
      if Avoids(w, 'm') then 'm' else if Avoids(w, 'e') then 'e' else if Avoids(f, 'r') then 'r' else 'g');
    CountLacks(a, b, c, num, w, f, "letz", 'z');
    CountLacks(a, b, c, num, w, f, "dies", if Avoids(w, 's') then 's' else if Avoids(w, 'e') then 'e' else 'd');
    CountLacks(a, b, c, num, w, f, "chst", if Avoids(w, 'c') then 'c' else 's');
  }

  lemma CountIsNoDay(a: string, b: string, c: string, num: string, w: string, f: string)
    requires Arranged(a, b, c, num, w, f) && AllDigits(num) && UnitShape(w) && FrameWord(f)
    ensures NoDayWord(a + " " + (b + " " + c))
  {
    FrameLetters(f);
    hide Avoids, FrameWord, LacksOne, Arranged, Contains;
    var query := a + " " + (b + " " + c);
    CountLacks(a, b, c, num, w, f, "yesterday", if Avoids(w, 'y') then 'y' else 't');
    CountLacks(a, b, c, num, w, f, "today", if Avoids(w, 'y') then 'y' else 't');
    CountLacks(a, b, c, num, w, f, "tomorrow", if Avoids(w, 'w') then 'w' else 't');
    NotContained(query, "yesterday");
    NotContained(query, "today");
    NotContained(query, "tomorrow");
  }

  lemma CountIsPlain(a: string, b: string, c: string, num: string, w: string, f: string)
    requires Arranged(a, b, c, num, w, f) && AllDigits(num) && UnitShape(w) && FrameWord(f)
    ensures PlainQuery(a + " " + (b + " " + c))
  {
    CountIsFree(a, b, c, num, w, f);
    CountIsNoDay(a, b, c, num, w, f);
    CountHasNoMarks(a, b, c, num, w, f);
    hide KeyFree, NoDayWord, NoDateMarks, Normalized, UnitShape;
    KeyFreeUnchanged(a + " " + (b + " " + c));
  }

  lemma CountHasNoMarks(a: string, b: string, c: string, num: string, w: string, f: string)
    requires Arranged(a, b, c, num, w, f) && AllDigits(num) && AsciiWord(w) && FrameWord(f)
    ensures NoDateMarks(a + " " + (b + " " + c))
  {
    FrameLetters(f);
    hide FrameWord, Avoids;
  }

  // ---------- What a counted unit means ----------

  /** The number and the unit are so many days together. */
  ghost predicate Counted(num: string, n: nat, w: string, days: nat, total: I64) {
    IsNumber(num, n) && w in UnitWords(days) && n * days == total
  }

  function Three(a: string, b: string, c: string): string {
    a + " " + (b + " " + c)
  }

  lemma CountFits(n: nat, days: nat, total: I64)
    requires days >= 1 && n * days == total
    ensures 0 <= total && n <= I64_MAX
    ensures Wrap(0 - n as int) == 0 - n as int && Wrap(n * days) == total && Wrap((0 - n as int) * days) == -total
  {
    hide Wrap;
    AtLeastOnce(n, days);
    Negated(n, days);
    WrapKeeps(0 - n as int);
    WrapKeeps(total);
    WrapKeeps(-total);
  }

  lemma AtLeastOnce(n: nat, days: nat)
    requires days >= 1
    ensures n * days >= n >= 0
  {
  }

  lemma Negated(n: nat, days: nat)
    ensures (0 - n as int) * days == 0 - n * days
  {
  }

  lemma WrapKeeps(x: int)
    requires I64_MIN <= x <= I64_MAX
    ensures Wrap(x) == x
  {
  }

  lemma CountParts(num: string, n: nat, w: string, days: nat, total: I64, alnum: char -> bool)
    requires 0 <= total && Counted(num, n, w, days, total) && KnowsLetters(alnum)
    ensures TrimMatches(num, NotDigit) == num && ParseI64(num) == Some(n)
    ensures CleanWord(w, alnum) == w && UnitDays(w) == Some(days)
    ensures Wrap(0 - n as int) == 0 - n as int && Wrap(n * days) == total && Wrap((0 - n as int) * days) == -total
  {
    hide UnitDays, CleanWord, TrimMatches, ParseI64, Wrap, UnitWords;
    UnitWord(w, days);
    assert days >= 1;
    CountFits(n, days, total);
    NumberWord(num, n);
    assert AsciiWord(w);
    CleanLetters(w, alnum);
  }

  lemma CountWords(num: string, n: nat, w: string, days: nat, total: I64)
    requires Counted(num, n, w, days, total)
    ensures AllDigits(num) && IsWord(num) && UnitShape(w) && 0 <= total
  {
    hide UnitWords, UnitShape, UnitDays;
    UnitWord(w, days);
    NumberWord(num, n);
    assert n * days >= 0;
  }

  lemma AgoIsClean(f: string, alnum: char -> bool)
    requires f == "ago" && KnowsLetters(alnum)
    ensures CleanWord(f, alnum) == f
  {
    CleanLetters(f, alnum);
  }

  /** "n units ago". */
  lemma CountAgo(words: seq<string>, num: string, n: nat, w: string, days: nat, total: I64, f: string,
                 alnum: char -> bool)
    requires 0 <= total && Counted(num, n, w, days, total) && KnowsLetters(alnum) && f == "ago"
    requires |words| == 3 && words[0] == num && words[1] == w && words[2] == f
    ensures RelativeCue(words, 0, alnum) == Some(DayShift(-total))
  {
    hide CleanWord, UnitDays, UnitShape, TrimMatches, ParseI64, Wrap, Counted, KnowsLetters, UnitWords;
    AgoIsClean(f, alnum);
    CountParts(num, n, w, days, total, alnum);
  }

  /** "in n units" and "vor n units". */
  lemma CountAfter(words: seq<string>, f: string, num: string, n: nat, w: string, days: nat, total: I64,
                   alnum: char -> bool)
    requires 0 <= total && Counted(num, n, w, days, total) && KnowsLetters(alnum)
    requires (f == "in" || f == "vor") && |words| == 3 && words[0] == f && words[1] == num && words[2] == w
    ensures RelativeCue(words, 0, alnum).None?
    ensures RelativeCue(words, 1, alnum) == Some(DayShift(if f == "in" then total else -total))
  {
    TrimEverything(f);
    hide CleanWord, UnitDays, UnitShape, TrimMatches, ParseI64, Wrap, Counted, KnowsLetters;
    CountParts(num, n, w, days, total, alnum);
    EmptyIsNoNumber();
  }

  lemma EmptyIsNoNumber()
    ensures ParseI64([]).None?
  {
  }

  lemma HitIsCue(query: string, words: seq<string>, i: nat, cue: Cue, alnum: char -> bool)
    requires PlainQuery(query) && SplitWhitespace(query) == words && i < |words|
    requires RelativeCue(words, i, alnum) == Some(cue)
    requires forall k: nat :: k < i ==> RelativeCue(words, k, alnum).None?
    ensures CueIn(query, alnum) == Some(cue)
  {
    hide RelativeCue, SplitWhitespace, NoDayWord, NoDateMarks, Normalized, CueIn, FirstSome;
    FirstSomeAt(RelativeAt(words, alnum), 0, |words|, i);
    CountedUnit(query, alnum);
  }

  lemma PlainRange(query: string, days: I64, now: I64, alnum: char -> bool)
    requires InCalendar(now) && PlainQuery(query) && CueIn(query, alnum) == Some(DayShift(days))
    ensures IsDayOf(TemporalRange(query, now, alnum), now + days * DAY)
  {
    hide Resolve, Normalized, TemporalRange, IsDayOf, Today, InCalendar, NoDayWord, NoDateMarks, CueIn;
    RangeByCue(query, now, alnum);
    ShiftIsDay(now, days);
  }

  lemma ThreeParts(a: string, b: string, c: string, num: string, w: string, f: string)
    requires Arranged(a, b, c, num, w, f) && AllDigits(num) && IsWord(num) && UnitShape(w) && FrameWord(f)
    ensures PlainQuery(Three(a, b, c)) && SplitWhitespace(Three(a, b, c)) == [a, b, c]
  {
    hide PlainQuery, SplitWhitespace, FrameWord;
    CountIsPlain(a, b, c, num, w, f);
    FrameLetters(f);
    WordsAreOne(w);
    WordsAreOne(f);
    ThreeWords(a, b, c);
  }

  lemma WordsAreOne(w: string)
    requires AsciiWord(w)
    ensures IsWord(w)
  {
  }

  lemma AgoCue(num: string, n: nat, w: string, days: nat, total: I64, f: string, alnum: char -> bool)
    requires 0 <= total && Counted(num, n, w, days, total) && KnowsLetters(alnum) && f == "ago"
    ensures PlainQuery(Three(num, w, f)) && CueIn(Three(num, w, f), alnum) == Some(DayShift(-total))
  {
    hide PlainQuery, RelativeCue, Counted, UnitShape, SplitWhitespace, KnowsLetters, Three, CueIn, AllDigits, IsWord;
    CountWords(num, n, w, days, total);
    ThreeParts(num, w, f, num, w, f);
    var words := [num, w, f];
    CountAgo(words, num, n, w, days, total, f, alnum);
    HitIsCue(Three(num, w, f), words, 0, DayShift(-total), alnum);
  }

  /** "n units ago", for any number and every word for a unit, is the day that long before the present. */
  lemma UnitsAgo(num: string, n: nat, w: string, days: nat, total: I64, now: I64, alnum: char -> bool)
    requires 0 <= total && Counted(num, n, w, days, total) && KnowsLetters(alnum) && InCalendar(now)
    ensures IsDayOf(TemporalRange(Three(num, w, "ago"), now, alnum), now - total * DAY)
  {
    hide PlainQuery, TemporalRange, IsDayOf, Counted, KnowsLetters, InCalendar, CueIn, Three;
    var f := "ago";
    AgoCue(num, n, w, days, total, f, alnum);
    PlainRange(Three(num, w, f), -total, now, alnum);
  }

  lemma AfterCue(f: string, num: string, n: nat, w: string, days: nat, total: I64, shift: I64, alnum: char -> bool)
    requires 0 <= total && ((f == "in" && shift == total) || (f == "vor" && shift == -total))
    requires Counted(num, n, w, days, total) && KnowsLetters(alnum)
    ensures PlainQuery(Three(f, num, w)) && CueIn(Three(f, num, w), alnum) == Some(DayShift(shift))
  {
    hide PlainQuery, RelativeCue, Counted, UnitShape, SplitWhitespace, KnowsLetters, Three, CueIn, AllDigits, IsWord;
    CountWords(num, n, w, days, total);
    ThreeParts(f, num, w, num, w, f);
    var words := [f, num, w];
    CountAfter(words, f, num, n, w, days, total, alnum);
    HitIsCue(Three(f, num, w), words, 1, DayShift(shift), alnum);
  }

  /** "in n units" is the day that long after the present, "vor n units" the day that long before it. */
  lemma UnitsAfter(num: string, n: nat, w: string, days: nat, total: I64, now: I64, alnum: char -> bool)
    requires 0 <= total && Counted(num, n, w, days, total) && KnowsLetters(alnum) && InCalendar(now)
    ensures IsDayOf(TemporalRange(Three("in", num, w), now, alnum), now + total * DAY)
    ensures IsDayOf(TemporalRange(Three("vor", num, w), now, alnum), now - total * DAY)
  {
    hide PlainQuery, TemporalRange, IsDayOf, Counted, KnowsLetters, InCalendar, CueIn, Three;
    var f, g := "in", "vor";
    AfterCue(f, num, n, w, days, total, total, alnum);
    PlainRange(Three(f, num, w), total, now, alnum);
    assert g != f;
    AfterCue(g, num, n, w, days, total, -total, alnum);
    PlainRange(Three(g, num, w), -total, now, alnum);
  }

  // ---------- Quarters and months ----------

  /** A name, alone or with a year of four digits after it. */
  function NamedText(name: string, year: Option<nat>): string
    requires year.Some? ==> year.value < 10_000
  {
    if year.None? then name else name + " " + Pad4(year.value)
  }

  /** The year that counts: one of 1900 to 2099, else today's. */
  function YearOr(year: Option<nat>, today: CivilDate): int {
    if year.Some? && 1900 <= year.value < 2100 then year.value else today.year
  }

  function NamedYear(year: Option<nat>): Option<int> {
    if year.Some? && 1900 <= year.value < 2100 then Some(year.value) else None
  }

  /** Letters that a name must lack to be no other phrase. */
  ghost predicate NameShape(w: string) {
    && IsWord(w) && NoDateMarks(w) && 'a' <= w[0] <= 'z'
    && (Avoids(w, 'g') || Avoids(w, 'e')) && (Avoids(w, 'h') || Avoids(w, 'e')) && (Avoids(w, 'l') || Avoids(w, 'z'))
    && (Avoids(w, 'i') || Avoids(w, 'd')) && (Avoids(w, 'c') || Avoids(w, 's'))
    && (Avoids(w, 't') || Avoids(w, 'd')) && (Avoids(w, 't') || Avoids(w, 'y'))
    && (Avoids(w, 'h') || Avoids(w, 'o')) && Avoids(w, 'w')
  }

  lemma YearDigits(year: nat)
    requires year < 10_000
    ensures |Pad4(year)| == 4 && AllDigits(Pad4(year)) && IsNumber(Pad4(year), year)
  {
    ParsePad4(year);
    YearIsDigits(year);
  }

  lemma YearIsDigits(year: nat)
    requires year < 10_000
    ensures |Pad4(year)| == 4 && AllDigits(Pad4(year))
  {
    DigitIsDigit(year / 100 / 10);
    DigitIsDigit(year / 100 % 10);
    DigitIsDigit(year % 100 / 10);
    DigitIsDigit(year % 100 % 10);
  }

  lemma TextAvoids(name: string, year: Option<nat>, c: char)
    requires (year.Some? ==> year.value < 10_000) && 'a' <= c <= 'z' && Avoids(name, c)
    ensures Avoids(NamedText(name, year), c)
  {
    if year.Some? {
      YearIsDigits(year.value);
    }
  }

  lemma TextLacks(name: string, year: Option<nat>, word: string, c: char)
    requires (year.Some? ==> year.value < 10_000) && 'a' <= c <= 'z' && Avoids(name, c) && c in word
    ensures LacksOne(NamedText(name, year), word)
  {
    hide Avoids, NamedText;
    TextAvoids(name, year, c);
    Lacking(NamedText(name, year), word, c);
  }

  lemma NameIsFree(name: string, year: Option<nat>)
    requires (year.Some? ==> year.value < 10_000) && NameShape(name)
    ensures KeyFree(NamedText(name, year))
  {
    hide Avoids, NamedText, LacksOne, NoDateMarks, IsWord;
    TextLacks(name, year, "gestern", if Avoids(name, 'g') then 'g' else 'e');
    TextLacks(name, year, "heute", if Avoids(name, 'h') then 'h' else 'e');
    TextLacks(name, year, "morgen", if Avoids(name, 'g') then 'g' else 'e');
    TextLacks(name, year, "letz", if Avoids(name, 'l') then 'l' else 'z');
    TextLacks(name, year, "dies", if Avoids(name, 'i') then 'i' else 'd');
    TextLacks(name, year, "chst", if Avoids(name, 'c') then 'c' else 's');
  }

  lemma NameLacks(name: string, year: Option<nat>, word: string, c: char)
    requires (year.Some? ==> year.value < 10_000) && 'a' <= c <= 'z' && Avoids(name, c) && c in word
    ensures !Contains(NamedText(name, year), word)
  {
    hide Avoids, NamedText, LacksOne, Contains;
    TextLacks(name, year, word, c);
    NotContained(NamedText(name, year), word);
  }

  lemma NameIsNoPhrase(name: string, year: Option<nat>)
    requires (year.Some? ==> year.value < 10_000) && NameShape(name)
    ensures NoDayWord(NamedText(name, year)) && NoPeriod(NamedText(name, year)) && NoYearWord(NamedText(name, year))
  {
    hide Avoids, NamedText, LacksOne, NoDateMarks, IsWord, Contains;
    var td := if Avoids(name, 't') then 't' else 'd';
    var ty := if Avoids(name, 't') then 't' else 'y';
    var ho := if Avoids(name, 'h') then 'h' else 'o';
    NameLacks(name, year, "yesterday", td);
    NameLacks(name, year, "today", td);
    NameLacks(name, year, "tomorrow", 'w');
    NameLacks(name, year, "last week", 'w');
    NameLacks(name, year, "this week", 'w');
    NameLacks(name, year, "next week", 'w');
    NameLacks(name, year, "last month", ho);
    NameLacks(name, year, "this month", ho);
    NameLacks(name, year, "next month", ho);
    NameLacks(name, year, "last year", ty);
    NameLacks(name, year, "this year", ty);
    NameLacks(name, year, "next year", ty);
  }

  ghost predicate YearFits(year: Option<nat>) {
    year.Some? ==> year.value < 10_000
  }

  ghost predicate PlainName(query: string) {
    && Normalized(query) == query && NoDateMarks(query)
    && NoDayWord(query) && NoPeriod(query) && NoYearWord(query)
  }

  lemma NameIsPlain(name: string, year: Option<nat>)
    requires YearFits(year) && NameShape(name)
    ensures PlainName(NamedText(name, year))
  {
    hide NoDayWord, NoPeriod, NoYearWord, Normalized, KeyFree, Avoids;
    NameIsFree(name, year);
    KeyFreeUnchanged(NamedText(name, year));
    NameIsNoPhrase(name, year);
    if year.Some? {
      YearIsDigits(year.value);
    }
  }

  function NamedWords(name: string, year: Option<nat>): (r: seq<string>)
    requires year.Some? ==> year.value < 10_000
    ensures |r| > 0 && r[0] == name
  {
    [name] + if year.None? then [] else [Pad4(year.value)]
  }

  lemma WordsOfName(name: string, year: Option<nat>)
    requires YearFits(year) && IsWord(name)
    ensures SplitWhitespace(NamedText(name, year)) == NamedWords(name, year)
  {
    hide SplitWhitespace, Pad4;
    FirstWord(name, ' ', []);
    if year.Some? {
      YearIsDigits(year.value);
      TwoWords(name, Pad4(year.value));
    }
  }

  /** Two words count no unit. */
  lemma TwoWordsCountNothing(query: string, alnum: char -> bool)
    requires |SplitWhitespace(query)| <= 2
    ensures NoCount(query, alnum)
  {
    hide SplitWhitespace, FirstSome, CleanWord, UnitDays, ParseI64, TrimMatches;
  }

  lemma YearAfterName(name: string, year: Option<nat>)
    requires YearFits(year)
    ensures YearAfter(NamedWords(name, year), 0) == NamedYear(year)
  {
    hide Pad4, TrimMatches, ParseSigned;
    if year.Some? {
      YearDigits(year.value);
      NumberWord(Pad4(year.value), year.value);
    }
  }

  /** Without another phrase the words are searched for a quarter, then for a month. */
  lemma NameDecides(name: string, year: Option<nat>, alnum: char -> bool)
    requires YearFits(year) && NameShape(name)
    ensures var words := NamedWords(name, year);
      CueIn(NamedText(name, year), alnum) ==
        OrElse(FirstSome(QuarterAt(words), 0, |words|), FirstSome(MonthAt(words, alnum), 0, |words|))
  {
    hide QuarterAt, MonthAt, SplitWhitespace, NamedText, NoPeriod, NoYearWord, NoDayWord, NoDateMarks, NoCount;
    hide Avoids, FirstSome, CueIn, Normalized, IsWord, OrElse;
    NameIsPlain(name, year);
    WordsOfName(name, year);
    TwoWordsCountNothing(NamedText(name, year), alnum);
    QuarterOrMonth(NamedText(name, year), alnum);
  }

  lemma QuarterDecides(name: string, year: Option<nat>, cue: Cue, alnum: char -> bool)
    requires YearFits(year) && NameShape(name) && QuarterCue(NamedWords(name, year), 0) == Some(cue)
    ensures CueIn(NamedText(name, year), alnum) == Some(cue)
  {
    var words := NamedWords(name, year);
    hide QuarterCue, MonthCue, FirstSome, CueIn, NameShape, NamedWords, NamedText;
    NameDecides(name, year, alnum);
    FirstSomeAt(QuarterAt(words), 0, |words|, 0);
  }

  lemma MonthDecides(name: string, year: Option<nat>, cue: Cue, alnum: char -> bool)
    requires YearFits(year) && NameShape(name)
    requires var words := NamedWords(name, year);
      (forall i :: 0 <= i < |words| ==> QuarterCue(words, i).None?) && MonthCue(words, 0, alnum) == Some(cue)
    ensures CueIn(NamedText(name, year), alnum) == Some(cue)
  {
    var words := NamedWords(name, year);
    hide QuarterCue, MonthCue, FirstSome, CueIn, NameShape, NamedWords, NamedText;
    NameDecides(name, year, alnum);
    FirstSomeAt(MonthAt(words, alnum), 0, |words|, 0);
  }

  lemma NamedRange(name: string, year: Option<nat>, cue: Cue, now: I64, alnum: char -> bool)
    requires YearFits(year) && NameShape(name) && InCalendar(now)
    requires CueIn(NamedText(name, year), alnum) == Some(cue)
    ensures TemporalRange(NamedText(name, year), now, alnum) == Resolve(cue, Today(now))
  {
    hide NamedText, NoPeriod, NoYearWord, NoDayWord, NoDateMarks, Normalized, Resolve, CueIn, Today, InCalendar;
    NameIsPlain(name, year);
    RangeByCue(NamedText(name, year), now, alnum);
  }

  // ---------- Quarters ----------

  function QuarterName(q: nat): string
    requires 1 <= q <= 4
  {
    ['q', '0' + q as char]
  }

  lemma QuarterShape(q: nat)
    requires 1 <= q <= 4
    ensures NameShape(QuarterName(q))
  {
  }

  lemma QuarterDigit(q: nat)
    requires 1 <= q <= 4
    ensures ParseUnsigned(QuarterName(q)[1..]) == Some(q)
  {
    var s := ['0' + q as char];
    assert QuarterName(q)[1..] == s;
    assert IsDigit(s[0]) && s[0] as int - '0' as int == q && s[1..] == [];
    assert ParseDigits(s[1..], 10 * 0 + (s[0] as int - '0' as int)) == Some(q);
  }

  lemma QuarterWord(q: nat, words: seq<string>)
    requires 1 <= q <= 4 && words != [] && words[0] == QuarterName(q)
    ensures QuarterCue(words, 0) == Some(Quarter(q, YearAfter(words, 0)))
  {
    hide YearAfter, ParseUnsigned, TrimMatches;
    TrimKeeps(words[0], NotAsciiAlphanumeric);
    QuarterDigit(q);
  }

  lemma QuarterNameCue(q: nat, year: Option<nat>, alnum: char -> bool)
    requires 1 <= q <= 4 && YearFits(year)
    ensures CueIn(NamedText(QuarterName(q), year), alnum) == Some(Quarter(q, NamedYear(year)))
  {
    QuarterShape(q);
    hide QuarterName, NameShape, NamedText, CueIn, QuarterCue, YearAfter;
    QuarterWord(q, NamedWords(QuarterName(q), year));
    YearAfterName(QuarterName(q), year);
    QuarterDecides(QuarterName(q), year, Quarter(q, NamedYear(year)), alnum);
  }

  lemma ResolveQuarter(q: nat, year: Option<nat>, today: CivilDate)
    requires 1 <= q <= 4
    ensures Resolve(Quarter(q, NamedYear(year)), today) == QuarterOf(YearOr(year, today), q)
  {
    hide QuarterOf;
  }

  /** "q1" to "q4", alone or with a year, is that quarter of the year named, if it counts, or of this year. */
  lemma QuartersByName(q: nat, year: Option<nat>, now: I64, alnum: char -> bool)
    requires 1 <= q <= 4 && (year.Some? ==> year.value < 10_000) && InCalendar(now)
    ensures TemporalRange(NamedText(QuarterName(q), year), now, alnum) == QuarterOf(YearOr(year, Today(now)), q)
  {
    QuarterShape(q);
    hide QuarterName, NameShape, QuarterOf, TemporalRange, NamedText;
    hide CueIn, InCalendar, Today, Resolve, YearOr, NamedYear;
    QuarterNameCue(q, year, alnum);
    NamedRange(QuarterName(q), year, Quarter(q, NamedYear(year)), now, alnum);
    ResolveQuarter(q, year, Today(now));
  }

  // ---------- Months ----------

  /** The names of a month, in both languages. */
  function MonthForms(m: nat): set<string> {
    if m == 1 then {"january", "jan", "januar"}
    else if m == 2 then {"february", "feb", "februar"}
    else if m == 3 then {"march", "mar", "m\U{00E4}rz", "maerz"}
    else if m == 4 then {"april", "apr"}
    else if m == 5 then {"may", "mai"}
    else if m == 6 then {"june", "jun", "juni"}
    else if m == 7 then {"july", "jul", "juli"}
    else if m == 8 then {"august", "aug"}
    else if m == 9 then {"september", "sep", "sept"}
    else if m == 10 then {"october", "oct", "oktober", "okt"}
    else if m == 11 then {"november", "nov"}
    else if m == 12 then {"december", "dec", "dezember", "dez"}
    else {}
  }

  /** A name that reads as a name only. */
  ghost predicate NameOnly(w: string) {
    NameShape(w) && w[0] != 'q' && 'a' <= w[|w| - 1] <= 'z'
  }

  /** The shape of a name, told by its letters. */
  ghost predicate NameLetters(letters: set<char>) {
    && (forall c :: c in letters ==> 'a' <= c <= 'z' || c == '\U{00E4}') && 'q' !in letters && 'w' !in letters
    && ('g' !in letters || 'e' !in letters) && ('h' !in letters || 'e' !in letters)
    && ('l' !in letters || 'z' !in letters) && ('i' !in letters || 'd' !in letters)
    && ('c' !in letters || 's' !in letters) && ('t' !in letters || 'd' !in letters)
    && ('t' !in letters || 'y' !in letters) && ('h' !in letters || 'o' !in letters)
  }

  ghost predicate PlainEnds(w: string) {
    w != [] && 'a' <= w[0] <= 'z' && 'a' <= w[|w| - 1] <= 'z'
  }

  lemma NameIsWord(w: string, letters: set<char>)
    requires SpelledWith(w, letters) && NameLetters(letters)
    ensures IsWord(w) && NoDateMarks(w) && Avoids(w, 'q')
  {
  }

  lemma ShapeOfName(w: string, letters: set<char>)
    requires SpelledWith(w, letters) && NameLetters(letters) && PlainEnds(w)
    ensures NameOnly(w)
  {
    NameIsWord(w, letters);
    assert w[0] != 'q';
    hide Avoids, SpelledWith, IsWord, NoDateMarks;
    forall c | c !in letters
      ensures Avoids(w, c)
    {
      MissingLetter(w, letters, c);
    }
  }

  lemma JanuaryNames(name: string)
    requires name in {"january", "jan", "januar"}
    ensures SpelledWith(name, {'a', 'j', 'n', 'r', 'u', 'y'}) && PlainEnds(name)
  {
  }

  lemma FebruaryNames(name: string)
    requires name in {"february", "feb", "februar"}
    ensures SpelledWith(name, {'a', 'b', 'e', 'f', 'r', 'u', 'y'}) && PlainEnds(name)
  {
  }

  lemma MarchNames(name: string)
    requires name in {"march", "mar"}
    ensures SpelledWith(name, {'a', 'c', 'h', 'm', 'r'}) && PlainEnds(name)
  {
  }

  lemma MaerzNames(name: string)
    requires name in {"m\U{00E4}rz", "maerz"}
    ensures SpelledWith(name, {'a', 'e', 'm', 'r', 'z', '\U{00E4}'}) && PlainEnds(name)
  {
  }

  lemma AprilNames(name: string)
    requires name in {"april", "apr"}
    ensures SpelledWith(name, {'a', 'i', 'l', 'p', 'r'}) && PlainEnds(name)
  {
  }

  lemma MayNames(name: string)
    requires name in {"may", "mai"}
    ensures SpelledWith(name, {'a', 'i', 'm', 'y'}) && PlainEnds(name)
  {
  }

  lemma JuneNames(name: string)
    requires name in {"june", "jun", "juni"}
    ensures SpelledWith(name, {'e', 'i', 'j', 'n', 'u'}) && PlainEnds(name)
  {
  }

  lemma JulyNames(name: string)
    requires name in {"july", "jul", "juli"}
    ensures SpelledWith(name, {'i', 'j', 'l', 'u', 'y'}) && PlainEnds(name)
  {
  }

  lemma AugustNames(name: string)
    requires name in {"august", "aug"}
    ensures SpelledWith(name, {'a', 'g', 's', 't', 'u'}) && PlainEnds(name)
  {
  }

  lemma SeptemberNames(name: string)
    requires name in {"september", "sep", "sept"}
    ensures SpelledWith(name, {'b', 'e', 'm', 'p', 'r', 's', 't'}) && PlainEnds(name)
  {
  }

  lemma OctoberNames(name: string)
    requires name in {"october", "oct", "oktober", "okt"}
    ensures SpelledWith(name, {'b', 'c', 'e', 'k', 'o', 'r', 't'}) && PlainEnds(name)
  {
  }

  lemma NovemberNames(name: string)
    requires name in {"november", "nov"}
    ensures SpelledWith(name, {'b', 'e', 'm', 'n', 'o', 'r', 'v'}) && PlainEnds(name)
  {
  }

  lemma DecemberNames(name: string)
    requires name in {"december", "dec", "dezember", "dez"}
    ensures SpelledWith(name, {'b', 'c', 'd', 'e', 'm', 'r', 'z'}) && PlainEnds(name)
  {
  }

  lemma MonthNumber(name: string, m: nat)
    requires name in MonthForms(m)
    ensures MonthNum(name) == Some(m)
  {
  }

  lemma JanuaryNameShapes(name: string)
    requires name in MonthForms(1)
    ensures NameOnly(name)
  {
    hide NameOnly, SpelledWith, PlainEnds;
    JanuaryNames(name);
    ShapeOfName(name, {'a', 'j', 'n', 'r', 'u', 'y'});
  }

  lemma FebruaryNameShapes(name: string)
    requires name in MonthForms(2)
    ensures NameOnly(name)
  {
    hide NameOnly, SpelledWith, PlainEnds;
    FebruaryNames(name);
    ShapeOfName(name, {'a', 'b', 'e', 'f', 'r', 'u', 'y'});
  }

  lemma MarchNameShapes(name: string)
    requires name in MonthForms(3)
    ensures NameOnly(name)
  {
    hide NameOnly, SpelledWith, PlainEnds;
    if name in {"march", "mar"} {
      MarchNames(name);
      ShapeOfName(name, {'a', 'c', 'h', 'm', 'r'});
    } else {
      MaerzNames(name);
      ShapeOfName(name, {'a', 'e', 'm', 'r', 'z', '\U{00E4}'});
    }
  }

  lemma AprilNameShapes(name: string)
    requires name in MonthForms(4)
    ensures NameOnly(name)
  {
    hide NameOnly, SpelledWith, PlainEnds;
    AprilNames(name);
    ShapeOfName(name, {'a', 'i', 'l', 'p', 'r'});
  }

  lemma MayNameShapes(name: string)
    requires name in MonthForms(5)
    ensures NameOnly(name)
  {
    hide NameOnly, SpelledWith, PlainEnds;
    MayNames(name);
    ShapeOfName(name, {'a', 'i', 'm', 'y'});
  }

  lemma JuneNameShapes(name: string)
    requires name in MonthForms(6)
    ensures NameOnly(name)
  {
    hide NameOnly, SpelledWith, PlainEnds;
    JuneNames(name);
    ShapeOfName(name, {'e', 'i', 'j', 'n', 'u'});
  }

  lemma JulyNameShapes(name: string)
    requires name in MonthForms(7)
    ensures NameOnly(name)
  {
    hide NameOnly, SpelledWith, PlainEnds;
    JulyNames(name);
    ShapeOfName(name, {'i', 'j', 'l', 'u', 'y'});
  }

  lemma AugustNameShapes(name: string)
    requires name in MonthForms(8)
    ensures NameOnly(name)
  {
    hide NameOnly, SpelledWith, PlainEnds;
    AugustNames(name);
    ShapeOfName(name, {'a', 'g', 's', 't', 'u'});
  }

  lemma SeptemberNameShapes(name: string)
    requires name in MonthForms(9)
    ensures NameOnly(name)
  {
    hide NameOnly, SpelledWith, PlainEnds;
    SeptemberNames(name);
    ShapeOfName(name, {'b', 'e', 'm', 'p', 'r', 's', 't'});
  }

  lemma OctoberNameShapes(name: string)
    requires name in MonthForms(10)
    ensures NameOnly(name)
  {
    hide NameOnly, SpelledWith, PlainEnds;
    OctoberNames(name);
    ShapeOfName(name, {'b', 'c', 'e', 'k', 'o', 'r', 't'});
  }

  lemma NovemberNameShapes(name: string)
    requires name in MonthForms(11)
    ensures NameOnly(name)
  {
    hide NameOnly, SpelledWith, PlainEnds;
    NovemberNames(name);
    ShapeOfName(name, {'b', 'e', 'm', 'n', 'o', 'r', 'v'});
  }

  lemma DecemberNameShapes(name: string)
    requires name in MonthForms(12)
    ensures NameOnly(name)
  {
    hide NameOnly, SpelledWith, PlainEnds;
    DecemberNames(name);
    ShapeOfName(name, {'b', 'c', 'd', 'e', 'm', 'r', 'z'});
  }

  lemma MonthName(name: string, m: nat)
    requires name in MonthForms(m)
    ensures NameOnly(name) && MonthNum(name) == Some(m)
  {
    hide NameOnly, MonthNum, MonthForms;
    MonthRange(name, m);
    MonthNumber(name, m);
    match m
    case 1 => JanuaryNameShapes(name);
    case 2 => FebruaryNameShapes(name);
    case 3 => MarchNameShapes(name);
    case 4 => AprilNameShapes(name);
    case 5 => MayNameShapes(name);
    case 6 => JuneNameShapes(name);
    case 7 => JulyNameShapes(name);
    case 8 => AugustNameShapes(name);
    case 9 => SeptemberNameShapes(name);
    case 10 => OctoberNameShapes(name);
    case 11 => NovemberNameShapes(name);
    case 12 => DecemberNameShapes(name);
  }

  lemma MonthRange(name: string, m: nat)
    requires name in MonthForms(m)
    ensures 1 <= m <= 12
  {
  }

  lemma MonthWord(name: string, m: nat, words: seq<string>, alnum: char -> bool)
    requires NameOnly(name) && MonthNum(name) == Some(m) && words != [] && words[0] == name && KnowsLetters(alnum)
    ensures QuarterCue(words, 0).None? && MonthCue(words, 0, alnum) == Some(NamedMonth(m, YearAfter(words, 0)))
  {
    hide YearAfter, MonthNum, TrimMatches;
    TrimKeeps(name, NotAsciiAlphanumeric);
    CleanLetters(name, alnum);
  }

  lemma YearIsNoQuarter(words: seq<string>, year: nat)
    requires year < 10_000 && |words| == 2 && words[1] == Pad4(year)
    ensures QuarterCue(words, 1).None?
  {
    hide Pad4, TrimMatches;
    YearIsDigits(year);
    TrimKeeps(words[1], NotAsciiAlphanumeric);
  }

  lemma MonthNameCue(name: string, m: nat, year: Option<nat>, alnum: char -> bool)
    requires NameOnly(name) && MonthNum(name) == Some(m) && YearFits(year) && KnowsLetters(alnum)
    ensures CueIn(NamedText(name, year), alnum) == Some(NamedMonth(m, NamedYear(year)))
  {
    hide NameShape, NamedText, CueIn, QuarterCue, MonthCue, YearAfter, KnowsLetters, MonthNum, Pad4;
    var words := NamedWords(name, year);
    MonthWord(name, m, words, alnum);
    YearAfterName(name, year);
    if year.Some? {
      YearIsNoQuarter(words, year.value);
    }
    MonthDecides(name, year, NamedMonth(m, NamedYear(year)), alnum);
  }

  lemma ResolveMonth(m: nat, year: Option<nat>, today: CivilDate)
    ensures Resolve(NamedMonth(m, NamedYear(year)), today) == DateRanges.MonthOf(YearOr(year, today), m)
  {
    hide DateRanges.MonthOf;
  }

  /** A month's name, alone or with a year, is that month of the year named, if it counts, or of this year. */
  lemma MonthsByNumber(name: string, m: nat, year: Option<nat>, now: I64, alnum: char -> bool)
    requires name in MonthForms(m) && (year.Some? ==> year.value < 10_000) && InCalendar(now) && KnowsLetters(alnum)
    ensures TemporalRange(NamedText(name, year), now, alnum) == DateRanges.MonthOf(YearOr(year, Today(now)), m)
  {
    hide MonthForms, NameShape, DateRanges.MonthOf, TemporalRange, NamedText, CueIn, InCalendar, Today, Resolve, YearOr;
    hide NamedYear, KnowsLetters, MonthNum;
    MonthName(name, m);
    MonthNameCue(name, m, year, alnum);
    NamedRange(name, year, NamedMonth(m, NamedYear(year)), now, alnum);
    ResolveMonth(m, year, Today(now));
  }
}
