/**
 What a query's words mean: the phrases, units and names that a query may contain,
 each tied from the text of the query to the range it gets.
 */
module QueryPhrases {
  import opened Prelude
  import opened Text
  import opened Calendar
  import opened Timestamps
  import opened DateRanges
  import opened TemporalQuery

  // ---------- Containment ----------

  ghost predicate LacksOne(s: string, word: string) {
    exists c :: c in word && c !in s
  }

  lemma {:induction false} ContainsAt(s: string, word: string) returns (p: nat)
    requires Contains(s, word)
    ensures p + |word| <= |s| && s[p..p + |word|] == word
  {
    if HasPrefix(s, word) {
      p := 0;
    } else {
      var q := ContainsAt(s[1..], word);
      p := q + 1;
      assert s[1..][q..q + |word|] == s[p..p + |word|];
    }
  }

  lemma ContainedLetters(s: string, word: string)
    requires Contains(s, word)
    ensures forall c :: c in word ==> c in s
  {
    var p := ContainsAt(s, word);
    forall c | c in word
      ensures c in s
    {
      var i :| 0 <= i < |word| && word[i] == c;
      assert s[p..p + |word|][i] == s[p + i];
    }
  }

  lemma ContainedPair(s: string, word: string, k: nat) returns (i: nat)
    requires Contains(s, word) && k + 1 < |word|
    ensures i + 1 < |s| && s[i] == word[k] && s[i + 1] == word[k + 1]
  {
    var p := ContainsAt(s, word);
    i := p + k;
    assert s[p + k] == s[p..p + |word|][k] && s[p + k + 1] == s[p..p + |word|][k + 1];
  }

  /** A text without one of the word's letters does not contain the word. */
  lemma NotContained(s: string, word: string)
    requires LacksOne(s, word)
    ensures !Contains(s, word)
  {
    hide Contains;
    if Contains(s, word) {
      ContainedLetters(s, word);
    }
  }

  /** Nor does one without two of its letters in sequence. */
  lemma NoSuchPair(s: string, word: string, k: nat)
    requires k + 1 < |word| && forall i :: 0 <= i && i + 1 < |s| ==> s[i] != word[k] || s[i + 1] != word[k + 1]
    ensures !Contains(s, word)
  {
    hide Contains;
    if Contains(s, word) {
      var i := ContainedPair(s, word, k);
    }
  }

  lemma {:induction false} ReplaceAbsent(s: string, from: string, to: string)
    requires from != [] && !Contains(s, from)
    ensures Replace(s, from, to) == s
  {
    if s != [] {
      ReplaceAbsent(s[1..], from, to);
    }
  }

  lemma ReplaceWhole(s: string, to: string)
    requires s != []
    ensures Replace(s, s, to) == to
  {
    assert s[..|s|] == s && s[|s|..] == [];
    assert to + [] == to;
  }

  /** The first occurrence gives way and the search goes on behind it. */
  lemma {:induction false} ReplaceFirst(before: string, from: string, after: string, to: string)
    requires from != [] && !Contains(before + from[..|from| - 1], from)
    ensures Replace(before + from + after, from, to) == before + to + Replace(after, from, to)
  {
    var s := before + from + after;
    if before == [] {
      assert s == from + after;
      assert s[..|from|] == from && s[|from|..] == after;
      assert before + to + Replace(after, from, to) == to + Replace(after, from, to);
    } else {
      var start := before + from[..|from| - 1];
      assert start[1..] == before[1..] + from[..|from| - 1];
      assert s[..|from|] == start[..|from|];
      assert s[1..] == before[1..] + from + after;
      ReplaceFirst(before[1..], from, after, to);
      assert [before[0]] + (before[1..] + to + Replace(after, from, to)) == before + to + Replace(after, from, to);
    }
  }

  // ---------- Normalization ----------

  function Normalized(s: string): string {
    KeysAreNonEmpty();
    ReplaceEach(s, REPLACEMENTS)
  }

  lemma {:induction false} SkipTo(s: string, pairs: seq<(string, string)>, j: nat)
    requires NonEmptyKeys(pairs) && j <= |pairs| && forall k :: 0 <= k < j ==> !Contains(s, pairs[k].0)
    ensures NonEmptyKeys(pairs[j..]) && ReplaceEach(s, pairs) == ReplaceEach(s, pairs[j..])
    decreases j
  {
    if j == 0 {
      assert pairs[0..] == pairs;
    } else {
      ReplaceAbsent(s, pairs[0].0, pairs[0].1);
      SkipTo(s, pairs[1..], j - 1);
      assert pairs[1..][j - 1..] == pairs[j..];
    }
  }

  /** Letters that a German phrase needs. */
  function Stem(k: nat): string {
    if k == 0 then "gestern" else if k == 1 then "heute" else if k == 2 then "morgen"
    else if k in {3, 4, 9, 10, 15} then "letz"
    else if k in {5, 6, 11, 12, 16} then "dies"
    else "chst"
  }

  lemma HasStem(k: nat, c: char)
    requires k < |REPLACEMENTS| && c in Stem(k)
    ensures c in REPLACEMENTS[k].0
  {
  }

  /** The text lacks a letter of every German phrase. */
  ghost predicate KeyFree(s: string) {
    && LacksOne(s, "gestern") && LacksOne(s, "heute") && LacksOne(s, "morgen")
    && LacksOne(s, "letz") && LacksOne(s, "dies") && LacksOne(s, "chst")
  }

  lemma StemAbsent(s: string, k: nat)
    requires k < |REPLACEMENTS| && LacksOne(s, Stem(k))
    ensures !Contains(s, REPLACEMENTS[k].0)
  {
    hide REPLACEMENTS;
    var c :| c in Stem(k) && c !in s;
    HasStem(k, c);
    NotContained(s, REPLACEMENTS[k].0);
  }

  /** Such a text is already normalized. */
  lemma KeyFreeUnchanged(s: string)
    requires KeyFree(s)
    ensures Normalized(s) == s
  {
    KeysAreNonEmpty();
    hide REPLACEMENTS, LacksOne;
    forall k | 0 <= k < |REPLACEMENTS|
      ensures !Contains(s, REPLACEMENTS[k].0)
    {
      StemAbsent(s, k);
    }
    SkipTo(s, REPLACEMENTS, |REPLACEMENTS|);
  }

  /** One German phrase, alone, becomes its English one. */
  lemma OnePhrase(j: nat)
    requires j < |REPLACEMENTS| && KeyFree(REPLACEMENTS[j].1)
    requires forall k :: 0 <= k < j ==> !Contains(REPLACEMENTS[j].0, REPLACEMENTS[k].0)
    ensures Normalized(REPLACEMENTS[j].0) == REPLACEMENTS[j].1
  {
    KeysAreNonEmpty();
    hide REPLACEMENTS, KeyFree;
    var s, to, rest := REPLACEMENTS[j].0, REPLACEMENTS[j].1, REPLACEMENTS[j..];
    SkipTo(s, REPLACEMENTS, j);
    assert rest[0] == REPLACEMENTS[j] && rest[1..] == REPLACEMENTS[j + 1..];
    ReplaceWhole(s, to);
    forall k | 0 <= k < |REPLACEMENTS|
      ensures !Contains(to, REPLACEMENTS[k].0)
    {
      KeyFreeLacks(to, k);
      StemAbsent(to, k);
    }
    SkipTo(to, rest[1..], |rest| - 1);
  }

  lemma KeyFreeLacks(s: string, k: nat)
    requires KeyFree(s)
    ensures LacksOne(s, Stem(k))
  {
    hide LacksOne;
  }

  /** No character of the text is this one. */
  ghost predicate Avoids(s: string, c: char) {
    forall i :: 0 <= i < |s| ==> s[i] != c
  }

  lemma Lacking(s: string, word: string, c: char)
    requires c in word && Avoids(s, c)
    ensures LacksOne(s, word)
  {
  }

  /** A text without these letters needs no replacement. */
  lemma FreePhrase(s: string, d: char)
    requires Avoids(s, 'g') && Avoids(s, 'u') && Avoids(s, 'z') && Avoids(s, 'c')
    requires d in "dies" && Avoids(s, d)
    ensures KeyFree(s)
  {
    hide Avoids, LacksOne;
    Lacking(s, "gestern", 'g');
    Lacking(s, "heute", 'u');
    Lacking(s, "morgen", 'g');
    Lacking(s, "letz", 'z');
    Lacking(s, "dies", d);
    Lacking(s, "chst", 'c');
  }

  /** The English phrases need none. */
  lemma DayPhrasesFree()
    ensures KeyFree("yesterday") && KeyFree("today") && KeyFree("tomorrow")
  {
    hide KeyFree;
    FreePhrase("yesterday", 'i');
    FreePhrase("today", 'i');
    FreePhrase("tomorrow", 'i');
  }

  lemma WeekPhrasesFree()
    ensures KeyFree("last week") && KeyFree("this week") && KeyFree("next week")
  {
    hide KeyFree;
    FreePhrase("last week", 'd');
    FreePhrase("this week", 'd');
    FreePhrase("next week", 'd');
  }

  lemma MonthPhrasesFree()
    ensures KeyFree("last month") && KeyFree("this month") && KeyFree("next month")
  {
    hide KeyFree;
    FreePhrase("last month", 'd');
    FreePhrase("this month", 'd');
    FreePhrase("next month", 'd');
  }

  lemma YearPhrasesFree()
    ensures KeyFree("last year") && KeyFree("this year") && KeyFree("next year")
  {
    hide KeyFree;
    FreePhrase("last year", 'd');
    FreePhrase("this year", 'd');
    FreePhrase("next year", 'd');
  }

  // ---------- The German phrases ----------

  ghost predicate KeyIs(j: nat, german: string, english: string) {
    j < |REPLACEMENTS| && REPLACEMENTS[j] == (german, english)
  }

  lemma DayKeys()
    ensures KeyIs(0, "gestern", "yesterday") && KeyIs(1, "heute", "today") && KeyIs(2, "morgen", "tomorrow")
  {
  }

  lemma WeekKeys()
    ensures KeyIs(3, "letzte woche", "last week") && KeyIs(4, "letzten woche", "last week")
    ensures KeyIs(5, "diese woche", "this week") && KeyIs(6, "dieser woche", "this week")
    ensures KeyIs(7, "n\U{00E4}chste woche", "next week") && KeyIs(8, "naechste woche", "next week")
  {
  }

  lemma MonthKeys()
    ensures KeyIs(9, "letzten monat", "last month") && KeyIs(10, "letzter monat", "last month")
    ensures KeyIs(11, "diesen monat", "this month") && KeyIs(12, "dieser monat", "this month")
    ensures KeyIs(13, "n\U{00E4}chsten monat", "next month") && KeyIs(14, "naechsten monat", "next month")
  {
  }

  lemma YearKeys()
    ensures KeyIs(15, "letztes jahr", "last year") && KeyIs(16, "dieses jahr", "this year")
    ensures KeyIs(17, "n\U{00E4}chstes jahr", "next year") && KeyIs(18, "naechstes jahr", "next year")
  {
  }

  /** A phrase and what normalization makes of it. */
  ghost predicate Becomes(german: string, english: string) {
    Normalized(german) == english
  }

  /** No earlier key occurs in the j-th. */
  ghost predicate NoneBefore(j: nat, german: string) {
    j <= |REPLACEMENTS| && forall k :: 0 <= k < j ==> !Contains(german, REPLACEMENTS[k].0)
  }

  lemma PhraseBecomes(j: nat, german: string, english: string)
    requires KeyIs(j, german, english) && KeyFree(english) && NoneBefore(j, german)
    ensures Becomes(german, english)
  {
    hide REPLACEMENTS, KeyFree;
    OnePhrase(j);
  }

  ghost predicate KeysHave(i: nat, j: nat, c: char) {
    j <= |REPLACEMENTS| && forall k :: i <= k < j ==> c in REPLACEMENTS[k].0
  }

  lemma DayLetters()
    ensures KeysHave(0, 1, 'g') && KeysHave(1, 2, 'u') && KeysHave(2, 3, 'g')
  {
  }

  lemma WeekLetters()
    ensures KeysHave(3, 9, 'w') && KeysHave(3, 5, 'z') && KeysHave(5, 7, 'd') && KeysHave(7, 8, '\U{00E4}')
  {
  }

  lemma MonthLetters()
    ensures KeysHave(9, 15, 'm') && KeysHave(9, 11, 'z') && KeysHave(11, 13, 'd') && KeysHave(13, 14, '\U{00E4}')
  {
  }

  lemma YearLetters()
    ensures KeysHave(15, 16, 'z') && KeysHave(16, 17, 'd') && KeysHave(17, 18, '\U{00E4}')
  {
  }

  lemma NoneBeforeFirst(german: string)
    ensures NoneBefore(0, german)
  {
  }

  /** Keys with a letter that the phrase does not have are not in it. */
  lemma Past(german: string, i: nat, j: nat, c: char)
    requires i <= j && NoneBefore(i, german) && KeysHave(i, j, c) && Avoids(german, c)
    ensures NoneBefore(j, german)
  {
    hide REPLACEMENTS;
    forall k | i <= k < j
      ensures !Contains(german, REPLACEMENTS[k].0)
    {
      Lacking(german, REPLACEMENTS[k].0, c);
      NotContained(german, REPLACEMENTS[k].0);
    }
  }

  /** Two letters of the j-th key that do not follow each other in the phrase. */
  lemma PastPair(german: string, j: nat, key: string, english: string, at: nat)
    requires NoneBefore(j, german) && KeyIs(j, key, english) && at + 1 < |key|
    requires forall i :: 0 <= i && i + 1 < |german| ==> german[i] != key[at] || german[i + 1] != key[at + 1]
    ensures NoneBefore(j + 1, german)
  {
    hide REPLACEMENTS;
    NoSuchPair(german, key, at);
  }

  lemma PastDays(german: string)
    requires Avoids(german, 'g') && Avoids(german, 'u')
    ensures NoneBefore(3, german)
  {
    hide REPLACEMENTS, Avoids;
    DayLetters();
    NoneBeforeFirst(german);
    Past(german, 0, 1, 'g');
    Past(german, 1, 2, 'u');
    Past(german, 2, 3, 'g');
  }

  lemma GermanDays()
    ensures Becomes("gestern", "yesterday")
    ensures Becomes("heute", "today")
    ensures Becomes("morgen", "tomorrow")
  {
    DayPhrasesFree();
    DayLetters();
    DayKeys();
    hide REPLACEMENTS, KeyIs, KeyFree, KeysHave, NoneBefore, Becomes;
    NoneBeforeFirst("gestern");
    NoneBeforeFirst("heute");
    NoneBeforeFirst("morgen");
    Past("heute", 0, 1, 'g');
    PastPair("morgen", 0, "gestern", "yesterday", 1);
    Past("morgen", 1, 2, 'u');
    PhraseBecomes(0, "gestern", "yesterday");
    PhraseBecomes(1, "heute", "today");
    PhraseBecomes(2, "morgen", "tomorrow");
  }

  lemma GermanLastWeek()
    ensures Becomes("letzte woche", "last week")
    ensures Becomes("letzten woche", "last week")
  {
    WeekPhrasesFree();
    WeekKeys();
    hide REPLACEMENTS, KeyIs, KeyFree, KeysHave, NoneBefore, Becomes;
    PastDays("letzte woche");
    PhraseBecomes(3, "letzte woche", "last week");
    PastDays("letzten woche");
    PastPair("letzten woche", 3, "letzte woche", "last week", 5);
    PhraseBecomes(4, "letzten woche", "last week");
  }

  lemma PastStems(german: string, i: nat, d: nat)
    requires NoneBefore(i, german) && i in {3, 9} && Avoids(german, 'z')
    requires d == i + 2 || (d == i + 4 && Avoids(german, 'd'))
    ensures NoneBefore(d, german)
  {
    WeekLetters();
    MonthLetters();
    hide REPLACEMENTS, Avoids, KeysHave;
    Past(german, i, i + 2, 'z');
    if d == i + 4 {
      Past(german, i + 2, d, 'd');
    }
  }

  lemma GermanThisWeek()
    ensures Becomes("diese woche", "this week")
    ensures Becomes("dieser woche", "this week")
  {
    WeekPhrasesFree();
    WeekKeys();
    hide REPLACEMENTS, KeyIs, KeyFree, KeysHave, NoneBefore, Becomes;
    PastDays("diese woche");
    PastStems("diese woche", 3, 5);
    PhraseBecomes(5, "diese woche", "this week");
    PastDays("dieser woche");
    PastStems("dieser woche", 3, 5);
    PastPair("dieser woche", 5, "diese woche", "this week", 4);
    PhraseBecomes(6, "dieser woche", "this week");
  }

  lemma GermanNextWeekLetters()
    ensures Avoids("n\U{00E4}chste woche", 'g') && Avoids("n\U{00E4}chste woche", 'u')
    ensures Avoids("n\U{00E4}chste woche", 'z') && Avoids("n\U{00E4}chste woche", 'd')
  {
  }

  lemma GermanNextWeek()
    ensures Becomes("n\U{00E4}chste woche", "next week")
  {
    WeekPhrasesFree();
    WeekLetters();
    WeekKeys();
    hide REPLACEMENTS, KeyIs, KeyFree, KeysHave, NoneBefore, Becomes, Avoids;
    GermanNextWeekLetters();
    PastDays("n\U{00E4}chste woche");
    PastStems("n\U{00E4}chste woche", 3, 7);
    PhraseBecomes(7, "n\U{00E4}chste woche", "next week");
  }

  lemma GermanNextWeekSpelledLetters()
    ensures Avoids("naechste woche", 'g') && Avoids("naechste woche", 'u')
    ensures Avoids("naechste woche", 'z') && Avoids("naechste woche", 'd') && Avoids("naechste woche", '\U{00E4}')
  {
  }

  lemma GermanNextWeekSpelled()
    ensures Becomes("naechste woche", "next week")
  {
    WeekPhrasesFree();
    WeekLetters();
    WeekKeys();
    hide REPLACEMENTS, KeyIs, KeyFree, KeysHave, NoneBefore, Becomes, Avoids;
    GermanNextWeekSpelledLetters();
    PastDays("naechste woche");
    PastStems("naechste woche", 3, 7);
    Past("naechste woche", 7, 8, '\U{00E4}');
    PhraseBecomes(8, "naechste woche", "next week");
  }

  lemma PastWeeks(german: string)
    requires Avoids(german, 'g') && Avoids(german, 'u') && Avoids(german, 'w')
    ensures NoneBefore(9, german)
  {
    hide REPLACEMENTS, Avoids, KeysHave;
    WeekLetters();
    PastDays(german);
    Past(german, 3, 9, 'w');
  }

  lemma GermanLastMonth()
    ensures Becomes("letzten monat", "last month")
    ensures Becomes("letzter monat", "last month")
  {
    MonthPhrasesFree();
    MonthKeys();
    hide REPLACEMENTS, KeyIs, KeyFree, KeysHave, NoneBefore, Becomes;
    PastWeeks("letzten monat");
    PhraseBecomes(9, "letzten monat", "last month");
    PastWeeks("letzter monat");
    PastPair("letzter monat", 9, "letzten monat", "last month", 6);
    PhraseBecomes(10, "letzter monat", "last month");
  }

  lemma GermanThisMonth()
    ensures Becomes("diesen monat", "this month")
    ensures Becomes("dieser monat", "this month")
  {
    MonthPhrasesFree();
    MonthKeys();
    hide REPLACEMENTS, KeyIs, KeyFree, KeysHave, NoneBefore, Becomes;
    PastWeeks("diesen monat");
    PastStems("diesen monat", 9, 11);
    PhraseBecomes(11, "diesen monat", "this month");
    PastWeeks("dieser monat");
    PastStems("dieser monat", 9, 11);
    PastPair("dieser monat", 11, "diesen monat", "this month", 5);
    PhraseBecomes(12, "dieser monat", "this month");
  }

  lemma GermanNextMonthLetters()
    ensures Avoids("n\U{00E4}chsten monat", 'g') && Avoids("n\U{00E4}chsten monat", 'u')
    ensures Avoids("n\U{00E4}chsten monat", 'z') && Avoids("n\U{00E4}chsten monat", 'd') &&
      Avoids("n\U{00E4}chsten monat", 'w')
  {
  }

  lemma GermanNextMonth()
    ensures Becomes("n\U{00E4}chsten monat", "next month")
  {
    MonthPhrasesFree();
    MonthLetters();
    MonthKeys();
    hide REPLACEMENTS, KeyIs, KeyFree, KeysHave, NoneBefore, Becomes, Avoids;
    GermanNextMonthLetters();
    PastWeeks("n\U{00E4}chsten monat");
    PastStems("n\U{00E4}chsten monat", 9, 13);
    PhraseBecomes(13, "n\U{00E4}chsten monat", "next month");
  }

  lemma GermanNextMonthSpelledLetters()
    ensures Avoids("naechsten monat", 'g') && Avoids("naechsten monat", 'u')
    ensures Avoids("naechsten monat", 'z') && Avoids("naechsten monat", 'd') && Avoids("naechsten monat", 'w') &&
      Avoids("naechsten monat", '\U{00E4}')
  {
  }

  lemma GermanNextMonthSpelled()
    ensures Becomes("naechsten monat", "next month")
  {
    MonthPhrasesFree();
    MonthLetters();
    MonthKeys();
    hide REPLACEMENTS, KeyIs, KeyFree, KeysHave, NoneBefore, Becomes, Avoids;
    GermanNextMonthSpelledLetters();
    PastWeeks("naechsten monat");
    PastStems("naechsten monat", 9, 13);
    Past("naechsten monat", 13, 14, '\U{00E4}');
    PhraseBecomes(14, "naechsten monat", "next month");
  }

  lemma PastMonths(german: string)
    requires Avoids(german, 'g') && Avoids(german, 'u') && Avoids(german, 'w') && Avoids(german, 'm')
    ensures NoneBefore(15, german)
  {
    hide REPLACEMENTS, Avoids, KeysHave;
    MonthLetters();
    PastWeeks(german);
    Past(german, 9, 15, 'm');
  }

  lemma GermanYears()
    ensures Becomes("letztes jahr", "last year")
    ensures Becomes("dieses jahr", "this year")
  {
    YearPhrasesFree();
    YearLetters();
    YearKeys();
    hide REPLACEMENTS, KeyIs, KeyFree, KeysHave, NoneBefore, Becomes;
    PastMonths("letztes jahr");
    PhraseBecomes(15, "letztes jahr", "last year");
    PastMonths("dieses jahr");
    Past("dieses jahr", 15, 16, 'z');
    PhraseBecomes(16, "dieses jahr", "this year");
  }

  lemma GermanNextYear()
    ensures Becomes("n\U{00E4}chstes jahr", "next year")
    ensures Becomes("naechstes jahr", "next year")
  {
    YearPhrasesFree();
    YearLetters();
    YearKeys();
    hide REPLACEMENTS, KeyIs, KeyFree, KeysHave, NoneBefore, Becomes;
    PastMonths("n\U{00E4}chstes jahr");
    Past("n\U{00E4}chstes jahr", 15, 16, 'z');
    Past("n\U{00E4}chstes jahr", 16, 17, 'd');
    PhraseBecomes(17, "n\U{00E4}chstes jahr", "next year");
    PastMonths("naechstes jahr");
    Past("naechstes jahr", 15, 16, 'z');
    Past("naechstes jahr", 16, 17, 'd');
    Past("naechstes jahr", 17, 18, '\U{00E4}');
    PhraseBecomes(18, "naechstes jahr", "next year");
  }
}
