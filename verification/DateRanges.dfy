/** Day, week, month, quarter and year ranges in Unix seconds, both ends included. */
module DateRanges {
  import opened Prelude
  import opened Calendar
  import opened Timestamps

  datatype DateRange = DateRange(lo: int, hi: int)

  /** A non-empty range of whole UTC days. */
  predicate WholeDays(r: DateRange) {
    r.lo <= r.hi && r.lo % DAY == 0 && (r.hi + 1) % DAY == 0
  }

  predicate InRange(r: DateRange, ts: int) {
    r.lo <= ts <= r.hi
  }

  function Date(year: int, month: nat, day: nat): Option<CivilDate> {
    var d := CivilDate(year, month, day);
    if DaysFromCivil(d).Some? then Some(d) else None
  }

  function AddDays(d: CivilDate, days: int): Option<CivilDate> {
    var start :- DaysFromCivil(d);
    var moved :- Checked(start + days);
    CivilFromDays(moved)
  }

  function DayBounds(d: CivilDate): DateRange {
    var lo := (if DaysFromCivil(d).Some? then DaysFromCivil(d).value else 0) * DAY;
    DateRange(lo, lo + DAY - 1)
  }

  function WeekOf(d: CivilDate): Option<DateRange> {
    var days :- DaysFromCivil(d);
    var lo := (days - (days + 3) % 7) * DAY;
    Some(DateRange(lo, lo + 7 * DAY - 1))
  }

  function MonthOf(year: int, month: nat): Option<DateRange> {
    var first :- Date(year, month, 1);
    var next :- if month == 12 then Date(year + 1, 1, 1) else Date(year, month + 1, 1);
    Some(DateRange(DayBounds(first).lo, DayBounds(next).lo - 1))
  }

  function YearOf(year: int): Option<DateRange> {
    var first :- Date(year, 1, 1);
    var next :- Date(year + 1, 1, 1);
    Some(DateRange(DayBounds(first).lo, DayBounds(next).lo - 1))
  }

  /** The range a quarter query returns. */
  function QuarterOf(year: int, quarter: nat): Option<DateRange>
    requires 1 <= quarter <= 4
  {
    var firstMonth := (quarter - 1) * 3 + 1;
    var first :- MonthOf(year, firstMonth);
    var after :- if quarter == 4 then MonthOf(year + 1, 1) else MonthOf(year, firstMonth + 3);
    Some(DateRange(first.lo, after.lo - 1))
  }

  // ---------- Days of a month ----------

  lemma {:induction false} DayInMonth(year: int, month: nat, day: nat)
    requires IsDate(CivilDate(year, month, day))
    ensures IsDate(CivilDate(year, month, 1))
    ensures DayNumber(CivilDate(year, month, day)) == DayNumber(CivilDate(year, month, 1)) + day - 1
  {
    if day > 1 {
      DayInMonth(year, month, day - 1);
      NextDayIsNext(CivilDate(year, month, day - 1));
      assert NextDay(CivilDate(year, month, day - 1)) == CivilDate(year, month, day);
    }
  }

  function NextMonth(year: int, month: nat): (int, nat) {
    if month == 12 then (year + 1, 1) else (year, month + 1)
  }

  /** The first of the next month comes as many days later as the month is long. */
  lemma MonthIsLong(year: int, month: nat)
    requires 1 <= month <= 12
    ensures var (y, m) := NextMonth(year, month);
      && DaysInMonth(year, month).Some? && 28 <= DaysInMonth(year, month).value <= 31
      && IsDate(CivilDate(year, month, 1)) && IsDate(CivilDate(y, m, 1))
      && DayNumber(CivilDate(y, m, 1)) == DayNumber(CivilDate(year, month, 1)) + DaysInMonth(year, month).value
  {
    var last := CivilDate(year, month, DaysInMonth(year, month).value);
    DayInMonth(year, month, last.day);
    NextDayIsNext(last);
  }

  lemma DistinctDates(d: CivilDate, e: CivilDate)
    requires IsDate(d) && IsDate(e) && DayNumber(d) == DayNumber(e)
    ensures d == e
  {
    DateRoundTrip(d);
    DateRoundTrip(e);
  }

  // ---------- Main results ----------

  lemma BoundsOf(d: CivilDate)
    requires IsValid(d)
    ensures DayBounds(d) == DateRange(DayNumber(d) * DAY, DayNumber(d) * DAY + DAY - 1)
  {
    DaysFromCivilDefined(d);
  }

  /** A month range exists for every month of years 1 to 9999 but the very last one. */
  lemma MonthDefined(year: int, month: nat)
    ensures MonthOf(year, month).Some? <==> 1 <= year <= 9999 && 1 <= month <= 12 && !(year == 9999 && month == 12)
    ensures MonthOf(year, month).Some? ==>
      MonthOf(year, month).value.lo == DayNumber(CivilDate(year, month, 1)) * DAY
      && MonthOf(year, month).value.hi == MonthOf(year, month).value.lo + DaysInMonth(year, month).value * DAY - 1
      && WholeDays(MonthOf(year, month).value)
  {
    hide DayNumber, DateOf;
    DaysFromCivilDefined(CivilDate(year, month, 1));
    if 1 <= month <= 12 {
      var (y, m) := NextMonth(year, month);
      DaysFromCivilDefined(CivilDate(y, m, 1));
      MonthIsLong(year, month);
    }
  }

  /** A valid date lies in a month's range exactly when it is a date of that month. */
  lemma MonthHoldsItsDays(year: int, month: nat, d: CivilDate)
    requires MonthOf(year, month).Some? && IsValid(d)
    ensures InRange(MonthOf(year, month).value, DayNumber(d) * DAY) <==> d.year == year && d.month == month
  {
    MonthDefined(year, month);
    MonthIsLong(year, month);
    var first := DayNumber(CivilDate(year, month, 1));
    if d.year == year && d.month == month {
      DayInMonth(year, month, d.day);
    }
    if first <= DayNumber(d) < first + DaysInMonth(year, month).value {
      var e := CivilDate(year, month, DayNumber(d) - first + 1);
      DayInMonth(year, month, e.day);
      DistinctDates(d, e);
    }
  }

  /** Consecutive months are adjacent. */
  lemma MonthsAdjacent(year: int, month: nat)
    requires MonthOf(year, month).Some?
    requires var (y, m) := NextMonth(year, month); MonthOf(y, m).Some?
    ensures var (y, m) := NextMonth(year, month); MonthOf(y, m).value.lo == MonthOf(year, month).value.hi + 1
  {
  }

  /** A quarter is its three months. */
  lemma QuarterTiled(year: int, quarter: nat)
    requires 1 <= quarter <= 4 && QuarterOf(year, quarter).Some?
    ensures var m := (quarter - 1) * 3 + 1;
      && MonthOf(year, m).Some? && MonthOf(year, m + 1).Some? && MonthOf(year, m + 2).Some?
      && QuarterOf(year, quarter).value == DateRange(MonthOf(year, m).value.lo, MonthOf(year, m + 2).value.hi)
      && MonthOf(year, m + 1).value.lo == MonthOf(year, m).value.hi + 1
      && MonthOf(year, m + 2).value.lo == MonthOf(year, m + 1).value.hi + 1
      && WholeDays(QuarterOf(year, quarter).value)
  {
    hide DayNumber, DateOf, DaysFromCivil, IsDate;
    var m := (quarter - 1) * 3 + 1;
    MonthDefined(year, m);
    MonthDefined(year, m + 1);
    MonthDefined(year, m + 2);
    MonthsAdjacent(year, m);
    MonthsAdjacent(year, m + 1);
    var (y, n) := NextMonth(year, m + 2);
    MonthDefined(y, n);
    MonthsAdjacent(year, m + 2);
  }

  /** From the first of a month to the next new year. */
  lemma {:induction false} MonthsBefore(year: int, month: nat)
    requires 1 <= month <= 12
    ensures DayNumber(CivilDate(year, month, 1)) < DayNumber(CivilDate(year + 1, 1, 1))
    decreases 12 - month
  {
    hide DayNumber, DateOf;
    MonthIsLong(year, month);
    if month < 12 {
      MonthsBefore(year, month + 1);
    }
  }

  /** A year range exists for years 1 to 9998, from new year to new year. */
  lemma YearDefined(year: int)
    ensures YearOf(year).Some? <==> 1 <= year <= 9998
    ensures YearOf(year).Some? ==> YearOf(year).value.lo == DayNumber(CivilDate(year, 1, 1)) * DAY
    ensures YearOf(year).Some? ==> YearOf(year).value.hi + 1 == DayNumber(CivilDate(year + 1, 1, 1)) * DAY
    ensures DayNumber(CivilDate(year + 1, 1, 1)) > DayNumber(CivilDate(year, 1, 1))
  {
    hide DayNumber, DateOf;
    DaysFromCivilDefined(CivilDate(year, 1, 1));
    DaysFromCivilDefined(CivilDate(year + 1, 1, 1));
    MonthIsLong(year, 1);
    MonthsBefore(year, 2);
  }

  function QuarterEnd(year: int, quarter: nat): CivilDate {
    if quarter == 4 then CivilDate(year + 1, 1, 1) else CivilDate(year, 3 * quarter + 1, 1)
  }

  /** A quarter range, from first day to first day. */
  lemma QuarterDefined(year: int, quarter: nat)
    requires 1 <= quarter <= 4 && 1 <= year <= 9998
    ensures QuarterOf(year, quarter).Some?
    ensures QuarterOf(year, quarter).value.lo == DayNumber(CivilDate(year, 3 * quarter - 2, 1)) * DAY
    ensures QuarterOf(year, quarter).value.hi + 1 == DayNumber(QuarterEnd(year, quarter)) * DAY
  {
    hide DayNumber, DateOf, MonthOf, WholeDays, DaysInMonth;
    MonthDefined(year, 3 * quarter - 2);
    if quarter == 4 {
      MonthDefined(year + 1, 1);
    } else {
      MonthDefined(year, 3 * quarter + 1);
    }
  }

  /** A year is its four quarters, and the next year, where it exists, follows at once. */
  lemma YearTiled(year: int)
    requires YearOf(year).Some?
    ensures forall q :: 1 <= q <= 4 ==> QuarterOf(year, q).Some?
    ensures YearOf(year).value == DateRange(QuarterOf(year, 1).value.lo, QuarterOf(year, 4).value.hi)
    ensures forall q :: 1 <= q < 4 ==> QuarterOf(year, q + 1).value.lo == QuarterOf(year, q).value.hi + 1
    ensures YearOf(year + 1).Some? ==> YearOf(year + 1).value.lo == YearOf(year).value.hi + 1
    ensures WholeDays(YearOf(year).value)
  {
    hide DayNumber, DateOf, YearOf, QuarterOf;
    YearDefined(year);
    YearDefined(year + 1);
    forall q: nat | 1 <= q <= 4
      ensures QuarterOf(year, q).Some?
      ensures QuarterOf(year, q).value.lo == DayNumber(CivilDate(year, 3 * q - 2, 1)) * DAY
      ensures QuarterOf(year, q).value.hi + 1 == DayNumber(QuarterEnd(year, q)) * DAY
    {
      QuarterDefined(year, q);
    }
  }

  /** A week holds its day, starts on a Monday (1970-01-01 was a Thursday) and lasts seven days. */
  lemma WeekHoldsItsDay(d: CivilDate)
    ensures WeekOf(d).Some? <==> IsValid(d)
    ensures IsValid(d) ==>
      var w := WeekOf(d).value;
      && WholeDays(w) && w.lo <= DayBounds(d).lo && DayBounds(d).hi <= w.hi
      && w.hi - w.lo + 1 == 7 * DAY && (w.lo / DAY - 4) % 7 == 0
  {
    hide DayNumber, DateOf;
    DaysFromCivilDefined(d);
  }

  /** Weeks tile: two days share a week or their weeks do not meet. */
  lemma WeeksTile(d: CivilDate, e: CivilDate)
    requires IsValid(d) && IsValid(e)
    ensures WeekOf(d) == WeekOf(e) || WeekOf(d).value.hi < WeekOf(e).value.lo || WeekOf(e).value.hi < WeekOf(d).value.lo
  {
    hide DayNumber, DateOf;
    DaysFromCivilDefined(d);
    DaysFromCivilDefined(e);
    var a, b := DayNumber(d) + 3, DayNumber(e) + 3;
    assert a - a % 7 == 7 * (a / 7) && b - b % 7 == 7 * (b / 7);
  }

  /** Today's day, week and month, where they exist, all hold the present instant. */
  lemma NowIsInside(now: I64)
    requires CivilFromDays(now / DAY).Some?
    ensures var today := CivilFromDays(now / DAY).value;
      && InRange(DayBounds(today), now) && WholeDays(DayBounds(today))
      && WeekOf(today).Some? && InRange(WeekOf(today).value, now)
      && (MonthOf(today.year, today.month).Some? ==> InRange(MonthOf(today.year, today.month).value, now))
  {
    hide DayNumber, DateOf, CivilFromDays, DaysFromCivil, DayBounds, WeekOf, MonthOf;
    DaysRoundTrip(now / DAY);
    var today := CivilFromDays(now / DAY).value;
    DaysFromCivilDefined(today);
    DayHoldsNow(today, now);
    WeekHoldsNow(today, now);
    if MonthOf(today.year, today.month).Some? {
      MonthHoldsNow(today, now);
    }
  }

  lemma DayHoldsNow(today: CivilDate, now: I64)
    requires IsValid(today) && DayNumber(today) == now / DAY
    ensures InRange(DayBounds(today), now) && WholeDays(DayBounds(today))
  {
    hide DayNumber, DayBounds, IsValid;
    BoundsOf(today);
  }

  lemma WeekHoldsNow(today: CivilDate, now: I64)
    requires IsValid(today) && DayNumber(today) == now / DAY
    ensures WeekOf(today).Some? && InRange(WeekOf(today).value, now)
  {
    hide DayNumber, DayBounds, WeekOf, IsValid;
    DayHoldsNow(today, now);
    WeekHoldsItsDay(today);
  }

  lemma MonthHoldsNow(today: CivilDate, now: I64)
    requires IsValid(today) && DayNumber(today) == now / DAY && MonthOf(today.year, today.month).Some?
    ensures InRange(MonthOf(today.year, today.month).value, now)
  {
    hide DayNumber, MonthOf, IsValid, InRange, WholeDays;
    MonthDefined(today.year, today.month);
    MonthHoldsItsDays(today.year, today.month, today);
    WholeRangeHoldsDay(MonthOf(today.year, today.month).value, DayNumber(today), now);
  }

  lemma WholeRangeHoldsDay(r: DateRange, day: int, ts: int)
    requires WholeDays(r) && InRange(r, day * DAY) && ts / DAY == day
    ensures InRange(r, ts)
  {
  }
}
