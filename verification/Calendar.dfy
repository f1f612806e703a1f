/**
 Proleptic Gregorian dates and day numbers. Division truncates, as in the host
 language; the two conversions are proved mutually inverse, and the day number
 is proved to count calendar days from 1970-01-01.
 */
module Calendar {
  import opened Prelude

  datatype CivilDate = CivilDate(year: int, month: nat, day: nat)

  /** Truncating division of the host language, for a positive divisor. */
  function Quot(a: int, b: int): int
    requires b > 0
  {
    if a >= 0 then a / b else -((-a) / b)
  }

  predicate IsLeapYear(year: int) {
    year % 4 == 0 && (year % 100 != 0 || year % 400 == 0)
  }

  function DaysInMonth(year: int, month: nat): Option<nat> {
    match month
    case 1 | 3 | 5 | 7 | 8 | 10 | 12 => Some(31)
    case 4 | 6 | 9 | 11 => Some(30)
    case 2 => Some(if IsLeapYear(year) then 29 else 28)
    case _ => None
  }

  /** A date of the calendar, in any year. */
  predicate IsDate(d: CivilDate) {
    DaysInMonth(d.year, d.month).Some? && 1 <= d.day <= DaysInMonth(d.year, d.month).value
  }

  /** The dates the conversions accept: years 1 to 9999. */
  predicate IsValid(d: CivilDate) {
    1 <= d.year <= 9999 && IsDate(d)
  }

  /** The day after `d`. */
  function NextDay(d: CivilDate): CivilDate
    requires IsDate(d)
  {
    if d.day < DaysInMonth(d.year, d.month).value then d.(day := d.day + 1)
    else if d.month < 12 then CivilDate(d.year, d.month + 1, 1)
    else CivilDate(d.year + 1, 1, 1)
  }

  // ---------- The conversions ----------

  /** The arithmetic of `days_from_civil`, before its range check. */
  function DayNumber(d: CivilDate): int {
    var year := if d.month <= 2 then d.year - 1 else d.year;
    var era := Quot(if year >= 0 then year else year - 399, 400);
    var yoe := year - era * 400;
    var doy := Quot(153 * (d.month + if d.month > 2 then -3 else 9) + 2, 5) + d.day - 1;
    var doe := yoe * 365 + Quot(yoe, 4) - Quot(yoe, 100) + doy;
    era * 146_097 + doe - 719_468
  }

  function DaysFromCivil(d: CivilDate): Option<int> {
    if !(1 <= d.year <= 9999) || d.day == 0 then None
    else
      var limit :- DaysInMonth(d.year, d.month);
      if d.day > limit then None else Some(DayNumber(d))
  }

  function TruncatedYearOfEra(doe: int): int {
    Quot(doe - Quot(doe, 1460) + Quot(doe, 36_524) - Quot(doe, 146_096), 365)
  }

  /** Year, month and day of a day of an era. */
  function DateInEra(era: int, doe: int): (int, int, int) {
    var yoe := TruncatedYearOfEra(doe);
    var doy := doe - (365 * yoe + Quot(yoe, 4) - Quot(yoe, 100));
    var mp := Quot(5 * doy + 2, 153);
    var day := doy - Quot(153 * mp + 2, 5) + 1;
    var month := mp + if mp < 10 then 3 else -9;
    (yoe + era * 400 + if month <= 2 then 1 else 0, month, day)
  }

  /** The arithmetic of `civil_from_days`, before its range checks. */
  function DateOf(days: int): (int, int, int) {
    var z := days + 719_468;
    var era := Quot(if z >= 0 then z else z - 146_096, 146_097);
    DateInEra(era, z - era * 146_097)
  }

  function CivilFromDays(days: I64): Option<CivilDate> {
    if days + 719_468 > I64_MAX then None
    else
      var (year, month, day) := DateOf(days);
      if !(-0x8000_0000 <= year < 0x8000_0000) || month < 0 || day < 0 then None
      else
        var d := CivilDate(year, month, day);
        if DaysFromCivil(d).Some? then Some(d) else None
  }

  // ---------- Years of an era ----------

  lemma {:induction false} Grows(b: int, x: int, y: int)
    requires b > 0 && x < y
    ensures b * x + b <= b * y
    decreases y - x
  {
    if x + 1 < y {
      Grows(b, x, y - 1);
    }
    assert b * y == b * (y - 1) + b;
  }

  lemma DivUnique(a: int, b: int, q: int)
    requires b > 0 && b * q <= a < b * q + b
    ensures a / b == q && a % b == a - b * q
  {
    var x := a / b;
    assert b * x <= a < b * x + b;
    if x < q { Grows(b, x, q); }
    if q < x { Grows(b, q, x); }
  }

  /** Day of era of a March-based year of era and a day of that year. */
  function DayOfEra(yoe: int, doy: int): int {
    yoe * 365 + yoe / 4 - yoe / 100 + doy
  }

  /** A March-based year that ends with 29 February. */
  predicate LongYear(yoe: int) {
    yoe % 4 == 3 && (yoe % 100 != 99 || yoe == 399)
  }

  function LastDay(yoe: int): int {
    if LongYear(yoe) then 365 else 364
  }

  function YearOfEra(doe: int): int {
    (doe - doe / 1460 + doe / 36_524 - doe / 146_096) / 365
  }

  /** A year of era as century, four-year cycle and year of cycle. */
  lemma Split(c: int, q: int, r: int)
    requires 0 <= c <= 3 && 0 <= q <= 24 && 0 <= r <= 3
    ensures var yoe := 100 * c + 4 * q + r;
      && yoe / 4 == 25 * c + q && yoe / 100 == c && yoe % 4 == r && yoe % 100 == 4 * q + r
      && (LongYear(yoe) <==> r == 3 && (q != 24 || c == 3))
  {
    var yoe := 100 * c + 4 * q + r;
    DivUnique(yoe, 4, 25 * c + q);
    DivUnique(yoe, 100, c);
  }

  /** The correction terms of the year-of-era formula. */
  lemma SplitQuotients(c: int, q: int, r: int, doy: int, doe: int)
    requires 0 <= c <= 3 && 0 <= q <= 24 && 0 <= r <= 3
    requires 0 <= doy <= (if r == 3 && (q != 24 || c == 3) then 365 else 364)
    requires doe == 36_524 * c + 1461 * q + 365 * r + doy
    ensures doe / 1460 == 25 * c + q + (if 24 * c + q + 365 * r + doy >= 1460 then 1 else 0)
    ensures doe / 36_524 - doe / 146_096 == c
  {
    DivUnique(doe, 1460, 25 * c + q + (if 24 * c + q + 365 * r + doy >= 1460 then 1 else 0));
    DivUnique(doe, 36_524, if doe == 146_096 then 4 else c);
    DivUnique(doe, 146_096, if doe == 146_096 then 1 else 0);
  }

  lemma SplitInverts(c: int, q: int, r: int, doy: int)
    requires 0 <= c <= 3 && 0 <= q <= 24 && 0 <= r <= 3
    requires 0 <= doy <= LastDay(100 * c + 4 * q + r)
    ensures var yoe := 100 * c + 4 * q + r;
      && DayOfEra(yoe, doy) == 36_524 * c + 1461 * q + 365 * r + doy
      && 0 <= DayOfEra(yoe, doy) <= 146_096
      && YearOfEra(DayOfEra(yoe, doy)) == yoe
  {
    hide YearOfEra, LongYear;
    Split(c, q, r);
    var doe := 36_524 * c + 1461 * q + 365 * r + doy;
    YearOfSplit(c, q, r, doy, doe);
  }

  lemma YearOfSplit(c: int, q: int, r: int, doy: int, doe: int)
    requires 0 <= c <= 3 && 0 <= q <= 24 && 0 <= r <= 3
    requires 0 <= doy <= (if r == 3 && (q != 24 || c == 3) then 365 else 364)
    requires doe == 36_524 * c + 1461 * q + 365 * r + doy
    ensures 0 <= doe <= 146_096 && YearOfEra(doe) == 100 * c + 4 * q + r
  {
    SplitQuotients(c, q, r, doy, doe);
    DivUnique(doe - doe / 1460 + c, 365, 100 * c + 4 * q + r);
  }

  /** The year of era is recovered from the day of era. */
  lemma YearOfEraInverts(yoe: int, doy: int)
    requires 0 <= yoe <= 399 && 0 <= doy <= LastDay(yoe)
    ensures 0 <= DayOfEra(yoe, doy) <= 146_096
    ensures YearOfEra(DayOfEra(yoe, doy)) == yoe
  {
    var c := yoe / 100;
    var q := (yoe - 100 * c) / 4;
    SplitInverts(c, q, yoe - 100 * c - 4 * q, doy);
  }

  /** Every day of era lies in the year of era computed for it. */
  lemma DayOfEraInverts(doe: int)
    requires 0 <= doe <= 146_096
    ensures var yoe := YearOfEra(doe);
      0 <= yoe <= 399 && 0 <= doe - DayOfEra(yoe, 0) <= LastDay(yoe)
  {
    var c, q, r, doy := DigitsOf(doe);
    hide YearOfEra, LongYear;
    Split(c, q, r);
    YearOfSplit(c, q, r, doy, doe);
  }

  /** Centuries, four-year cycles, years and days of a day of era. */
  lemma DigitsOf(doe: int) returns (c: int, q: int, r: int, doy: int)
    requires 0 <= doe <= 146_096
    ensures 0 <= c <= 3 && 0 <= q <= 24 && 0 <= r <= 3
    ensures 0 <= doy <= (if r == 3 && (q != 24 || c == 3) then 365 else 364)
    ensures doe == 36_524 * c + 1461 * q + 365 * r + doy
  {
    c := if doe / 36_524 > 3 then 3 else doe / 36_524;
    var t := doe - 36_524 * c;
    q := t / 1461;
    var s := t - 1461 * q;
    r := if s / 365 > 3 then 3 else s / 365;
    doy := s - 365 * r;
  }

  // ---------- Months of a March-based year ----------

  function MonthStart(mp: int): int {
    (153 * mp + 2) / 5
  }

  /** Days in the mp-th month counted from March. */
  function MonthLength(mp: int, yoe: int): int {
    if mp == 11 then (if LongYear(yoe) then 29 else 28)
    else if mp in {1, 3, 6, 8} then 30 else 31
  }

  lemma MonthInverts(mp: int, day: int, yoe: int)
    requires 0 <= mp <= 11 && 1 <= day <= MonthLength(mp, yoe)
    ensures var doy := MonthStart(mp) + day - 1;
      0 <= doy <= LastDay(yoe) && (5 * doy + 2) / 153 == mp
  {
    var doy := MonthStart(mp) + day - 1;
    DivUnique(5 * doy + 2, 153, mp);
  }

  lemma DayOfYearInverts(doy: int, yoe: int)
    requires 0 <= doy <= LastDay(yoe)
    ensures var mp := (5 * doy + 2) / 153; var day := doy - MonthStart(mp) + 1;
      0 <= mp <= 11 && 1 <= day <= MonthLength(mp, yoe)
  {
  }

  // ---------- Whole dates ----------

  /** Years counted from March, in eras of 400. */
  lemma MarchYear(year: int, month: nat, day: nat)
    requires IsDate(CivilDate(year, month, day))
    ensures
      var y := if month <= 2 then year - 1 else year;
      var mp := month + if month > 2 then -3 else 9;
      && 0 <= mp <= 11 && 1 <= day <= MonthLength(mp, y % 400)
      && Quot(if y >= 0 then y else y - 399, 400) == y / 400
  {
    var y := if month <= 2 then year - 1 else year;
    if y < 0 {
      DivUnique(399 - y, 400, -(y / 400));
    }
    LeapIsLong(y);
  }

  /** A year is leap exactly when the March-based year before it is long. */
  lemma LeapIsLong(y: int)
    ensures IsLeapYear(y + 1) <==> LongYear(y % 400)
  {
    var e, r := y / 400, y % 400;
    assert y + 1 == 400 * e + r + 1;
    DivUnique(y + 1, 4, 100 * e + (r + 1) / 4);
    DivUnique(y + 1, 100, 4 * e + (r + 1) / 100);
    DivUnique(y + 1, 400, e + (r + 1) / 400);
    LongIff(r, y + 1);
  }

  lemma LongIff(r: int, year: int)
    requires 0 <= r < 400
    requires year % 4 == (r + 1) % 4 && year % 100 == (r + 1) % 100 && year % 400 == (r + 1) % 400
    ensures IsLeapYear(year) <==> LongYear(r)
  {
    NextQuotient(r, 4);
    NextQuotient(r, 100);
    NextQuotient(r, 400);
  }

  /** The day number as era and day of era. */
  lemma DayNumberForm(d: CivilDate)
    requires IsDate(d)
    ensures
      var y := if d.month <= 2 then d.year - 1 else d.year;
      var mp := d.month + if d.month > 2 then -3 else 9;
      && DayNumber(d) == (y / 400) * 146_097 + DayOfEra(y % 400, MonthStart(mp) + d.day - 1) - 719_468
  {
    MarchYear(d.year, d.month, d.day);
  }

  /** Truncation plays no role inside an era. */
  lemma QuotsOfEra(doe: int)
    requires 0 <= doe <= 146_096
    ensures TruncatedYearOfEra(doe) == YearOfEra(doe)
  {
    assert doe / 1460 <= doe;
    assert doe / 146_096 <= doe / 36_524;
  }

  lemma DayInYear(doe: int, yoe: int, doy: int)
    requires 0 <= yoe <= 399 && doe == DayOfEra(yoe, doy)
    ensures doe - (365 * yoe + Quot(yoe, 4) - Quot(yoe, 100)) == doy
  {
  }

  lemma YearOfEraOf(doe: int, yoe: int, doy: int)
    requires 0 <= yoe <= 399 && 0 <= doy <= LastDay(yoe) && doe == DayOfEra(yoe, doy)
    ensures 0 <= doe <= 146_096 && TruncatedYearOfEra(doe) == yoe
  {
    YearOfEraInverts(yoe, doy);
    QuotsOfEra(doe);
  }

  lemma MonthOfYearDay(doy: int, mp: int, day: int)
    requires 0 <= doy && 0 <= mp && (5 * doy + 2) / 153 == mp && doy == MonthStart(mp) + day - 1
    ensures Quot(5 * doy + 2, 153) == mp && doy - Quot(153 * mp + 2, 5) + 1 == day
  {
  }

  lemma DateInEraBy(era: int, doe: int, yoe: int, doy: int, mp: int, day: int)
    requires TruncatedYearOfEra(doe) == yoe
    requires doe - (365 * yoe + Quot(yoe, 4) - Quot(yoe, 100)) == doy
    requires Quot(5 * doy + 2, 153) == mp && doy - Quot(153 * mp + 2, 5) + 1 == day
    ensures
      var month := mp + if mp < 10 then 3 else -9;
      DateInEra(era, doe) == (yoe + era * 400 + if month <= 2 then 1 else 0, month, day)
  {
    hide Quot, TruncatedYearOfEra;
  }

  /** The inverse arithmetic, given a day of an era by year, month and day of a March-based date. */
  lemma DateInEraForm(era: int, doe: int, yoe: int, mp: int, day: int)
    requires 0 <= yoe <= 399 && 0 <= mp <= 11 && 1 <= day <= MonthLength(mp, yoe)
    requires doe == DayOfEra(yoe, MonthStart(mp) + day - 1)
    ensures 0 <= doe <= 146_096
    ensures
      var month := mp + if mp < 10 then 3 else -9;
      DateInEra(era, doe) == (yoe + era * 400 + if month <= 2 then 1 else 0, month, day)
  {
    var doy := MonthStart(mp) + day - 1;
    MonthInverts(mp, day, yoe);
    YearOfEraOf(doe, yoe, doy);
    DayInYear(doe, yoe, doy);
    MonthOfYearDay(doy, mp, day);
    DateInEraBy(era, doe, yoe, doy, mp, day);
  }

  lemma DateOfForm(days: int, era: int, doe: int)
    requires 0 <= doe <= 146_096 && days == era * 146_097 + doe - 719_468
    ensures DateOf(days) == DateInEra(era, doe)
  {
    EraInverts(days + 719_468, era);
  }

  lemma EraInverts(z: int, era: int)
    requires 0 <= z - era * 146_097 <= 146_096
    ensures Quot(if z >= 0 then z else z - 146_096, 146_097) == era
  {
    if z >= 0 {
      DivUnique(z, 146_097, era);
    } else {
      DivUnique(146_096 - z, 146_097, -era);
    }
  }

  // ---------- Main results ----------

  /** From any date, in any year, to its day number and back. */
  lemma DateRoundTrip(d: CivilDate)
    requires IsDate(d)
    ensures DateOf(DayNumber(d)) == (d.year, d.month, d.day)
  {
    hide DayNumber, DateOf, DateInEra, DayOfEra, MonthStart, MonthLength;
    var y := if d.month <= 2 then d.year - 1 else d.year;
    var mp := d.month + if d.month > 2 then -3 else 9;
    MarchYear(d.year, d.month, d.day);
    DayNumberForm(d);
    var doe := DayOfEra(y % 400, MonthStart(mp) + d.day - 1);
    DateInEraForm(y / 400, doe, y % 400, mp, d.day);
    DateOfForm(DayNumber(d), y / 400, doe);
  }

  lemma MarchDateNumber(era: int, yoe: int, mp: int, day: int)
    requires 0 <= yoe <= 399 && 0 <= mp <= 11 && 1 <= day <= MonthLength(mp, yoe)
    ensures IsDate(MarchDate(era, yoe, mp, day))
    ensures DayNumber(MarchDate(era, yoe, mp, day)) == era * 146_097 + DayOfEra(yoe, MonthStart(mp) + day - 1) - 719_468
  {
    MarchDateIsDate(era, yoe, mp, day);
    DayNumberForm(MarchDate(era, yoe, mp, day));
    YearInEra(era, yoe);
  }

  lemma DayRoundTripBy(days: int, era: int, doe: int, yoe: int, mp: int, day: int)
    requires 0 <= yoe <= 399 && 0 <= mp <= 11 && 1 <= day <= MonthLength(mp, yoe)
    requires doe == DayOfEra(yoe, MonthStart(mp) + day - 1) && days == era * 146_097 + doe - 719_468
    ensures var d := MarchDate(era, yoe, mp, day);
      DateOf(days) == (d.year, d.month, d.day) && IsDate(d) && DayNumber(d) == days
  {
    hide DayNumber, DateOf, DateInEra, DayOfEra, MonthStart, MonthLength, IsDate;
    MarchDateNumber(era, yoe, mp, day);
    assert DateOf(days) == DateInEra(era, doe) &&
      DateInEra(era, doe) == (MarchDate(era, yoe, mp, day).year, MarchDate(era, yoe, mp, day).month, day) by {
      DateInEraForm(era, doe, yoe, mp, day);
      DateOfForm(days, era, doe);
    }
  }

  /** Every day of an era has a month and a day in its March-based year. */
  lemma DayOfEraForm(doe: int) returns (yoe: int, mp: int, day: int)
    requires 0 <= doe <= 146_096
    ensures 0 <= yoe <= 399 && 0 <= mp <= 11 && 1 <= day <= MonthLength(mp, yoe)
    ensures doe == DayOfEra(yoe, MonthStart(mp) + day - 1)
  {
    DayOfEraInverts(doe);
    yoe := YearOfEra(doe);
    var doy := doe - DayOfEra(yoe, 0);
    DayOfYearInverts(doy, yoe);
    mp := (5 * doy + 2) / 153;
    day := doy - MonthStart(mp) + 1;
  }

  /** From any day number to a date and back. */
  lemma DayRoundTrip(days: int)
    ensures var (year, month, day) := DateOf(days);
      month >= 0 && day >= 0 && IsDate(CivilDate(year, month, day)) && DayNumber(CivilDate(year, month, day)) == days
  {
    var z := days + 719_468;
    var yoe, mp, day := DayOfEraForm(z % 146_097);
    DayRoundTripBy(days, z / 146_097, z % 146_097, yoe, mp, day);
  }

  lemma YearInEra(era: int, yoe: int)
    requires 0 <= yoe <= 399
    ensures (yoe + era * 400) / 400 == era && (yoe + era * 400) % 400 == yoe
  {
    DivUnique(yoe + era * 400, 400, era);
  }

  function MarchDate(era: int, yoe: int, mp: int, day: int): CivilDate
    requires 0 <= mp <= 11 && day >= 0
  {
    var month := mp + if mp < 10 then 3 else -9;
    CivilDate(yoe + era * 400 + if month <= 2 then 1 else 0, month, day)
  }

  lemma MarchDateIsDate(era: int, yoe: int, mp: int, day: int)
    requires 0 <= yoe <= 399 && 0 <= mp <= 11 && 1 <= day <= MonthLength(mp, yoe)
    ensures IsDate(MarchDate(era, yoe, mp, day))
  {
    YearInEra(era, yoe);
    LeapIsLong(yoe + era * 400);
  }

  /** The checked conversion accepts exactly the valid dates. */
  lemma DaysFromCivilDefined(d: CivilDate)
    ensures DaysFromCivil(d).Some? <==> IsValid(d)
    ensures IsValid(d) ==> DaysFromCivil(d) == Some(DayNumber(d))
  {
  }

  const FIRST_DAY := -719_162  // 0001-01-01
  const LAST_DAY := 2_932_896  // 9999-12-31

  // ---------- Order ----------

  /** The day number of a day of a March-based year, in any era. */
  function MarchNumber(y: int, doy: int): int {
    (y / 400) * 146_097 + DayOfEra(y % 400, doy) - 719_468
  }

  lemma YearOfEraStep(yoe: int)
    requires 0 <= yoe <= 399
    ensures yoe < 399 ==> DayOfEra(yoe + 1, 0) == DayOfEra(yoe, LastDay(yoe)) + 1
    ensures yoe == 399 ==> DayOfEra(yoe, LastDay(yoe)) == 146_096
  {
    NextQuotient(yoe, 4);
    NextQuotient(yoe, 100);
  }

  lemma NextQuotient(r: int, b: int)
    requires 0 <= r && b > 1
    ensures (r + 1) / b == r / b + if r % b == b - 1 then 1 else 0
    ensures (r + 1) % b == 0 <==> r % b == b - 1
  {
    var q, s := r / b, r % b;
    if s == b - 1 {
      assert b * q + b == b * (q + 1);
      DivUnique(r + 1, b, q + 1);
    } else {
      DivUnique(r + 1, b, q);
    }
  }

  /** A March-based year starts the day after the one before it ends. */
  lemma YearStep(y: int)
    ensures MarchNumber(y + 1, 0) == MarchNumber(y, LastDay(y % 400)) + 1
  {
    var e, r := y / 400, y % 400;
    YearOfEraStep(r);
    YearInEra(if r < 399 then e else e + 1, if r < 399 then r + 1 else 0);
  }

  lemma {:induction false} YearsGrow(y: int, y': int)
    requires y < y'
    ensures MarchNumber(y, LastDay(y % 400)) < MarchNumber(y', 0)
    decreases y' - y
  {
    YearStep(y' - 1);
    if y + 1 < y' {
      YearsGrow(y, y' - 1);
      LaterInYear(y' - 1, 0, LastDay((y' - 1) % 400));
    }
  }

  lemma LaterInYear(y: int, doy: int, doy': int)
    ensures MarchNumber(y, doy') == MarchNumber(y, doy) + doy' - doy
  {
  }

  /** A date as March-based year and day of year. */
  lemma MarchForm(d: CivilDate) returns (y: int, mp: int, doy: int)
    requires IsDate(d)
    ensures y == if d.month <= 2 then d.year - 1 else d.year
    ensures mp == d.month + if d.month > 2 then -3 else 9
    ensures 0 <= mp <= 11 && doy == MonthStart(mp) + d.day - 1 && 0 <= doy <= LastDay(y % 400)
    ensures 1 <= d.day <= MonthLength(mp, y % 400)
    ensures DayNumber(d) == MarchNumber(y, doy)
  {
    y := if d.month <= 2 then d.year - 1 else d.year;
    mp := d.month + if d.month > 2 then -3 else 9;
    doy := MonthStart(mp) + d.day - 1;
    MarchYear(d.year, d.month, d.day);
    DayNumberForm(d);
    MonthInverts(mp, d.day, y % 400);
  }

  lemma MonthBounds(mp: int, day: int, yoe: int)
    requires 0 <= mp <= 11 && 1 <= day <= MonthLength(mp, yoe)
    ensures mp <= 9 <==> MonthStart(mp) + day - 1 <= 305
  {
  }

  lemma MarchOrder(y: int, doy: int, y': int, doy': int)
    requires y < y' && 0 <= doy <= LastDay(y % 400) && 0 <= doy'
    ensures MarchNumber(y, doy) < MarchNumber(y', doy')
  {
    YearsGrow(y, y');
    LaterInYear(y, doy, LastDay(y % 400));
    LaterInYear(y', 0, doy');
  }

  /** Valid dates are the days from 0001-01-01 to 9999-12-31. */
  lemma ValidDayNumbers(d: CivilDate)
    requires IsDate(d)
    ensures IsValid(d) <==> FIRST_DAY <= DayNumber(d) <= LAST_DAY
  {
    hide DayNumber, MonthStart, MonthLength;
    var y, mp, doy := MarchForm(d);
    MonthBounds(mp, d.day, y % 400);
    if y < 0 { MarchOrder(y, doy, 0, 306); }
    if y == 0 { LaterInYear(0, 306, doy); }
    if y > 0 { MarchOrder(0, 306, y, doy); }
    if y < 9999 { MarchOrder(y, doy, 9999, 305); }
    if y == 9999 { LaterInYear(9999, 305, doy); }
    if y > 9999 { MarchOrder(9999, 305, y, doy); }
  }

  /** Date to day number and back is the identity on valid dates. */
  lemma CivilRoundTrip(d: CivilDate)
    requires IsValid(d)
    ensures DaysFromCivil(d).Some? && I64_MIN <= DaysFromCivil(d).value <= I64_MAX
    ensures CivilFromDays(DaysFromCivil(d).value) == Some(d)
  {
    DateRoundTrip(d);
    ValidDayNumbers(d);
  }

  /** Day number to date and back is the identity, and it succeeds on exactly the days of years 1 to 9999. */
  lemma DaysRoundTrip(days: I64)
    ensures CivilFromDays(days).Some? <==> FIRST_DAY <= days <= LAST_DAY
    ensures CivilFromDays(days).Some? ==>
              IsValid(CivilFromDays(days).value) && DaysFromCivil(CivilFromDays(days).value) == Some(days)
  {
    DayRoundTrip(days);
    var (year, month, day) := DateOf(days);
    ValidDayNumbers(CivilDate(year, month, day));
  }

  /** The month after the mp-th starts when the mp-th is over. */
  lemma MonthStep(mp: int, yoe: int)
    requires 0 <= mp <= 11
    ensures mp < 11 ==> MonthStart(mp + 1) == MonthStart(mp) + MonthLength(mp, yoe)
    ensures MonthStart(11) + MonthLength(11, yoe) - 1 == LastDay(yoe)
  {
  }

  lemma MonthsAgree(d: CivilDate)
    requires IsDate(d)
    ensures
      var y := if d.month <= 2 then d.year - 1 else d.year;
      DaysInMonth(d.year, d.month).value == MonthLength(d.month + if d.month > 2 then -3 else 9, y % 400)
  {
    LeapIsLong(d.year - 1);
  }

  /** The day number grows by exactly one from each date to the next. */
  lemma NextDayIsNext(d: CivilDate)
    requires IsDate(d)
    ensures IsDate(NextDay(d)) && DayNumber(NextDay(d)) == DayNumber(d) + 1
  {
    hide DayNumber, MarchNumber, MonthLength;
    var y, mp, doy := MarchForm(d);
    var y', mp', doy' := MarchForm(NextDay(d));
    MonthsAgree(d);
    MonthStep(mp, y % 400);
    if y' == y {
      LaterInYear(y, doy, doy');
    } else {
      YearStep(y);
    }
  }

  lemma Epoch()
    ensures DaysFromCivil(CivilDate(1970, 1, 1)) == Some(0)
  {
  }
}
