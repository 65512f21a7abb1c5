/** The calendar arithmetic `generate_calendar` takes from chrono's `NaiveDate`
    (src/main.rs:140-141, 151, 153-167, 171, 176). A date is a day number: the
    number of days since 1970-01-01 in the proleptic Gregorian calendar. */
module Dates {
  import opened Wrappers
  import opened Text

  // ---------------------------------------------------------------------------
  // The Gregorian calendar
  // ---------------------------------------------------------------------------

  predicate IsLeapYear(y: int) {
    y % 4 == 0 && (y % 100 != 0 || y % 400 == 0)
  }

  function DaysInYear(y: int): int {
    if IsLeapYear(y) then 366 else 365
  }

  function DaysInMonth(y: int, m: int): int
    requires 1 <= m <= 12
  {
    if m == 2 then (if IsLeapYear(y) then 29 else 28)
    else if m == 4 || m == 6 || m == 9 || m == 11 then 30
    else 31
  }

  /** The days of year `y` that lie before the first of month `m`. */
  function DaysBeforeMonth(y: int, m: int): int
    requires 1 <= m <= 12
  {
    [0, 31, 59, 90, 120, 151, 181, 212, 243, 273, 304, 334][m - 1]
      + (if m > 2 && IsLeapYear(y) then 1 else 0)
  }

  /** Leap years among the years 1 .. y - 1 (counted negatively below year 1). */
  function LeapYearsBefore(y: int): int {
    (y - 1) / 4 - (y - 1) / 100 + (y - 1) / 400
  }

  /** The day number of January 1 of year `y`. */
  function DaysBeforeYear(y: int): int {
    365 * (y - 1970) + LeapYearsBefore(y) - LeapYearsBefore(1970)
  }

  lemma DivStep(y: int)
    ensures y / 4 - (y - 1) / 4 == (if y % 4 == 0 then 1 else 0)
    ensures y / 100 - (y - 1) / 100 == (if y % 100 == 0 then 1 else 0)
    ensures y / 400 - (y - 1) / 400 == (if y % 400 == 0 then 1 else 0)
  {
  }

  /** Consecutive years are `DaysInYear` apart. */
  lemma NextYear(y: int)
    ensures DaysBeforeYear(y + 1) == DaysBeforeYear(y) + DaysInYear(y)
  {
    DivStep(y);
  }

  /** The months of a year tile it. */
  lemma MonthsTile(y: int, m: int)
    requires 1 <= m <= 12
    ensures m < 12 ==> DaysBeforeMonth(y, m) + DaysInMonth(y, m) == DaysBeforeMonth(y, m + 1)
    ensures m == 12 ==> DaysBeforeMonth(y, m) + DaysInMonth(y, m) == DaysInYear(y)
  {
  }

  datatype Civil = Civil(year: int, month: int, day: int)

  predicate ValidCivil(c: Civil) {
    1 <= c.month <= 12 && 1 <= c.day <= DaysInMonth(c.year, c.month)
  }

  /** The day number of a year, month and day. */
  function DaysFromCivil(c: Civil): int
    requires 1 <= c.month <= 12
  {
    DaysBeforeYear(c.year) + DaysBeforeMonth(c.year, c.month) + c.day - 1
  }

  function YearUp(z: int, y: int): (r: int)
    requires DaysBeforeYear(y) <= z
    ensures DaysBeforeYear(r) <= z < DaysBeforeYear(r + 1)
    decreases z - DaysBeforeYear(y)
  {
    NextYear(y);
    if z < DaysBeforeYear(y + 1) then y else YearUp(z, y + 1)
  }

  function YearDown(z: int, y: int): (r: int)
    requires z < DaysBeforeYear(y + 1)
    ensures DaysBeforeYear(r) <= z < DaysBeforeYear(r + 1)
    decreases DaysBeforeYear(y + 1) - z
  {
    NextYear(y);
    if DaysBeforeYear(y) <= z then y else YearDown(z, y - 1)
  }

  /** The year in which day `z` falls. */
  function YearOf(z: int): (y: int)
    ensures DaysBeforeYear(y) <= z < DaysBeforeYear(y + 1)
  {
    if z >= 0 then YearUp(z, 1970) else YearDown(z, 1969)
  }

  function MonthFrom(y: int, dayOfYear: int, m: int): (r: int)
    requires 1 <= m <= 12 && 0 <= dayOfYear < DaysInYear(y)
    requires DaysBeforeMonth(y, m) <= dayOfYear
    ensures 1 <= r <= 12
    ensures DaysBeforeMonth(y, r) <= dayOfYear < DaysBeforeMonth(y, r) + DaysInMonth(y, r)
    decreases 12 - m
  {
    MonthsTile(y, m);
    if m == 12 || dayOfYear < DaysBeforeMonth(y, m + 1) then m else MonthFrom(y, dayOfYear, m + 1)
  }

  /** The year, month and day of day number `z`. */
  function CivilFromDays(z: int): (c: Civil)
    ensures ValidCivil(c) && DaysFromCivil(c) == z
  {
    var y := YearOf(z);
    NextYear(y);
    var dayOfYear := z - DaysBeforeYear(y);
    var m := MonthFrom(y, dayOfYear, 1);
    Civil(y, m, dayOfYear - DaysBeforeMonth(y, m) + 1)
  }

  lemma {:induction false} YearsGrow(a: int, b: int)
    requires a <= b
    ensures DaysBeforeYear(a) + 365 * (b - a) <= DaysBeforeYear(b)
    decreases b - a
  {
    if a < b {
      NextYear(a);
      YearsGrow(a + 1, b);
    }
  }

  lemma {:induction false} MonthsGrow(y: int, m1: int, m2: int)
    requires 1 <= m1 < m2 <= 12
    ensures DaysBeforeMonth(y, m1) + DaysInMonth(y, m1) <= DaysBeforeMonth(y, m2)
    decreases m2 - m1
  {
    MonthsTile(y, m1);
    if m1 + 1 < m2 {
      MonthsGrow(y, m1 + 1, m2);
    }
  }

  /** Only one year holds a given day. */
  lemma YearUnique(z: int, y1: int, y2: int)
    requires DaysBeforeYear(y1) <= z < DaysBeforeYear(y1 + 1)
    requires DaysBeforeYear(y2) <= z < DaysBeforeYear(y2 + 1)
    ensures y1 == y2
  {
    if y1 < y2 {
      YearsGrow(y1 + 1, y2);
    } else if y2 < y1 {
      YearsGrow(y2 + 1, y1);
    }
  }

  /** Only one month holds a given day of the year. */
  lemma MonthUnique(y: int, dayOfYear: int, m1: int, m2: int)
    requires 1 <= m1 <= 12 && 1 <= m2 <= 12
    requires DaysBeforeMonth(y, m1) <= dayOfYear < DaysBeforeMonth(y, m1) + DaysInMonth(y, m1)
    requires DaysBeforeMonth(y, m2) <= dayOfYear < DaysBeforeMonth(y, m2) + DaysInMonth(y, m2)
    ensures m1 == m2
  {
    if m1 < m2 {
      MonthsGrow(y, m1, m2);
    } else if m2 < m1 {
      MonthsGrow(y, m2, m1);
    }
  }

  /** A valid date's day number lies in its year, at its place in the year. */
  lemma CivilBracket(c: Civil)
    requires ValidCivil(c)
    ensures DaysBeforeYear(c.year) <= DaysFromCivil(c) < DaysBeforeYear(c.year + 1)
  {
    MonthsTile(c.year, c.month);
    if c.month < 12 {
      MonthsGrow(c.year, c.month, 12);
    }
    MonthsTile(c.year, 12);
    NextYear(c.year);
  }

  /** Different valid dates have different day numbers. */
  lemma DaysFromCivilInjective(c1: Civil, c2: Civil)
    requires ValidCivil(c1) && ValidCivil(c2)
    requires DaysFromCivil(c1) == DaysFromCivil(c2)
    ensures c1 == c2
  {
    var z := DaysFromCivil(c1);
    CivilBracket(c1);
    CivilBracket(c2);
    YearUnique(z, c1.year, c2.year);
    MonthUnique(c1.year, z - DaysBeforeYear(c1.year), c1.month, c2.month);
  }

  /** A valid year, month and day survives the trip to a day number and back. */
  lemma CivilRoundTrip(c: Civil)
    requires ValidCivil(c)
    ensures CivilFromDays(DaysFromCivil(c)) == c
  {
    DaysFromCivilInjective(CivilFromDays(DaysFromCivil(c)), c);
  }

  /** The day of the week, Monday = 0 .. Sunday = 6 (day 0, 1970-01-01, was a Thursday). */
  function DayOfWeek(z: int): int {
    (z + 3) % 7
  }

  // ---------------------------------------------------------------------------
  // chrono's representable dates
  // ---------------------------------------------------------------------------

  /** The years `NaiveDate` represents (`MIN_YEAR` .. `MAX_YEAR` in chrono 0.4). */
  const MinYear: int := -262143
  const MaxYear: int := 262142

  const MinDay: int := DaysFromCivil(Civil(MinYear, 1, 1))
  const MaxDay: int := DaysFromCivil(Civil(MaxYear, 12, 31))

  predicate InRange(z: int) {
    MinDay <= z <= MaxDay
  }

  /** The first day of the term, hard-coded as 2024-09-09 at src/main.rs:140-141. */
  const TermStart: int := DaysFromCivil(Civil(2024, 9, 9))

  /** The term starts on a Monday, within chrono's range. */
  lemma TermStartFacts()
    ensures TermStart == 19975
    ensures DayOfWeek(TermStart) == 0
    ensures InRange(TermStart)
  {
  }

  /** Day number `TermStart` is 2024-09-09 again. */
  lemma TermStartCivil()
    ensures CivilFromDays(TermStart) == Civil(2024, 9, 9)
  {
    var c := Civil(2024, 9, 9);
    CivilRoundTrip(c);
  }

  // ---------------------------------------------------------------------------
  // Projecting a week and a weekday onto a date
  // ---------------------------------------------------------------------------

  /** The weekday names `generate_calendar` recognises, in offset order. */
  const WeekdayNames: seq<string> := ["Mon", "Tue", "Wed", "Thu", "Fri", "Sat", "Sun"]

  /** The weekday lookup of src/main.rs:153-165: the offset
      from Monday, or `None` for any other name (the names are case-sensitive). */
  function DayOffset(day: string): Option<int> {
    if day == "Mon" then Some(0)
    else if day == "Tue" then Some(1)
    else if day == "Wed" then Some(2)
    else if day == "Thu" then Some(3)
    else if day == "Fri" then Some(4)
    else if day == "Sat" then Some(5)
    else if day == "Sun" then Some(6)
    else None
  }

  /** `DayOffset` recognises exactly the seven names, and gives the `k`-th name offset `k`. */
  lemma DayOffsetNames(day: string)
    ensures DayOffset(day).Some? <==> day in WeekdayNames
    ensures forall k :: 0 <= k < 7 ==> DayOffset(WeekdayNames[k]) == Some(k)
    ensures DayOffset(day).Some? ==>
      0 <= DayOffset(day).value < 7 && WeekdayNames[DayOffset(day).value] == day
  {
  }

  /** The first day of week `week`: `week - 1` weeks after `start` (src/main.rs:151). `None`
      stands for the panic: week 0 underflows `week - 1` (a debug build panics at
      once, a release build wraps to `u32::MAX` weeks, see `WrappedWeekZero`),
      and a date beyond chrono's range makes `NaiveDate + Duration` panic. */
  function WeekStart(start: int, week: U32): Option<int> {
    if week == 0 then None
    else if InRange(start + 7 * (week - 1)) then Some(start + 7 * (week - 1))
    else None
  }

  /** The day `days` days after `date` (src/main.rs:167); `None` is the overflow panic. */
  function AddDays(date: int, days: int): Option<int> {
    if InRange(date + days) then Some(date + days) else None
  }

  /** In a release build week 0 becomes `u32::MAX` weeks, which leaves chrono's
      range from any representable start: week 0 panics either way. */
  lemma WrappedWeekZero(start: int)
    requires InRange(start)
    ensures !InRange(start + 7 * (U32Limit - 1))
  {
  }

  /** The date of weekday `day` in week `week` of the term starting at `start`. */
  function ProjectDate(start: int, week: U32, day: string): Option<int> {
    match WeekStart(start, week)
    case None => None
    case Some(weekStart) =>
      match DayOffset(day)
      case None => None
      case Some(offset) => AddDays(weekStart, offset)
  }

  /** A projected date is term start + (week - 1) weeks + the weekday's offset,
      and it falls on that weekday when the term starts on a Monday. */
  lemma ProjectDateValue(start: int, week: U32, day: string)
    requires ProjectDate(start, week, day).Some?
    ensures week >= 1 && DayOffset(day).Some?
    ensures ProjectDate(start, week, day).value == start + 7 * (week - 1) + DayOffset(day).value
    ensures DayOfWeek(start) == 0 ==> DayOfWeek(ProjectDate(start, week, day).value) == DayOffset(day).value
  {
  }

  /** A Monday is exactly `week - 1` weeks after the term start. */
  lemma ProjectMonday(start: int, week: U32)
    requires week >= 1 && InRange(start + 7 * (week - 1))
    ensures ProjectDate(start, week, "Mon") == Some(start + 7 * (week - 1))
  {
  }

  /** Week 1 on a Monday is the term start itself. */
  lemma ProjectFirstMonday(start: int)
    requires InRange(start)
    ensures ProjectDate(start, 1, "Mon") == Some(start)
  {
  }

  /** Consecutive weeks are exactly seven days apart. */
  lemma ProjectNextWeek(start: int, week: U32, day: string)
    requires week + 1 < U32Limit
    requires ProjectDate(start, week, day).Some? && ProjectDate(start, week + 1, day).Some?
    ensures ProjectDate(start, week + 1, day).value == ProjectDate(start, week, day).value + 7
  {
  }

  // ---------------------------------------------------------------------------
  // `%Y%m%d`
  // ---------------------------------------------------------------------------

  /** chrono's `%Y`: four digits, zero-padded, for years 0 .. 9999; outside that,
      a sign and at least four digits. */
  function YearText(y: int): string {
    if 0 <= y <= 9999 then PadZeros(y, 4)
    else if y > 9999 then "+" + PadZeros(y, 4)
    else "-" + PadZeros(-y, 4)
  }

  /** `%Y%m%d` of a year, month and day. */
  function FormatCivil(c: Civil): string
    requires ValidCivil(c)
  {
    YearText(c.year) + PadZeros(c.month, 2) + PadZeros(c.day, 2)
  }

  /** A day number written with chrono's `%Y%m%d` (src/main.rs:171, 176). */
  function FormatYmd(z: int): string {
    FormatCivil(CivilFromDays(z))
  }

  lemma TwoDigits(n: nat)
    requires n < 100
    ensures |PadZeros(n, 2)| == 2 && AllDigits(PadZeros(n, 2)) && DigitsValue(PadZeros(n, 2)) == n
  {
    PadZerosValue(n, 2);
    if n >= 10 {
      assert NatToString(n) == NatToString(n / 10) + [DigitChar(n % 10)];
    }
  }

  lemma YearTextInjective(y1: int, y2: int)
    requires YearText(y1) == YearText(y2)
    ensures y1 == y2
  {
    var t := YearText(y1);
    PadZerosValue(if y1 < 0 then -y1 else y1, 4);
    PadZerosValue(if y2 < 0 then -y2 else y2, 4);
    var p1, p2 := PadZeros(if y1 < 0 then -y1 else y1, 4), PadZeros(if y2 < 0 then -y2 else y2, 4);
    assert IsDigit(p1[0]) && IsDigit(p2[0]);
    if 0 <= y1 <= 9999 {
      assert t[0] == p1[0];
      assert 0 <= y2 <= 9999;
    } else if y1 > 9999 {
      assert t[0] == '+' && t[1..] == p1;
      assert y2 > 9999 && t[1..] == p2;
    } else {
      assert t[0] == '-' && t[1..] == p1;
      assert y2 < 0 && t[1..] == p2;
    }
  }

  /** Different valid dates are written differently. */
  lemma FormatCivilInjective(c1: Civil, c2: Civil)
    requires ValidCivil(c1) && ValidCivil(c2)
    requires FormatCivil(c1) == FormatCivil(c2)
    ensures c1 == c2
  {
    TwoDigits(c1.month);
    TwoDigits(c1.day);
    TwoDigits(c2.month);
    TwoDigits(c2.day);
    var s := FormatCivil(c1);
    var y1, m1, d1 := YearText(c1.year), PadZeros(c1.month, 2), PadZeros(c1.day, 2);
    var y2, m2, d2 := YearText(c2.year), PadZeros(c2.month, 2), PadZeros(c2.day, 2);
    assert s == y1 + m1 + d1 == y2 + m2 + d2;
    assert |y1| == |y2|;
    assert y1 == s[..|y1|] == y2;
    assert m1 == s[|y1|..|y1| + 2] == m2;
    assert d1 == s[|y1| + 2..] == d2;
    YearTextInjective(c1.year, c2.year);
  }

  /** Different dates are written differently: `%Y%m%d` loses nothing. */
  lemma FormatYmdInjective(z1: int, z2: int)
    requires FormatYmd(z1) == FormatYmd(z2)
    ensures z1 == z2
  {
    FormatCivilInjective(CivilFromDays(z1), CivilFromDays(z2));
  }

  /** The text of a date's day number is the text of that date. */
  lemma FormatYmdOfCivil(c: Civil)
    requires ValidCivil(c)
    ensures FormatYmd(DaysFromCivil(c)) == FormatCivil(c)
  {
    CivilRoundTrip(c);
  }

  /** The term start is written `20240909`. */
  lemma TermStartText()
    ensures FormatYmd(TermStart) == "20240909"
  {
    TermStartCivil();
    TermStartCivilText();
  }

  lemma TermStartCivilText()
    ensures FormatCivil(Civil(2024, 9, 9)) == "20240909"
  {
    assert NatToString(2024) == "2024";
  }
}
