/** Proleptic Gregorian days. Day 0 is 1 January 1970; months run from 0 to 11, as in ECMAScript. */
module CivilDate {

  predicate Leap(y: int) { y % 4 == 0 && (y % 100 != 0 || y % 400 == 0) }

  function DaysInYear(y: int): int { if Leap(y) then 366 else 365 }

  function MonthDays(y: int, m: int): int
    requires 0 <= m < 12
  {
    if m == 1 then (if Leap(y) then 29 else 28)
    else if m == 3 || m == 5 || m == 8 || m == 10 then 30
    else 31
  }

  /** Day number of 1 January of year `y` (ECMA-262 5.1, section 15.9.1.3). */
  function YearStart(y: int): int {
    365 * (y - 1970) + (y - 1969) / 4 - (y - 1901) / 100 + (y - 1601) / 400
  }

  /** Days before month `m` of a year. */
  function MonthStart(y: int, m: int): int
    requires 0 <= m < 12
  {
    var leap := if Leap(y) then 1 else 0;
    if m == 0 then 0
    else if m == 1 then 31
    else if m == 2 then 59 + leap
    else if m == 3 then 90 + leap
    else if m == 4 then 120 + leap
    else if m == 5 then 151 + leap
    else if m == 6 then 181 + leap
    else if m == 7 then 212 + leap
    else if m == 8 then 243 + leap
    else if m == 9 then 273 + leap
    else if m == 10 then 304 + leap
    else 334 + leap
  }

  datatype Civil = Civil(year: int, month: int, day: int)

  ghost predicate IsCivil(c: Civil) {
    0 <= c.month < 12 && 1 <= c.day <= MonthDays(c.year, c.month)
  }

  function DayOf(c: Civil): int
    requires 0 <= c.month < 12
  {
    YearStart(c.year) + MonthStart(c.year, c.month) + c.day - 1
  }

  /** The year that contains a day: the quotient by the mean year length is off by at most one. */
  function YearOf(day: int): int {
    var y := 1970 + 400 * day / 146097;
    if day < YearStart(y) then y - 1
    else if day >= YearStart(y + 1) then y + 1
    else y
  }

  function MonthOfYearDay(y: int, n: int): int {
    if n < MonthStart(y, 1) then 0
    else if n < MonthStart(y, 2) then 1
    else if n < MonthStart(y, 3) then 2
    else if n < MonthStart(y, 4) then 3
    else if n < MonthStart(y, 5) then 4
    else if n < MonthStart(y, 6) then 5
    else if n < MonthStart(y, 7) then 6
    else if n < MonthStart(y, 8) then 7
    else if n < MonthStart(y, 9) then 8
    else if n < MonthStart(y, 10) then 9
    else if n < MonthStart(y, 11) then 10
    else 11
  }

  function CivilOf(day: int): Civil {
    var y := YearOf(day);
    var n := day - YearStart(y);
    var m := MonthOfYearDay(y, n);
    Civil(y, m, n - MonthStart(y, m) + 1)
  }

  lemma FourYears(y: int)
    ensures (y + 1 - 1969) / 4 == (y - 1969) / 4 + if y % 4 == 0 then 1 else 0
  {}

  lemma Century(y: int)
    ensures (y + 1 - 1901) / 100 == (y - 1901) / 100 + if y % 100 == 0 then 1 else 0
  {}

  lemma FourCenturies(y: int)
    ensures (y + 1 - 1601) / 400 == (y - 1601) / 400 + if y % 400 == 0 then 1 else 0
  {}

  lemma LeapDivides(y: int)
    ensures y % 400 == 0 ==> y % 100 == 0
    ensures y % 100 == 0 ==> y % 4 == 0
  {}

  lemma YearLength(y: int)
    ensures YearStart(y + 1) == YearStart(y) + DaysInYear(y)
  {
    FourYears(y);
    Century(y);
    FourCenturies(y);
    LeapDivides(y);
  }

  lemma YearOfContains(day: int)
    ensures YearStart(YearOf(day)) <= day < YearStart(YearOf(day) + 1)
  {}

  lemma MonthLength(y: int, m: int)
    requires 0 <= m < 12
    ensures MonthStart(y, m) + MonthDays(y, m) == if m == 11 then DaysInYear(y) else MonthStart(y, m + 1)
  {}

  lemma YearOfUnique(day: int, y: int)
    requires YearStart(y) <= day < YearStart(y + 1)
    ensures YearOf(day) == y
  {}

  lemma MonthOfYearDayContains(y: int, n: int)
    requires 0 <= n < DaysInYear(y)
    ensures var m := MonthOfYearDay(y, n);
            0 <= m < 12 && MonthStart(y, m) <= n < MonthStart(y, m) + MonthDays(y, m)
  {}

  lemma MonthOfYearDayUnique(y: int, m: int, n: int)
    requires 0 <= m < 12 && MonthStart(y, m) <= n < MonthStart(y, m) + MonthDays(y, m)
    ensures MonthOfYearDay(y, n) == m && 0 <= n < DaysInYear(y)
  {}

  /** Every day has a civil date, and it is the date of that day. */
  lemma CivilOfDay(day: int)
    ensures IsCivil(CivilOf(day)) && DayOf(CivilOf(day)) == day
  {
    var y := YearOf(day);
    YearOfContains(day);
    YearLength(y);
    MonthOfYearDayContains(y, day - YearStart(y));
  }

  /** Every civil date is the date of exactly one day. */
  lemma DayOfCivil(c: Civil)
    requires IsCivil(c)
    ensures CivilOf(DayOf(c)) == c
  {
    var n := MonthStart(c.year, c.month) + c.day - 1;
    MonthOfYearDayUnique(c.year, c.month, n);
    YearLength(c.year);
    YearOfUnique(DayOf(c), c.year);
  }

  /** Different days have different dates. */
  lemma SameCivilSameDay(a: int, b: int)
    ensures CivilOf(a) == CivilOf(b) <==> a == b
  {
    hide CivilOf, DayOf;
    CivilOfDay(a);
    CivilOfDay(b);
  }

  /** Sunday is 0. */
  function Weekday(day: int): int { (day + 4) % 7 }

  /** MakeDay (ECMA-262 5.1, section 15.9.1.12): months and days overflow in either direction. */
  function MakeDay(y: int, m: int, d: int): int {
    DayOf(Civil(y + m / 12, m % 12, 1)) + d - 1
  }

  /** Without an overflowing month, only the day overflows. */
  lemma MakeDayOfMonth(y: int, m: int, d: int)
    requires 0 <= m < 12
    ensures MakeDay(y, m, d) == DayOf(Civil(y, m, d))
  {
    hide YearStart, MonthStart;
    assert m / 12 == 0 && m % 12 == m;
  }

  lemma DayOfLinear(y: int, m: int, d: int, e: int)
    requires 0 <= m < 12
    ensures DayOf(Civil(y, m, e)) == DayOf(Civil(y, m, d)) + e - d
  {
    hide YearStart, MonthStart;
  }

  /** Setting the day of month moves by the difference, into other months if need be. */
  lemma SetDayMoves(day: int, d: int)
    ensures var c := CivilOf(day); MakeDay(c.year, c.month, d) == day + d - c.day
  {
    hide CivilOf, MakeDay, DayOf, MonthDays;
    var c := CivilOf(day);
    CivilOfDay(day);
    MakeDayOfMonth(c.year, c.month, d);
    DayOfLinear(c.year, c.month, c.day, d);
  }

  /** A 29 February moved to a common year is 1 March. */
  lemma LeapDaySpills(y: int)
    requires !Leap(y)
    ensures CivilOf(DayOf(Civil(y, 1, 29))) == Civil(y, 2, 1)
  {
    hide CivilOf, YearStart;
    assert DayOf(Civil(y, 1, 29)) == DayOf(Civil(y, 2, 1));
    DayOfCivil(Civil(y, 2, 1));
  }

  // ---------------------------------------------------------------------------------------
  // Day of the year
  // ---------------------------------------------------------------------------------------

  /** Lengths of the first `m` months of year `y`, added up. */
  function MonthSum(y: int, m: nat): int
    requires m <= 12
  {
    if m == 0 then 0 else MonthSum(y, m - 1) + MonthDays(y, m - 1)
  }

  lemma {:induction false} MonthSumIsStart(y: int, m: nat)
    requires m <= 12
    ensures MonthSum(y, m) == if m == 12 then DaysInYear(y) else MonthStart(y, m)
  {
    if m > 0 {
      MonthSumIsStart(y, m - 1);
      MonthLength(y, m - 1);
    }
  }

  /** The calendar is anchored at a Thursday, 1 January 1970; weekdays repeat every 7 days and
      dates every 400 years. */
  lemma Anchored(y: int, day: int)
    ensures CivilOf(0) == Civil(1970, 0, 1) && Weekday(0) == 4
    ensures 0 <= Weekday(day) < 7 && Weekday(day + 1) == if Weekday(day) == 6 then 0 else Weekday(day) + 1
    ensures YearStart(y + 400) == YearStart(y) + 146097 && Weekday(YearStart(y + 400)) == Weekday(YearStart(y))
  {
    hide CivilOf, YearStart;
    Epoch();
    GregorianCycle(y);
  }

  lemma Epoch()
    ensures CivilOf(0) == Civil(1970, 0, 1)
  {
    hide CivilOf;
    DayOfCivil(Civil(1970, 0, 1));
  }

  lemma GregorianCycle(y: int)
    ensures YearStart(y + 400) == YearStart(y) + 146097
  {
    assert (y + 400 - 1969) / 4 == (y - 1969) / 4 + 100;
    assert (y + 400 - 1901) / 100 == (y - 1901) / 100 + 4;
  }
}
