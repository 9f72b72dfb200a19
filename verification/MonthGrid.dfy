/** The 6 by 7 grid of days that the calendar shows for one date, and navigation by months. */
module MonthGrid {
  import opened CivilDate
  import opened IsoWeek
  import opened JsDates

  // ---------------------------------------------------------------------------------------
  // Months as runs of days
  // ---------------------------------------------------------------------------------------

  function FirstOfMonth(day: int): int { day - CivilOf(day).day + 1 }

  function LengthOfMonth(day: int): int
  {
    var c := CivilOf(day);
    if 0 <= c.month < 12 then MonthDays(c.year, c.month) else 0
  }

  /** The day lies in the month of the date. */
  predicate InMonth(day: int, x: int) {
    FirstOfMonth(day) <= x < FirstOfMonth(day) + LengthOfMonth(day)
  }

  lemma OwnMonth(day: int)
    ensures 28 <= LengthOfMonth(day) <= 31 && InMonth(day, day)
    ensures 0 <= CivilOf(day).month < 12
    ensures LengthOfMonth(day) == MonthDays(CivilOf(day).year, CivilOf(day).month)
    ensures FirstOfMonth(day) == DayOf(Civil(CivilOf(day).year, CivilOf(day).month, 1))
  {
    hide CivilOf, YearStart, MonthStart;
    CivilOfDay(day);
  }

  lemma InMonthCivil(day: int, x: int)
    requires InMonth(day, x)
    ensures CivilOf(x) == Civil(CivilOf(day).year, CivilOf(day).month, x - FirstOfMonth(day) + 1)
    ensures FirstOfMonth(x) == FirstOfMonth(day) && LengthOfMonth(x) == LengthOfMonth(day)
  {
    hide CivilOf, DayOf, MonthDays;
    OwnMonth(day);
    var c := CivilOf(day);
    DayOfLinear(c.year, c.month, 1, x - FirstOfMonth(day) + 1);
    DayOfCivil(Civil(c.year, c.month, x - FirstOfMonth(day) + 1));
  }

  /** Lying in the month is having its year and month. */
  lemma InMonthMeans(day: int, x: int)
    ensures InMonth(day, x) <==> CivilOf(x).year == CivilOf(day).year && CivilOf(x).month == CivilOf(day).month
  {
    hide CivilOf, YearStart, MonthStart;
    OwnMonth(day);
    CivilOfDay(x);
    if InMonth(day, x) { InMonthCivil(day, x); }
  }

  /** The days just before and just after a month lie in its neighbours. */
  lemma NeighbourMonths(y: int, m: int, k: int)
    requires 0 <= m < 12 && 0 <= k < 28
    ensures CivilOf(DayOf(Civil(y, m, 1)) + MonthDays(y, m) + k) ==
            if m == 11 then Civil(y + 1, 0, k + 1) else Civil(y, m + 1, k + 1)
    ensures CivilOf(DayOf(Civil(y, m, 1)) - 1 - k) ==
            if m == 0 then Civil(y - 1, 11, 31 - k) else Civil(y, m - 1, MonthDays(y, m - 1) - k)
  {
    hide CivilOf, YearStart, MonthStart, MonthDays;
    MonthLength(y, m);
    FebruaryOrMore();
    StartOfYear(y);
    StartOfYear(y + 1);
    if m == 11 {
      YearLength(y);
      DayOfCivil(Civil(y + 1, 0, k + 1));
    } else {
      DayOfCivil(Civil(y, m + 1, k + 1));
    }
    if m == 0 {
      YearLength(y - 1);
      MonthLength(y - 1, 11);
      DayOfCivil(Civil(y - 1, 11, 31 - k));
    } else {
      MonthLength(y, m - 1);
      DayOfCivil(Civil(y, m - 1, MonthDays(y, m - 1) - k));
    }
  }

  lemma FebruaryOrMore()
    ensures forall z, m :: 0 <= m < 12 ==> 28 <= MonthDays(z, m)
    ensures forall z :: MonthDays(z, 11) == 31
  {}

  lemma StartOfYear(y: int)
    ensures MonthStart(y, 0) == 0
  {}

  // ---------------------------------------------------------------------------------------
  // The grid
  // ---------------------------------------------------------------------------------------

  /** How far into its first row the month begins. */
  function Lead(day: int, fdow: int): int { (Weekday(FirstOfMonth(day)) - fdow) % 7 }

  function FirstShown(day: int, fdow: int): int { FirstOfMonth(day) - Lead(day, fdow) }

  function CellDay(day: int, fdow: int, i: int, j: int): int { FirstShown(day, fdow) + 7 * i + j }

  /** Among the days shown, comparing months is enough: no month shows twice. */
  lemma ShownMonth(day: int, fdow: int, x: int)
    requires FirstShown(day, fdow) <= x < FirstShown(day, fdow) + 42
    ensures CivilOf(x).month == CivilOf(day).month <==> InMonth(day, x)
  {
    hide CivilOf, DayOf, MonthDays, Weekday;
    OwnMonth(day);
    var c, first := CivilOf(day), FirstOfMonth(day);
    if x < first {
      NeighbourMonths(c.year, c.month, first - 1 - x);
    } else if x < first + LengthOfMonth(day) {
      InMonthCivil(day, x);
    } else {
      NeighbourMonths(c.year, c.month, x - first - LengthOfMonth(day));
    }
  }

  /** Each day of the month is shown in exactly one of the 42 cells, and every cell of column j
      falls on the weekday that column j announces. */
  lemma GridShowsMonth(day: int, fdow: int, x: int)
    requires InMonth(day, x)
    ensures var k := x - FirstShown(day, fdow);
            && 0 <= k < 42
            && CellDay(day, fdow, k / 7, k % 7) == x
            && (forall i, j :: 0 <= i < 6 && 0 <= j < 7 && CellDay(day, fdow, i, j) == x ==> i == k / 7 && j == k % 7)
  {
    hide FirstOfMonth, LengthOfMonth, Weekday;
    OwnMonth(day);
  }

  /** The grid starts in the week of the first of the month, on the first weekday chosen. */
  lemma FirstRow(day: int, fdow: int)
    ensures FirstShown(day, fdow) <= FirstOfMonth(day) < FirstShown(day, fdow) + 7
    ensures Weekday(FirstShown(day, fdow)) == fdow % 7
    ensures InMonth(day, FirstOfMonth(day)) && !InMonth(day, FirstOfMonth(day) - 1)
    ensures CivilOf(FirstOfMonth(day)).day == 1
  {
    hide CivilOf, FirstOfMonth, LengthOfMonth;
    OwnMonth(day);
    ColumnWeekday(day, fdow, 0, 0);
    InMonthCivil(day, FirstOfMonth(day));
  }

  lemma ColumnWeekday(day: int, fdow: int, i: int, j: int)
    ensures Weekday(CellDay(day, fdow, i, j)) == (fdow + j) % 7
  {
    hide FirstOfMonth;
  }

  /** All days of a row lie in one ISO week exactly when the first column is Monday. */
  lemma RowWeek(day: int, fdow: int, i: int)
    ensures (forall j :: 0 <= j < 7 ==> WeekOf(CellDay(day, fdow, i, j)) == WeekOf(CellDay(day, fdow, i, 0))) <==>
            fdow % 7 == 1
  {
    hide FirstOfMonth, WeekOf, YearOfWeek, Lead, YearOf;
    var x := CellDay(day, fdow, i, 0);
    ColumnWeekday(day, fdow, i, 0);
    if fdow % 7 == 1 {
      forall j | 0 <= j < 7 ensures WeekOf(CellDay(day, fdow, i, j)) == WeekOf(x) {
        SameWeek(x, j);
      }
    } else {
      var j := NextMonday(x);
      assert WeekOf(CellDay(day, fdow, i, j)) != WeekOf(x);
    }
  }

  /** Counting from a day that is not a Monday, the next Monday comes within six days, in
      another week. */
  lemma NextMonday(x: int) returns (j: int)
    requires Weekday(x) != 1
    ensures 0 < j < 7 && WeekOf(x + j) != WeekOf(x)
  {
    hide WeekOf, YearOfWeek, YearOf;
    j := MondayOf(x) + 7 - x;
    WeekChanges(x);
    SameWeek(x + 7, 0);
    MondayOfWeekdays(x, 0);
  }

  /** Moving inside the month leaves the grid as it is. */
  lemma SameMonthSameGrid(day: int, fdow: int, x: int)
    requires InMonth(day, x)
    ensures FirstShown(x, fdow) == FirstShown(day, fdow)
    ensures forall z :: InMonth(x, z) <==> InMonth(day, z)
    ensures CivilOf(x).year == CivilOf(day).year
  {
    hide CivilOf;
    InMonthCivil(day, x);
  }

  // ---------------------------------------------------------------------------------------
  // Year range
  // ---------------------------------------------------------------------------------------

  /** What drawing does to a date outside the year range. */
  function Clamped(day: int, minYear: int, maxYear: int): int {
    var c := CivilOf(day);
    if !(0 <= c.month < 12) then day
    else if c.year < minYear then CappedDay(minYear, c.month, c.day)
    else if c.year > maxYear then CappedDay(maxYear, c.month, c.day)
    else day
  }

  lemma CappedCivil(y: int, day: int)
    ensures var c := CivilOf(day);
            && 0 <= c.month < 12
            && CivilOf(CappedDay(y, c.month, c.day)) ==
               Civil(y, c.month, if c.day <= MonthDays(y, c.month) then c.day else MonthDays(y, c.month))
  {
    hide CivilOf, DayOf;
    CivilOfDay(day);
    var c := CivilOf(day);
    DayOfCivil(Civil(y, c.month, if c.day <= MonthDays(y, c.month) then c.day else MonthDays(y, c.month)));
  }

  /** Clamping lands in the range, and leaves a date alone exactly when its year is in range. */
  lemma ClampedInRange(day: int, minYear: int, maxYear: int)
    requires minYear <= maxYear
    ensures minYear <= CivilOf(Clamped(day, minYear, maxYear)).year <= maxYear
    ensures Clamped(day, minYear, maxYear) == day <==> minYear <= CivilOf(day).year <= maxYear
  {
    hide CivilOf, CappedDay;
    CappedCivil(minYear, day);
    CappedCivil(maxYear, day);
  }

  /** Clamping keeps the month, and the day up to the length of the month, and takes the nearer
      bound for the year. */
  lemma ClampedDate(day: int, minYear: int, maxYear: int)
    requires minYear <= maxYear
    ensures var c, k := CivilOf(day), CivilOf(Clamped(day, minYear, maxYear));
            && 0 <= c.month < 12 && k.month == c.month
            && k.year == (if c.year < minYear then minYear else if c.year > maxYear then maxYear else c.year)
            && k.day == if c.day <= MonthDays(k.year, c.month) then c.day else MonthDays(k.year, c.month)
  {
    hide CivilOf, CappedDay, MonthDays;
    CivilOfDay(day);
    CappedCivil(minYear, day);
    CappedCivil(maxYear, day);
  }

  /** At the bounds of the range a single day leads to the far end of the same year. */
  lemma ClampedAtBounds(minYear: int, maxYear: int)
    requires minYear <= maxYear
    ensures Clamped(DayOf(Civil(minYear, 0, 1)) - 1, minYear, maxYear) == DayOf(Civil(minYear, 11, 31))
    ensures Clamped(DayOf(Civil(maxYear, 11, 31)) + 1, minYear, maxYear) == DayOf(Civil(maxYear, 0, 1))
  {
    hide CivilOf, DayOf, MonthDays;
    FebruaryOrMore();
    NeighbourMonths(minYear, 0, 0);
    NeighbourMonths(maxYear, 11, 0);
    DayOfLinear(maxYear, 11, 1, 31);
  }

  // ---------------------------------------------------------------------------------------
  // Month and year buttons
  // ---------------------------------------------------------------------------------------

  /** Months counted from January of year 0. */
  function MonthIndex(day: int): int { 12 * CivilOf(day).year + CivilOf(day).month }

  /** Where a step of `delta` months leads: nowhere when the target leaves the year range. */
  function IndexAfter(index: int, delta: int, minYear: int, maxYear: int): int {
    if 12 * minYear <= index + delta < 12 * (maxYear + 1) then index + delta else index
  }

  /** The date in the month with the given index, with the day capped at the month's length. */
  function InMonthIndex(index: int, d: int): int { CappedDay(index / 12, index % 12, d) }

  function AfterClick(day: int, delta: int, minYear: int, maxYear: int): int {
    InMonthIndex(IndexAfter(MonthIndex(day), delta, minYear, maxYear), CivilOf(day).day)
  }

  lemma InMonthIndexCivil(index: int, d: int)
    requires 1 <= d
    ensures var r := InMonthIndex(index, d);
            && MonthIndex(r) == index
            && CivilOf(r).day == if d <= LengthOfMonth(r) then d else LengthOfMonth(r)
  {
    hide CivilOf, DayOf;
    var y, m := index / 12, index % 12;
    assert index == 12 * y + m;
    FebruaryOrMore();
    DayOfCivil(Civil(y, m, if d <= MonthDays(y, m) then d else MonthDays(y, m)));
  }

  function AfterClicks(day: int, clicks: seq<int>, minYear: int, maxYear: int): int {
    if clicks == [] then day
    else AfterClick(AfterClicks(day, clicks[..|clicks| - 1], minYear, maxYear), clicks[|clicks| - 1], minYear, maxYear)
  }

  /** The month index after a run of clicks, moving by the click or staying when blocked. */
  function IndexAfterClicks(index: int, clicks: seq<int>, minYear: int, maxYear: int): int {
    if clicks == [] then index
    else
      var earlier := IndexAfterClicks(index, clicks[..|clicks| - 1], minYear, maxYear);
      IndexAfter(earlier, clicks[|clicks| - 1], minYear, maxYear)
  }

  /** The smallest of the start day and the lengths of the months visited. */
  function LeastLength(day: int, clicks: seq<int>, minYear: int, maxYear: int): int {
    if clicks == [] then CivilOf(day).day
    else
      var before := LeastLength(day, clicks[..|clicks| - 1], minYear, maxYear);
      var here := LengthOfMonth(AfterClicks(day, clicks, minYear, maxYear));
      if before <= here then before else here
  }

  /** Any run of month and year clicks stays in the year range, moves the month index by exactly
      the clicks that are not blocked, and leaves the day of month at the smallest of the start
      day and the lengths of the months visited. */
  lemma {:induction false} ClicksTraced(day: int, clicks: seq<int>, minYear: int, maxYear: int)
    requires minYear <= CivilOf(day).year <= maxYear
    ensures var r := AfterClicks(day, clicks, minYear, maxYear);
            && minYear <= CivilOf(r).year <= maxYear
            && MonthIndex(r) == IndexAfterClicks(MonthIndex(day), clicks, minYear, maxYear)
            && CivilOf(r).day == LeastLength(day, clicks, minYear, maxYear)
  {
    hide CivilOf, LengthOfMonth, InMonthIndex;
    if clicks != [] {
      var front := clicks[..|clicks| - 1];
      ClicksTraced(day, front, minYear, maxYear);
      var before := AfterClicks(day, front, minYear, maxYear);
      CivilOfDay(before);
      InMonthIndexCivil(IndexAfter(MonthIndex(before), clicks[|clicks| - 1], minYear, maxYear), CivilOf(before).day);
      CivilOfDay(AfterClicks(day, clicks, minYear, maxYear));
    }
  }

  /** One click moves the date by its months when the year it leads to is in the range, capping the
      day at the length of the month, and does nothing otherwise. */
  lemma OneClick(day: int, delta: int, minYear: int, maxYear: int)
    ensures var c, n, r := CivilOf(day), MonthIndex(day) + delta, AfterClick(day, delta, minYear, maxYear);
            if minYear <= n / 12 <= maxYear then
              CivilOf(r) == Civil(n / 12, n % 12, if c.day <= MonthDays(n / 12, n % 12) then c.day
                                                  else MonthDays(n / 12, n % 12))
            else r == day
  {
    hide CivilOf, DayOf, MonthDays;
    CivilOfDay(day);
    FebruaryOrMore();
    NoMove(day);
    var d, n := CivilOf(day).day, MonthIndex(day) + delta;
    var y, m := n / 12, n % 12;
    DayOfCivil(Civil(y, m, if d <= MonthDays(y, m) then d else MonthDays(y, m)));
  }

  /** A blocked click leaves the date alone. */
  lemma NoMove(day: int)
    ensures InMonthIndex(MonthIndex(day), CivilOf(day).day) == day
  {
    hide CivilOf, DayOf, MonthDays;
    CivilOfDay(day);
  }
}
