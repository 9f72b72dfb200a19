/** The mutable ECMAScript date, in a zone with a fixed offset, and the methods that the calendar
    widget adds to it. */
module JsDates {
  import opened CivilDate
  import opened IsoWeek

  const DAY_MS := 86_400_000

  /** A local instant: a day and the milliseconds since its midnight. */
  datatype Instant = Instant(day: int, time: int) {
    function Millis(): int { day * DAY_MS + time }

    function Civil(): Civil { CivilOf(day) }

    function Hours(): int { time / 3_600_000 }

    function Minutes(): int { time / 60_000 % 60 }

    function Seconds(): int { time / 1000 % 60 }
  }

  ghost predicate IsInstant(v: Instant) { 0 <= v.time < DAY_MS }

  /** The `Date` constructor reads the years 0 to 99 as 1900 to 1999. */
  function FullYear(y: int): int { if 0 <= y <= 99 then 1900 + y else y }

  /** The instant with these local fields; every field may overflow. */
  function LocalInstant(y: int, m: int, d: int, hours: int, minutes: int, seconds: int): Instant {
    var total := MakeDay(FullYear(y), m, d) * DAY_MS + hours * 3_600_000 + minutes * 60_000 + seconds * 1000;
    Instant(total / DAY_MS, total % DAY_MS)
  }

  /** `getMonthDays` of the widget: table of lengths with the leap rule for February. */
  function GetMonthDays(year: int, month: int): (r: int)
    requires 0 <= month < 12
    ensures r == MonthDays(year, month)
  {
    if year % 4 == 0 && (year % 100 != 0 || year % 400 == 0) && month == 1 then 29
    else [31, 28, 31, 30, 31, 30, 31, 31, 30, 31, 30, 31][month]
  }

  /** The day with the given year and month whose day of month is capped at the month's length. */
  function CappedDay(y: int, m: int, d: int): int
    requires 0 <= m < 12
  {
    DayOf(Civil(y, m, if d <= MonthDays(y, m) then d else MonthDays(y, m)))
  }

  /** Math.round of a quotient: half-way cases go up. */
  function RoundedQuotient(a: int, b: int): int
    requires b > 0
  {
    (2 * a + b) / (2 * b)
  }

  lemma MinuteOfDay(v: Instant)
    ensures v.time / 60_000 == 60 * v.Hours() + v.Minutes() && 0 <= v.Minutes() < 60
  {}

  lemma LocalMidnight(y: int, m: int, d: int)
    ensures LocalInstant(y, m, d, 0, 0, 0) == Instant(MakeDay(FullYear(y), m, d), 0)
  {
    hide MakeDay, FullYear;
  }

  lemma MidnightMillis(a: int, b: int)
    ensures Instant(a, 0).Millis() - Instant(b, 0).Millis() == (a - b) * DAY_MS
  {}

  /** The two cases of the patched setter: the plain setter keeps the month, and then it also
      caps the day; or it spills, and going through the 28th caps the day. */
  lemma CappedYear(day: int, y: int)
    ensures var c := CivilOf(day);
            var plain := MakeDay(y, c.month, c.day);
            var back := day + 28 - c.day;
            && 0 <= c.month < 12
            && (CivilOf(plain).month == c.month ==> plain == CappedDay(y, c.month, c.day))
            && (CivilOf(plain).month != c.month ==>
                  MakeDay(y, CivilOf(back).month, CivilOf(back).day) == CappedDay(y, c.month, c.day))
  {
    hide CivilOf, MakeDay, YearStart, MonthStart, DayOf;
    var c := CivilOf(day);
    CivilOfDay(day);
    MakeDayOfMonth(y, c.month, c.day);
    if c.day <= MonthDays(y, c.month) {
      DayOfCivil(Civil(y, c.month, c.day));
    } else {
      assert c.month == 1 && c.day == 29 && !Leap(y);
      LeapDaySpills(y);
      DayOfLinear(c.year, 1, 29, 28);
      DayOfCivil(Civil(c.year, 1, 28));
      MakeDayOfMonth(y, 1, 28);
    }
  }

  /** The four setter calls of `setDateOnly`, as days. */
  lemma FieldByField(day: int, target: int)
    ensures var c, t := CivilOf(day), CivilOf(target);
            var d1 := day + 1 - c.day;
            var d2 := CappedDay(t.year, CivilOf(d1).month, CivilOf(d1).day);
            var d3 := MakeDay(CivilOf(d2).year, t.month, CivilOf(d2).day);
            && 0 <= CivilOf(d1).month < 12
            && d3 + t.day - CivilOf(d3).day == target
  {
    hide CivilOf, MakeDay, YearStart, MonthStart, DayOf;
    var c, t := CivilOf(day), CivilOf(target);
    CivilOfDay(day);
    CivilOfDay(target);
    DayOfLinear(c.year, c.month, c.day, 1);
    DayOfCivil(Civil(c.year, c.month, 1));
    DayOfCivil(Civil(t.year, c.month, 1));
    MakeDayOfMonth(t.year, t.month, 1);
    DayOfCivil(Civil(t.year, t.month, 1));
    DayOfLinear(t.year, t.month, 1, t.day);
  }

  /** Every step of `getWeekNumber`, as days: the nearest Thursday and 4 January of its year. */
  lemma WeekSteps(day: int)
    ensures var t := day - (Weekday(day) + 6) % 7 + 3;
            var january := MakeDay(CivilOf(t).year, 0, CivilOf(t).day);
            var fourth := january + 4 - CivilOf(january).day;
            RoundedQuotient((t - fourth) * DAY_MS, 7 * DAY_MS) + 1 == WeekOf(day)
  {
    hide CivilOf, MakeDay, YearStart, DayOf, Thursdays, YearOf, Weekday;
    var t := ThursdayOf(day);
    var c := CivilOf(t);
    CivilOfDay(t);
    CivilYear(t);
    MakeDayOfMonth(c.year, 0, c.day);
    DayOfCivil(Civil(c.year, 0, c.day));
    FourthOfJanuary(c.year, c.day);
    ThursdayIsThursday(day);
    ThursdayOfWeek(day);
    RoundedDistance(YearStart(c.year), t);
    DayQuotient(t - (YearStart(c.year) + 3));
  }

  lemma CivilYear(day: int)
    ensures CivilOf(day).year == YearOf(day)
  {}

  lemma FourthOfJanuary(y: int, d: int)
    ensures DayOf(Civil(y, 0, d)) + 4 - d == YearStart(y) + 3
  {}

  lemma DayQuotient(days: int)
    ensures RoundedQuotient(days * DAY_MS, 7 * DAY_MS) == (2 * days + 7) / 14
  {}

  /** Outside the years 0 to 99 the constructor keeps the year, so a rebuilt date is the date. */
  lemma RebuiltDay(day: int)
    requires !(0 <= CivilOf(day).year <= 99)
    ensures var c := CivilOf(day); MakeDay(FullYear(c.year), c.month, c.day) == day
  {
    hide CivilOf, MakeDay;
    CivilOfDay(day);
    MakeDayOfMonth(CivilOf(day).year, CivilOf(day).month, CivilOf(day).day);
  }

  /** The number that `getWeekNumber` returns: the ISO week of the rebuilt date. */
  function WeekNumber(day: int): int {
    WeekOf(MakeDay(FullYear(CivilOf(day).year), CivilOf(day).month, CivilOf(day).day))
  }

  /** Outside the years 0 to 99 that is its own ISO week. */
  lemma OwnWeek(day: int)
    requires !(0 <= CivilOf(day).year <= 99)
    ensures WeekNumber(day) == WeekOf(day)
  {
    hide CivilOf, MakeDay, WeekOf, FullYear;
    RebuiltDay(day);
  }

  /** The number that `getDayOfYear` returns. */
  function DayOfYear(day: int): int {
    MakeDay(FullYear(CivilOf(day).year), CivilOf(day).month, CivilOf(day).day) -
    YearStart(FullYear(CivilOf(day).year)) + 1
  }

  /** The day of the year is the sum of the lengths of the earlier months plus the day of
      month, for every date; outside the years 0 to 99 it runs from 1 to 365 or 366. */
  lemma DayOfYearCounts(day: int)
    ensures var c := CivilOf(day);
            && 0 <= c.month < 12
            && DayOfYear(day) == MonthSum(FullYear(c.year), c.month) + c.day
            && (!(0 <= c.year <= 99) ==> 1 <= DayOfYear(day) <= if Leap(c.year) then 366 else 365)
  {
    hide CivilOf, MakeDay, MonthStart, YearStart, MonthDays;
    var c := CivilOf(day);
    CivilOfDay(day);
    MakeDayOfMonth(FullYear(c.year), c.month, c.day);
    MonthSumIsStart(FullYear(c.year), c.month);
    MonthLength(c.year, c.month);
    MonthStartInYear(c.year, c.month);
  }

  lemma MonthStartInYear(y: int, m: int)
    requires 0 <= m < 12
    ensures 0 <= MonthStart(y, m) <= DaysInYear(y) - MonthDays(y, m)
  {}

  /** Rebuilding a year keeps its leap rule, except that year 0 becomes 1900. */
  lemma RebuiltMonths(y: int, m: int)
    requires 0 <= m < 12
    ensures MonthStart(FullYear(y), m) == MonthStart(y, m) - if y == 0 && m >= 2 then 1 else 0
  {
    if 1 <= y <= 99 { LeapAgain(y); }
  }

  lemma LeapAgain(y: int)
    requires 1 <= y <= 99
    ensures Leap(1900 + y) <==> Leap(y)
  {}

  /** The day of the year is the distance from the start of the year, but for the second part of
      year 0, which is a leap year and is counted as 1900. */
  lemma DayOfYearIsDistance(day: int)
    ensures var c := CivilOf(day);
            DayOfYear(day) == day - YearStart(c.year) + 1 - if c.year == 0 && c.month >= 2 then 1 else 0
  {
    hide CivilOf, MakeDay, MonthStart, YearStart, MonthDays, FullYear;
    var c := CivilOf(day);
    CivilOfDay(day);
    MakeDayOfMonth(FullYear(c.year), c.month, c.day);
    RebuiltMonths(c.year, c.month);
  }

  /** Year and day of the year determine the date, except that 29 February and 1 March of year 0
      share their number. */
  lemma DayOfYearDetermines(a: int, b: int)
    requires CivilOf(a).year == CivilOf(b).year
    ensures var leapDay, next := DayOf(Civil(0, 1, 29)), DayOf(Civil(0, 2, 1));
            DayOfYear(a) == DayOfYear(b) <==> a == b || (a == leapDay && b == next) || (a == next && b == leapDay)
  {
    hide CivilOf, MakeDay, YearStart, DayOfYear, DayOf, MonthDays;
    DayOfYearIsDistance(a);
    DayOfYearIsDistance(b);
    SecondPartOfYear0(a);
    SecondPartOfYear0(b);
    LeapDayOfYear0();
  }

  lemma SecondPartOfYear0(day: int)
    ensures CivilOf(day).year == 0 ==> (CivilOf(day).month >= 2 <==> day >= DayOf(Civil(0, 2, 1)))
  {
    hide CivilOf, YearStart;
    CivilOfDay(day);
    if CivilOf(day).year == 0 { MonthsOfYear0(CivilOf(day)); }
  }

  lemma MonthsOfYear0(c: Civil)
    requires IsCivil(c) && c.year == 0
    ensures c.month >= 2 <==> DayOf(c) >= DayOf(Civil(0, 2, 1))
  {
    hide YearStart;
  }

  lemma LeapDayOfYear0()
    ensures DayOf(Civil(0, 1, 29)) + 1 == DayOf(Civil(0, 2, 1))
    ensures CivilOf(DayOf(Civil(0, 1, 29))) == Civil(0, 1, 29) && CivilOf(DayOf(Civil(0, 2, 1))) == Civil(0, 2, 1)
  {
    hide CivilOf;
    DayOfCivil(Civil(0, 1, 29));
    DayOfCivil(Civil(0, 2, 1));
  }

  /** The clock fields are the digits of the time of day. */
  lemma ClockFields(v: Instant)
    requires IsInstant(v)
    ensures 0 <= v.Hours() < 24 && 0 <= v.Minutes() < 60 && 0 <= v.Seconds() < 60
    ensures v.time == v.Hours() * 3_600_000 + v.Minutes() * 60_000 + v.Seconds() * 1000 + v.time % 1000
  {
    assert v.time / 1000 / 60 == v.time / 60_000 && v.time / 60_000 / 60 == v.time / 3_600_000;
  }

  /** Building a date from its own fields loses nothing but the milliseconds, except that the
      years 0 to 99 turn into 1900 to 1999. */
  lemma LocalFields(y: int, m: int, d: int, h: int, mi: int, sec: int)
    requires 0 <= m < 12 && 1 <= d <= MonthDays(if 0 <= y <= 99 then 1900 + y else y, m)
    requires 0 <= h < 24 && 0 <= mi < 60 && 0 <= sec < 60
    ensures var v := LocalInstant(y, m, d, h, mi, sec);
            && IsInstant(v) && v.Civil() == Civil(if 0 <= y <= 99 then 1900 + y else y, m, d)
            && v.Hours() == h && v.Minutes() == mi && v.Seconds() == sec && v.time % 1000 == 0
  {
    hide CivilOf, MakeDay, MonthDays;
    MakeDayOfMonth(FullYear(y), m, d);
    DayOfCivil(Civil(FullYear(y), m, d));
    DayAndTime(MakeDay(FullYear(y), m, d), h, mi, sec);
  }

  lemma DayAndTime(day: int, h: int, mi: int, sec: int)
    requires 0 <= h < 24 && 0 <= mi < 60 && 0 <= sec < 60
    ensures var time := h * 3_600_000 + mi * 60_000 + sec * 1000;
            && 0 <= time < DAY_MS && (day * DAY_MS + h * 3_600_000 + mi * 60_000 + sec * 1000) / DAY_MS == day
            && (day * DAY_MS + h * 3_600_000 + mi * 60_000 + sec * 1000) % DAY_MS == time
            && time / 3_600_000 == h && time / 60_000 % 60 == mi && time / 1000 % 60 == sec && time % 1000 == 0
  {
    var time := h * 3_600_000 + mi * 60_000 + sec * 1000;
    assert time / 1000 == h * 3600 + mi * 60 + sec && time / 60_000 == h * 60 + mi;
  }

  class JsDate {
    var day: int
    var time: int

    ghost predicate Valid()
      reads this
    {
      0 <= time < DAY_MS
    }

    function Value(): Instant
      reads this
    {
      Instant(day, time)
    }

    function GetFullYear(): int
      reads this
    {
      CivilOf(day).year
    }

    function GetMonth(): int
      reads this
    {
      CivilOf(day).month
    }

    function GetDate(): int
      reads this
    {
      CivilOf(day).day
    }

    function GetDay(): int
      reads this
    {
      Weekday(day)
    }

    constructor Copy(v: Instant)
      ensures Value() == v
    {
      day, time := v.day, v.time;
    }

    constructor Local(y: int, m: int, d: int, hours: int, minutes: int, seconds: int)
      ensures Value() == LocalInstant(y, m, d, hours, minutes, seconds)
    {
      var v := LocalInstant(y, m, d, hours, minutes, seconds);
      day, time := v.day, v.time;
    }

    // ECMAScript setters: the other fields are read, and MakeDay lets the new one overflow.

    method SetDate(d: int)
      modifies this`day
      ensures day == MakeDay(old(GetFullYear()), old(GetMonth()), d)
      ensures day == old(day) + d - old(GetDate())
    {
      hide CivilOf, MakeDay;
      SetDayMoves(day, d);
      day := MakeDay(GetFullYear(), GetMonth(), d);
    }

    method SetMonth(m: int)
      modifies this`day
      ensures day == MakeDay(old(GetFullYear()), m, old(GetDate()))
    {
      day := MakeDay(GetFullYear(), m, GetDate());
    }

    method OldSetFullYear(y: int)
      modifies this`day
      ensures day == MakeDay(y, old(GetMonth()), old(GetDate()))
    {
      day := MakeDay(y, GetMonth(), GetDate());
    }

    /** The patched setter never spills into another month: the day of month is capped. */
    method SetFullYear(y: int)
      modifies this`day
      ensures day == CappedDay(y, old(GetMonth()), old(GetDate()))
    {
      hide CivilOf, MakeDay, CappedDay;
      CappedYear(day, y);
      var d := new JsDate.Copy(Value());
      d.OldSetFullYear(y);
      if d.GetMonth() != GetMonth() {
        SetDate(28);
      }
      OldSetFullYear(y);
    }

    /** Takes over year, month and day of month, in an order in which nothing overflows. */
    method SetDateOnly(v: Instant)
      modifies this`day
      ensures day == v.day
    {
      hide CivilOf, MakeDay, CappedDay;
      FieldByField(day, v.day);
      var tmp := new JsDate.Copy(v);
      SetDate(1);
      SetFullYear(tmp.GetFullYear());
      SetMonth(tmp.GetMonth());
      SetDate(tmp.GetDate());
    }

    /** The ISO week of this date, read in the century that the constructor gives its year. */
    method GetWeekNumber() returns (week: int)
      ensures week == WeekNumber(day)
    {
      hide CivilOf, MakeDay, FullYear, Thursdays, Weekday, RoundedQuotient, LocalInstant, YearStart, YearOf;
      LocalMidnight(GetFullYear(), GetMonth(), GetDate());
      var d := new JsDate.Local(GetFullYear(), GetMonth(), GetDate(), 0, 0, 0);
      WeekSteps(d.day);
      var dow := d.GetDay();
      d.SetDate(d.GetDate() - (dow + 6) % 7 + 3);
      var ms := d.Value().Millis();
      ghost var thursday := d.day;
      d.SetMonth(0);
      d.SetDate(4);
      MidnightMillis(thursday, d.day);
      week := RoundedQuotient(ms - d.Value().Millis(), 7 * DAY_MS) + 1;
    }

    /** Days since the last day of the previous year. */
    method GetDayOfYear() returns (n: int)
      ensures n == DayOfYear(day)
    {
      hide CivilOf, FullYear;
      var now := new JsDate.Local(GetFullYear(), GetMonth(), GetDate(), 0, 0, 0);
      var origin := new JsDate.Local(GetFullYear(), 0, 0, 0, 0, 0);
      n := (now.Value().Millis() - origin.Value().Millis()) / DAY_MS;
    }

    /** Comparing date, hours and minutes is comparing the day and the minute of the day. */
    predicate EqualsTo(other: JsDate): (r: bool)
      reads this, other
      ensures r <==> day == other.day && time / 60_000 == other.time / 60_000
    {
      SameCivilSameDay(day, other.day);
      MinuteOfDay(Value());
      MinuteOfDay(other.Value());
      && GetFullYear() == other.GetFullYear()
      && GetMonth() == other.GetMonth()
      && GetDate() == other.GetDate()
      && Value().Hours() == other.Value().Hours()
      && Value().Minutes() == other.Value().Minutes()
    }
  }
}
