/** ISO 8601 weeks by counting Thursdays: week n of a year is the week of its n-th Thursday
    (ISO 8601:2004, section 2.2.10: the first week holds the first Thursday). */
module IsoWeek {
  import opened CivilDate

  const THURSDAY := 4

  /** The Monday on or before a day. */
  function MondayOf(day: int): int { day - (Weekday(day) + 6) % 7 }

  function ThursdayOf(day: int): int { MondayOf(day) + 3 }

  function YearOfWeek(day: int): int { YearOf(ThursdayOf(day)) }

  /** Number of Thursdays from one day to another, both included. */
  function Thursdays(first: int, last: int): nat
    decreases last - first
  {
    if last < first then 0
    else Thursdays(first, last - 1) + if Weekday(last) == THURSDAY then 1 else 0
  }

  function WeekOf(day: int): nat {
    Thursdays(YearStart(YearOfWeek(day)), ThursdayOf(day))
  }

  function WeeksInYear(y: int): nat { Thursdays(YearStart(y), YearStart(y + 1) - 1) }

  lemma {:induction false} ThursdaysCounted(first: int, last: int)
    requires first <= last + 1
    ensures Thursdays(first, last) == last / 7 - (first - 1) / 7
    decreases last - first
  {
    if first <= last {
      ThursdaysCounted(first, last - 1);
      assert last / 7 == (last - 1) / 7 + if last % 7 == 0 then 1 else 0;
      assert Weekday(last) == THURSDAY <==> last % 7 == 0;
    }
  }

  /** Rounding the distance from 4 January to the Thursday, in weeks, counts the Thursdays:
      the distance from 4 January to the first Thursday is at most three days. */
  lemma RoundedDistance(start: int, thursday: int)
    requires Weekday(thursday) == THURSDAY && start <= thursday
    ensures (2 * (thursday - (start + 3)) + 7) / 14 + 1 == Thursdays(start, thursday)
  {
    hide Thursdays;
    ThursdaysCounted(start, thursday);
  }

  lemma ThursdayIsThursday(day: int)
    ensures Weekday(ThursdayOf(day)) == THURSDAY
  {}

  lemma ThursdayOfWeek(day: int)
    ensures YearStart(YearOfWeek(day)) <= ThursdayOf(day) < YearStart(YearOfWeek(day) + 1)
  {
    YearOfContains(ThursdayOf(day));
  }

  lemma MondayOfWeekdays(day: int, k: int)
    requires 0 <= k < 7
    ensures MondayOf(MondayOf(day) + k) == MondayOf(day)
    ensures MondayOf(day + 7) == MondayOf(day) + 7
  {}

  /** Week and week year are the same from Monday to Sunday, and within a week year the next
      week has the next number. */
  lemma SameWeek(day: int, k: int)
    requires 0 <= k < 7
    ensures WeekOf(MondayOf(day) + k) == WeekOf(day)
    ensures YearOfWeek(MondayOf(day) + k) == YearOfWeek(day)
    ensures YearOfWeek(day + 7) == YearOfWeek(day) ==> WeekOf(day + 7) == WeekOf(day) + 1
  {
    hide YearOf, YearStart, Thursdays;
    MondayOfWeekdays(day, k);
    if YearOfWeek(day + 7) == YearOfWeek(day) {
      ThursdayIsThursday(day);
      ThursdayOfWeek(day);
      NextWeek(YearStart(YearOfWeek(day)), ThursdayOf(day));
    }
  }

  /** The last week of a year is not its first, and the week after it is the first of the next. */
  lemma YearTurns(first: int, end: int, t: int)
    requires Weekday(t) == THURSDAY && first + 365 <= end && first <= t < end <= t + 7
    ensures Thursdays(first, t) > 1 && Thursdays(end, t + 7) == 1
  {
    hide Thursdays;
    ThursdaysCounted(first, t);
    ThursdaysCounted(end, t + 7);
  }

  /** A week later the week number is another one. */
  lemma WeekChanges(day: int)
    ensures WeekOf(day + 7) != WeekOf(day)
  {
    hide YearOf, YearStart, Thursdays, Weekday;
    var y, t := YearOfWeek(day), ThursdayOf(day);
    ThursdayIsThursday(day);
    ThursdayOfWeek(day);
    MondayOfWeekdays(day, 0);
    YearLength(y);
    YearLength(y + 1);
    if t + 7 < YearStart(y + 1) {
      YearOfUnique(t + 7, y);
      NextWeek(YearStart(y), t);
    } else {
      YearOfUnique(t + 7, y + 1);
      YearTurns(YearStart(y), YearStart(y + 1), t);
    }
  }

  lemma NextWeek(first: int, t: int)
    requires Weekday(t) == THURSDAY && first <= t
    ensures Thursdays(first, t + 7) == Thursdays(first, t) + 1
  {
    hide Thursdays;
    ThursdaysCounted(first, t);
    ThursdaysCounted(first, t + 7);
  }

  /** Thursdays in the 365 or 366 days that begin at `start`. */
  lemma ThursdaysInYear(start: int, leap: bool)
    ensures Thursdays(start, start + (if leap then 366 else 365) - 1) ==
            if Weekday(start) == THURSDAY || (leap && Weekday(start) == 3) then 53 else 52
  {
    hide Thursdays;
    ThursdaysCounted(start, start + (if leap then 366 else 365) - 1);
  }

  lemma WeeksInYearCounted(y: int)
    ensures WeeksInYear(y) ==
            if Weekday(YearStart(y)) == THURSDAY || (Leap(y) && Weekday(YearStart(y)) == 3) then 53 else 52
  {
    YearLength(y);
    ThursdaysInYear(YearStart(y), Leap(y));
  }

  lemma WeekInRange(day: int)
    ensures 1 <= WeekOf(day) <= WeeksInYear(YearOfWeek(day))
  {
    ThursdayOfWeek(day);
    ThursdayIsThursday(day);
    CountInRange(YearStart(YearOfWeek(day)), ThursdayOf(day), YearStart(YearOfWeek(day) + 1) - 1);
  }

  lemma CountInRange(first: int, t: int, last: int)
    requires Weekday(t) == THURSDAY && first <= t <= last
    ensures 1 <= Thursdays(first, t) <= Thursdays(first, last)
  {
    hide Thursdays;
    ThursdaysCounted(first, t);
    ThursdaysCounted(first, last);
  }

  lemma LastThursday(first: int, end: int) returns (t: int)
    requires first + 7 <= end
    ensures first <= t < end && Weekday(t) == THURSDAY && Thursdays(first, t) == Thursdays(first, end - 1)
  {
    hide Thursdays;
    t := end - 1 - (end - 1) % 7;
    ThursdaysCounted(first, t);
    ThursdaysCounted(first, end - 1);
  }

  /** A week 53 exists exactly in years that start on a Thursday, or on a Wednesday when leap;
      every week number lies between 1 and 53. */
  lemma Week53(y: int)
    ensures (exists day :: YearOfWeek(day) == y && WeekOf(day) == 53) <==>
            Weekday(YearStart(y)) == THURSDAY || (Leap(y) && Weekday(YearStart(y)) == 3)
    ensures forall day :: YearOfWeek(day) == y ==> 1 <= WeekOf(day) <= 53
  {
    WeeksInYearCounted(y);
    forall day | YearOfWeek(day) == y ensures 1 <= WeekOf(day) <= WeeksInYear(y) {
      WeekInRange(day);
    }
    if WeeksInYear(y) == 53 {
      YearLength(y);
      var t := LastThursday(YearStart(y), YearStart(y + 1));
      ThursdayOfItself(t);
      YearOfUnique(t, y);
      assert YearOfWeek(t) == y && WeekOf(t) == 53;
    }
  }

  lemma ThursdayOfItself(t: int)
    requires Weekday(t) == THURSDAY
    ensures ThursdayOf(t) == t
  {}
}
