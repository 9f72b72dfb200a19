/** Formats that lack some of the fields: what is taken for the missing ones. */
module PartialFormats {
  import opened CivilDate
  import opened JsDates
  import opened DateFormat
  import opened DateRoundTrip

  lemma OccursFront(b: string, p: char -> bool)
    requires b != ""
    ensures Occurs(b, 0, p) <==> Occurs(b[..|b| - 1], 0, p) || p(b[|b| - 1])
  {
    var front := b[..|b| - 1];
    if i :| 0 <= i < |front| && p(front[i]) { assert p(b[i]); }
    if i :| 0 <= i < |b| && p(b[i]) { assert i < |front| ==> p(front[i]); }
  }

  lemma {:induction false} LastOccurrence(b: string, p: char -> bool) returns (k: int)
    requires Occurs(b, 0, p)
    ensures LastAt(b, k, p)
  {
    OccursFront(b, p);
    k := |b| - 1;
    if !p(b[k]) { k := LastOccurrence(b[..|b| - 1], p); }
  }

  /** Without a specifier the year is 0, the month -1 and the day 0, which stand for none, and the
      time is midnight; but afternoon marks alone make it noon. */
  lemma {:induction false} FieldsLacking(v: Instant, b: string)
    requires IsInstant(v)
    ensures !Occurs(b, 0, YearSpec) ==> Expected(v, b).y == N(0)
    ensures !Occurs(b, 0, MonthSpec) ==> Expected(v, b).m == N(-1)
    ensures !Occurs(b, 0, DaySpec) ==> Expected(v, b).d == N(0)
    ensures !Occurs(b, 0, MinuteSpec) ==> Expected(v, b).min == N(0)
    ensures !Occurs(b, 0, HourSpec) ==>
              Expected(v, b).hr == if Occurs(b, 0, MeridiemSpec) && v.Hours() >= 12 then N(12) else N(0)
  {
    hide CivilOf, Occurs, Meridiem, Hour12, TwoDigitYear, Instant.Hours, Instant.Minutes;
    if b != "" {
      FieldsLacking(v, b[..|b| - 1]);
      OccursFront(b, YearSpec);
      OccursFront(b, MonthSpec);
      OccursFront(b, DaySpec);
      OccursFront(b, MinuteSpec);
      OccursFront(b, HourSpec);
      OccursFront(b, MeridiemSpec);
      MeridiemText(Expected(v, b[..|b| - 1]).hr);
    } else {
      NothingOccurs();
    }
  }

  lemma NothingOccurs()
    ensures forall p: char -> bool :: !Occurs("", 0, p)
  {}

  /** Printed text in which year, month or day is missing is guessed at, and only such text. */
  lemma GuessesExactly(loc: Locale, v: Instant, fmt: string, today: Instant)
    requires GoodNames(loc) && Tables(loc) && IsInstant(v) && CivilOf(v.day).year >= 100 && Separated(fmt)
    requires GapRun(Print(loc, v, fmt)) == 0
    ensures var b := Specs(fmt);
            Parse(loc, Print(loc, v, fmt), fmt, today) == Guess <==>
            !(Occurs(b, 0, YearSpec) && Occurs(b, 0, MonthSpec) && Occurs(b, 0, DaySpec))
    ensures !Parse(loc, Print(loc, v, fmt), fmt, today).NoSpecifiers?
  {
    hide CivilOf, GoodNames, Print, Separated, Split, LocalInstant, TwoDigitYear, Expected, FieldsAfter, Specs,
         GapRun, Instant.Hours, Instant.Minutes, Occurs, LastAt;
    var b, k := Specs(fmt), CivilOf(v.day);
    FieldsRead(loc, v, fmt);
    FieldsLacking(v, b);
    PrintedRanges(v);
    TwoDigits(k.year);
    if Occurs(b, 0, YearSpec) {
      var ky := LastOccurrence(b, YearSpec);
      LastIndex(b, ky, YearSpec);
      ExpectedYear(v, b, ky);
    }
    if Occurs(b, 0, MonthSpec) { ExpectedMonth(v, b); }
    if Occurs(b, 0, DaySpec) { ExpectedDay(v, b); }
  }

  /** A format with a date and no time brings the date back at midnight, under the same condition on
      the year as a format with a time. */
  lemma DateOnlyRoundTrip(loc: Locale, v: Instant, fmt: string, today: Instant, ky: int)
    requires GoodNames(loc) && Tables(loc) && IsInstant(v) && Separated(fmt)
    requires IsInstant(today) && CivilOf(today.day).year >= 100
    requires LastAt(Specs(fmt), ky, YearSpec) && Occurs(Specs(fmt), 0, MonthSpec) && Occurs(Specs(fmt), 0, DaySpec)
    requires !Occurs(Specs(fmt), 0, HourSpec) && !Occurs(Specs(fmt), 0, MeridiemSpec)
    requires !Occurs(Specs(fmt), 0, MinuteSpec)
    requires GapRun(Print(loc, v, fmt)) == 0
    ensures Parse(loc, Print(loc, v, fmt), fmt, today) == Date(Instant(v.day, 0)) <==>
            && CivilOf(v.day).year >= 100
            && (Specs(fmt)[ky] == 'Y' || 1930 <= CivilOf(v.day).year <= 2029)
  {
    hide CivilOf, GoodNames, Print, Separated, LastAt, Occurs, Parse, Specs, GapRun;
    LastIndex(Specs(fmt), ky, YearSpec);
    if CivilOf(v.day).year >= 100 {
      DateOnlyFrom100(loc, v, fmt, today, ky);
    } else if Parse(loc, Print(loc, v, fmt), fmt, today) == Date(Instant(v.day, 0)) {
      ParsedYearFrom100(loc, Print(loc, v, fmt), fmt, today);
    }
  }

  lemma DateOnlyFrom100(loc: Locale, v: Instant, fmt: string, today: Instant, ky: int)
    requires GoodNames(loc) && Tables(loc) && IsInstant(v) && CivilOf(v.day).year >= 100 && Separated(fmt)
    requires LastAt(Specs(fmt), ky, YearSpec) && Occurs(Specs(fmt), 0, MonthSpec) && Occurs(Specs(fmt), 0, DaySpec)
    requires !Occurs(Specs(fmt), 0, HourSpec) && !Occurs(Specs(fmt), 0, MeridiemSpec)
    requires !Occurs(Specs(fmt), 0, MinuteSpec)
    requires GapRun(Print(loc, v, fmt)) == 0
    ensures Parse(loc, Print(loc, v, fmt), fmt, today) == Date(Instant(v.day, 0)) <==>
            Specs(fmt)[ky] == 'Y' || 1930 <= CivilOf(v.day).year <= 2029
  {
    hide CivilOf, GoodNames, Print, Separated, Split, LocalInstant, TwoDigitYear, Expected, FieldsAfter, Specs,
         GapRun, Instant.Hours, Instant.Minutes, Occurs, LastAt;
    var b, k := Specs(fmt), CivilOf(v.day);
    LastIndex(b, ky, YearSpec);
    FieldsRead(loc, v, fmt);
    FieldsLacking(v, b);
    ExpectedYear(v, b, ky);
    ExpectedMonth(v, b);
    ExpectedDay(v, b);
    PrintedRanges(v);
    TwoDigits(k.year);
    Midnight(v.day);
    RebuiltExactly(Instant(v.day, 0), if b[ky] == 'Y' then k.year else TwoDigitYear(k.year), 0);
  }

  lemma Midnight(day: int)
    ensures IsInstant(Instant(day, 0)) && Instant(day, 0).Hours() == 0 && Instant(day, 0).Minutes() == 0
    ensures Truncated(Instant(day, 0)) == Instant(day, 0)
  {}
}
