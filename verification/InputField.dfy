/** The input field's format and its variants with other year and hour specifiers. */
module InputField {
  import opened Wrappers
  import opened CivilDate
  import opened JsDates
  import opened Decimals
  import opened DateFormat
  import opened DateRoundTrip

  const IF_FORMAT := "%d/%m/%Y %H:%M"

  /** The same format with the year printed by `%y` and the hour by `%h`. */
  function FieldFormat(y: char, h: char): string {
    ['%', 'd', '/'] + (['%', 'm', '/'] + (['%', y, ' '] + (['%', h, ':'] + ['%', 'M'])))
  }

  lemma IfFormat()
    ensures FieldFormat('Y', 'H') == IF_FORMAT
  {}

  // ---------------------------------------------------------------------------------------
  // Its specifiers
  // ---------------------------------------------------------------------------------------

  /** A specifier and a one-character separator before a format of the class. */
  lemma SeparatedStep(c: char, gap: char, next: string, fmt: string)
    requires OneToken(c) && !IsWord(gap) && gap != '%' && Separated(next)
    requires fmt == ['%', c, gap] + next
    ensures Separated(fmt) && Specs(fmt) == [c] + Specs(next)
  {
    hide Separated, Specs, OneToken, LiteralRun;
    LiteralOnce(gap, next);
    assert fmt[2..] == [gap] + next && ([gap] + next)[1..] == next;
    assert fmt[2..][..1] == [gap] && next[0] == '%' by { SpecStarts(next); }
    SeparatedByDefinition(c, gap, next, fmt);
  }

  lemma LiteralOnce(gap: char, next: string)
    requires gap != '%' && Separated(next)
    ensures LiteralRun([gap] + next) == 1 && Specs([gap] + next) == Specs(next)
  {
    hide Separated;
    SpecStarts(next);
    assert ([gap] + next)[1..] == next;
  }

  lemma SeparatedByDefinition(c: char, gap: char, next: string, fmt: string)
    requires OneToken(c) && !IsWord(gap) && Separated(next) && fmt == ['%', c, gap] + next
    requires fmt[2..] == [gap] + next && LiteralRun(fmt[2..]) == 1 && Specs(fmt[2..]) == Specs(next)
    ensures Separated(fmt) && Specs(fmt) == [c] + Specs(next)
  {
    hide LiteralRun;
    assert fmt[2..][1..] == next && fmt[2..][..1] == [gap];
  }

  lemma SeparatedOne(c: char)
    requires OneToken(c)
    ensures Separated(['%', c]) && Specs(['%', c]) == [c]
  {
    assert ['%', c][2..] == "";
  }

  lemma FieldSpecs(y: char, h: char)
    requires OneToken(y) && OneToken(h)
    ensures Separated(FieldFormat(y, h)) && Specs(FieldFormat(y, h)) == ['d', 'm', y, h, 'M']
  {
    hide Separated, Specs;
    var minute := ['%', 'M'];
    var hour := ['%', h, ':'] + minute;
    var year := ['%', y, ' '] + hour;
    var month := ['%', 'm', '/'] + year;
    SeparatedOne('M');
    SeparatedStep(h, ':', minute, hour);
    SeparatedStep(y, ' ', hour, year);
    SeparatedStep('m', '/', year, month);
    SeparatedStep('d', '/', month, FieldFormat(y, h));
    assert ['d'] + (['m'] + ([y] + ([h] + ['M']))) == ['d', 'm', y, h, 'M'];
  }

  // ---------------------------------------------------------------------------------------
  // Their round trips
  // ---------------------------------------------------------------------------------------

  lemma DayFirst(loc: Locale, v: Instant)
    requires Tables(loc)
    ensures Word(Piece(loc, v, 'd'))
  {
    hide CivilOf, Pad, Word;
    CivilOfDay(v.day);
    NumberWord(CivilOf(v.day).day);
  }

  lemma FiveSpecs(b: string, y: char, h: char)
    requires b == ['d', 'm', y, h, 'M'] && YearSpec(y) && HourSpec(h)
    ensures LastAt(b, 2, YearSpec) && LastAt(b, 3, HourSpec) && !Occurs(b, 3, MeridiemSpec)
    ensures Occurs(b, 0, MonthSpec) && Occurs(b, 0, DaySpec) && Occurs(b, 0, MinuteSpec)
  {
    assert DaySpec(b[0]) && MonthSpec(b[1]) && YearSpec(b[2]) && HourSpec(b[3]) && MinuteSpec(b[4]);
  }

  /** Which dates come back from the field's format and its variants, exactly. */
  lemma FieldRoundTrip(loc: Locale, v: Instant, today: Instant, y: char, h: char)
    requires GoodNames(loc) && Tables(loc) && IsInstant(v) && YearSpec(y) && HourSpec(h)
    requires IsInstant(today) && CivilOf(today.day).year >= 100
    ensures var fmt := FieldFormat(y, h);
            Parse(loc, Print(loc, v, fmt), fmt, today) == Date(Truncated(v)) <==>
            && CivilOf(v.day).year >= 100
            && (y == 'Y' || 1930 <= CivilOf(v.day).year <= 2029)
            && HourKept(h, false, v.Hours(), today.Hours())
  {
    hide CivilOf, Tables, GoodNames, Print, Parse, Piece, Separated, Specs, Word, LastAt, Occurs, GapRun,
         Instant.Hours, Truncated, HourKept;
    var fmt := FieldFormat(y, h);
    FieldSpecs(y, h);
    FiveSpecs(Specs(fmt), y, h);
    DayFirst(loc, v);
    WordStart(loc, v, fmt);
    RoundTrip(loc, v, fmt, today, 2, 3);
  }

  /** The field's own format brings every date back to the minute, exactly from year 100 on. */
  lemma InputFieldRoundTrip(loc: Locale, v: Instant, today: Instant)
    requires GoodNames(loc) && Tables(loc) && IsInstant(v)
    requires IsInstant(today) && CivilOf(today.day).year >= 100
    ensures Parse(loc, Print(loc, v, IF_FORMAT), IF_FORMAT, today) == Date(Truncated(v)) <==>
            CivilOf(v.day).year >= 100
  {
    hide CivilOf, Tables, GoodNames, Print, Parse, FieldFormat;
    FieldRoundTrip(loc, v, today, 'Y', 'H');
    IfFormat();
  }
}
