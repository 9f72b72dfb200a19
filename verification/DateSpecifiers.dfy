/** What each specifier prints, read back: numbers with their width, names as the grid shows them,
    and the cases in which the specifier itself is printed. */
module DateSpecifiers {
  import opened Wrappers
  import opened CivilDate
  import opened IsoWeek
  import opened JsDates
  import opened Decimals
  import opened DateFormat
  import opened DateRoundTrip
  import opened MonthGrid

  // ---------------------------------------------------------------------------------------
  // Numbers of a given width
  // ---------------------------------------------------------------------------------------

  /** The decimal digits of `n`, with leading zeros up to the width and no others. */
  ghost predicate Numeral(s: string, n: int, width: nat) {
    && s != "" && AllDigits(s) && ReadDigits(s) == n
    && |s| >= width && (|s| > width && |s| > 1 ==> s[0] != '0')
  }

  /** The same with a sign. */
  ghost predicate SignedNumeral(s: string, n: int) {
    if n < 0 then s != "" && s[0] == '-' && Numeral(s[1..], -n, 1) else Numeral(s, n, 1)
  }

  lemma {:induction false} LeadingDigit(s: string)
    requires s != "" && AllDigits(s) && s[0] != '0'
    ensures ReadDigits(s) >= 1 && (|s| >= 2 ==> ReadDigits(s) >= 10)
  {
    if |s| >= 2 {
      LeadingDigit(s[..|s| - 1]);
    } else {
      assert s[..0] == "";
    }
  }

  lemma ShortNumeral(s: string)
    requires |s| == 1 && AllDigits(s)
    ensures ReadDigits(s) == DigitValue(s[0]) < 10
  {
    assert s[..0] == "";
  }

  /** A number has one numeral of each width. */
  lemma {:induction false} NumeralUnique(s: string, t: string, n: int, width: nat)
    requires Numeral(s, n, width) && Numeral(t, n, width) && |s| <= |t|
    ensures s == t
    decreases |s|
  {
    if |t| == 1 {
      ShortNumeral(s);
      ShortNumeral(t);
    } else if |s| == 1 {
      ShortNumeral(s);
      LeadingDigit(t);
    } else {
      var s1, t1 := s[..|s| - 1], t[..|t| - 1];
      assert ReadDigits(s1) == n / 10 == ReadDigits(t1);
      NumeralUnique(s1, t1, n / 10, if width == 0 then 0 else width - 1);
      assert s == s1 + [s[|s| - 1]] && t == t1 + [t[|t| - 1]];
    }
  }

  lemma {:induction false} DecimalNumeral(n: nat)
    ensures Numeral(Decimal(n), n, 1) && (n > 0 ==> Decimal(n)[0] != '0') && (n >= 10 ==> |Decimal(n)| >= 2)
  {
    DecimalReads(n);
    if n >= 10 { DecimalNumeral(n / 10); }
  }

  lemma ZeroFirst(s: string)
    requires AllDigits(s)
    ensures AllDigits("0" + s) && ReadDigits("0" + s) == ReadDigits(s)
    decreases |s|
  {
    if s == "" {
      assert "0"[..0] == "" && "0" + s == "0";
      ShortNumeral("0");
    } else {
      assert ("0" + s)[..|s|] == "0" + s[..|s| - 1];
      ZeroFirst(s[..|s| - 1]);
    }
  }

  lemma PadNumeral(n: nat)
    ensures Numeral(IntText(n), n, 1) && Numeral(Pad(n), n, 2) && Numeral(Pad3(n), n, 3)
  {
    hide Decimal;
    DecimalNumeral(n);
    ZeroFirst(Decimal(n));
    ZeroFirst("0" + Decimal(n));
    assert "0" + ("0" + Decimal(n)) == "00" + Decimal(n);
    ShortDecimal(n);
  }

  lemma ShortDecimal(n: nat)
    ensures n < 10 ==> |Decimal(n)| == 1
    ensures 10 <= n < 100 ==> |Decimal(n)| == 2
    ensures n >= 100 ==> |Decimal(n)| >= 3
  {
    if n >= 100 {
      assert n / 10 / 10 == n / 100;
      DecimalReads(n / 10 / 10);
      assert |Decimal(n / 10)| >= 2;
    } else if n >= 10 {
      assert |Decimal(n / 10)| == 1;
    }
  }

  lemma SignedText(n: int)
    ensures SignedNumeral(IntText(n), n)
  {
    hide Decimal;
    DecimalNumeral(if n < 0 then -n else n);
    if n < 0 { assert IntText(n)[1..] == Decimal(-n); }
  }

  // ---------------------------------------------------------------------------------------
  // Numeric specifiers
  // ---------------------------------------------------------------------------------------

  /** A number in the table of values: 0 is falsy, and the specifier is printed in its place. */
  ghost predicate PrintsNumber(s: string, c: char, n: int) {
    if n == 0 then s == ['%', c] else SignedNumeral(s, n)
  }

  lemma NumberPrinted(c: char, n: int)
    ensures n != 0 ==> NumText(n).Some? && SignedNumeral(NumText(n).value, n)
    ensures PrintsNumber(match NumText(n) case Some(s) => s case None => ['%', c], c, n)
  {
    SignedText(n);
  }

  /** Date specifiers of a fixed width, and those without padding. */
  lemma DatePrinted(loc: Locale, v: Instant)
    requires Tables(loc) && IsInstant(v)
    ensures var k := CivilOf(v.day);
            && Numeral(Piece(loc, v, 'd'), k.day, 2) && Numeral(Piece(loc, v, 'e'), k.day, 1)
            && Numeral(Piece(loc, v, 'm'), k.month + 1, 2) && Numeral(Piece(loc, v, 'j'), DayOfYear(v.day), 3)
            && PrintsNumber(Piece(loc, v, 'Y'), 'Y', k.year)
            && PrintsNumber(Piece(loc, v, 'C'), 'C', 1 + k.year / 100)
  {
    hide CivilOf, DayOfYear, Numeral, IntText, Pad, Pad3, SignedNumeral, Weekday, WeekNumber, Hour12,
         Instant.Hours, Instant.Minutes, Instant.Seconds;
    var k := CivilOf(v.day);
    PrintedRanges(v);
    PadNumeral(k.day);
    PadNumeral(k.month + 1);
    PadNumeral(DayOfYear(v.day));
    NumberPrinted('Y', k.year);
    NumberPrinted('C', 1 + k.year / 100);
  }

  /** Clock specifiers; `%I` and `%l` print the hour from 1 to 12. */
  lemma ClockPrinted(loc: Locale, v: Instant)
    requires Tables(loc) && IsInstant(v)
    ensures var h := v.Hours();
            && Numeral(Piece(loc, v, 'H'), h, 2) && PrintsNumber(Piece(loc, v, 'k'), 'k', h)
            && Numeral(Piece(loc, v, 'I'), (h + 11) % 12 + 1, 2) && Numeral(Piece(loc, v, 'l'), (h + 11) % 12 + 1, 1)
            && Numeral(Piece(loc, v, 'M'), v.Minutes(), 2) && Numeral(Piece(loc, v, 'S'), v.Seconds(), 2)
            && PrintsNumber(Piece(loc, v, 's'), 's', (v.Millis() - loc.offset) / 1000)
            && Piece(loc, v, 'p') == (if h >= 12 then "PM" else "AM")
            && Piece(loc, v, 'P') == (if h >= 12 then "pm" else "am")
  {
    hide CivilOf, DayOfYear, Numeral, IntText, Pad, Pad3, SignedNumeral, Weekday, WeekNumber, Hour12,
         Instant.Hours, Instant.Minutes, Instant.Seconds, Instant.Millis;
    PrintedRanges(v);
    HourOfTwelve(v.Hours());
    PadNumeral(v.Hours());
    PadNumeral(Hour12(v.Hours()));
    PadNumeral(v.Minutes());
    PadNumeral(v.Seconds());
    NumberPrinted('k', v.Hours());
    NumberPrinted('s', (v.Millis() - loc.offset) / 1000);
  }

  lemma HourOfTwelve(h: int)
    requires 0 <= h < 24
    ensures Hour12(h) == (h + 11) % 12 + 1
  {}

  /** Weekday and week specifiers: `%w` counts from Sunday, 0, which prints the specifier; `%u`
      counts from Sunday, 1; `%U`, `%V` and `%W` all print the ISO week. */
  lemma WeekPrinted(loc: Locale, v: Instant)
    requires Tables(loc) && IsInstant(v)
    ensures PrintsNumber(Piece(loc, v, 'w'), 'w', Weekday(v.day))
    ensures Numeral(Piece(loc, v, 'u'), Weekday(v.day) + 1, 1)
    ensures Piece(loc, v, 'U') == Piece(loc, v, 'V') == Piece(loc, v, 'W')
    ensures !(0 <= CivilOf(v.day).year <= 99) ==> Numeral(Piece(loc, v, 'V'), WeekOf(v.day), 2)
  {
    hide CivilOf, DayOfYear, Numeral, IntText, Pad, Pad3, SignedNumeral, Weekday, WeekNumber, Hour12, WeekOf,
         Instant.Hours, Instant.Minutes, Instant.Seconds;
    PrintedRanges(v);
    PadNumeral(WeekNumber(v.day));
    PadNumeral(Weekday(v.day) + 1);
    NumberPrinted('w', Weekday(v.day));
    if !(0 <= CivilOf(v.day).year <= 99) { OwnWeek(v.day); }
  }

  /** ISO 8601 numbers the days of a week from Monday, 1, to Sunday, 7. */
  function IsoDay(day: int): int { if Weekday(day) == 0 then 7 else Weekday(day) }

  /** A remark beside `%u` says that 1 stands for Monday; what is printed is on every day the number
      of the next day. */
  lemma DayNumberAhead(loc: Locale, v: Instant)
    requires Tables(loc) && IsInstant(v)
    ensures Numeral(Piece(loc, v, 'u'), IsoDay(v.day + 1), 1) && IsoDay(v.day + 1) != IsoDay(v.day)
  {
    hide CivilOf, Numeral, Piece;
    WeekPrinted(loc, v);
  }

  /** The year's third and fourth digit, as far as it has them; the specifier in the years 0 to 99. */
  lemma ShortYearPrinted(loc: Locale, v: Instant)
    requires Tables(loc) && IsInstant(v) && CivilOf(v.day).year >= 0
    ensures var full, short := Piece(loc, v, 'Y'), Piece(loc, v, 'y');
            if CivilOf(v.day).year < 100 then short == "%y"
            else
              && |full| >= 3 && 1 <= |short| <= 2 && full[2..2 + |short|] == short
              && (|short| == 1 ==> |full| == 3)
  {
    hide CivilOf, DayOfYear, IntText, Pad, Pad3, Weekday, WeekNumber, Hour12,
         Instant.Hours, Instant.Minutes, Instant.Seconds;
    var y := CivilOf(v.day).year;
    if y >= 100 { YearDigits(y); } else { FewDigits(y); }
  }

  lemma FewDigits(y: nat)
    requires y < 100
    ensures |IntText(y)| <= 2
  {
    ShortDecimal(y);
  }

  // ---------------------------------------------------------------------------------------
  // Reading the numbers back
  // ---------------------------------------------------------------------------------------

  /** `%H`, `%M` and `%S` give the second of the day. */
  lemma ClockReadsBack(loc: Locale, v: Instant)
    requires Tables(loc) && IsInstant(v)
    ensures 3600 * ReadDigits(Piece(loc, v, 'H')) + 60 * ReadDigits(Piece(loc, v, 'M')) +
            ReadDigits(Piece(loc, v, 'S')) == v.time / 1000
  {
    hide Piece;
    hide Instant.Hours, Instant.Minutes, Instant.Seconds;
    ClockPrinted(loc, v);
    ClockFields(v);
  }

  /** `%Y` and `%j` give the day, from year 1 on. */
  lemma OrdinalReadsBack(loc: Locale, v: Instant)
    requires Tables(loc) && IsInstant(v) && CivilOf(v.day).year >= 1
    ensures YearStart(ReadDigits(Piece(loc, v, 'Y'))) + ReadDigits(Piece(loc, v, 'j')) - 1 == v.day
  {
    hide Piece, CivilOf, YearStart, DayOfYear;
    DatePrinted(loc, v);
    DayOfYearIsDistance(v.day);
  }

  /** `%s` gives the second, in UTC, unless it is 0. */
  lemma EpochReadsBack(loc: Locale, v: Instant)
    requires Tables(loc) && IsInstant(v)
    ensures var utc, s := v.Millis() - loc.offset, Piece(loc, v, 's');
            && (utc >= 1000 ==> AllDigits(s) && 1000 * ReadDigits(s) <= utc < 1000 * ReadDigits(s) + 1000)
            && (utc < 0 ==>
                  && s != "" && s[0] == '-' && AllDigits(s[1..])
                  && -1000 * ReadDigits(s[1..]) <= utc < 1000 - 1000 * ReadDigits(s[1..]))
            && (0 <= utc < 1000 ==> s == "%s")
  {
    hide Piece, Instant.Millis;
    ClockPrinted(loc, v);
  }

  // ---------------------------------------------------------------------------------------
  // Names, and everything else
  // ---------------------------------------------------------------------------------------

  /** Names are those of the weekday and of the month that `%m` prints. */
  lemma NamesPrinted(loc: Locale, v: Instant)
    requires Tables(loc) && IsInstant(v)
    ensures var m := ReadDigits(Piece(loc, v, 'm')) - 1;
            && 0 <= m < 12
            && Piece(loc, v, 'b') == (if loc.shortMonths[m] == "" then "%b" else loc.shortMonths[m])
            && Piece(loc, v, 'B') == (if loc.months[m] == "" then "%B" else loc.months[m])
    ensures var w := Weekday(v.day);
            && 0 <= w < 7
            && Piece(loc, v, 'a') == (if loc.shortDays[w] == "" then "%a" else loc.shortDays[w])
            && Piece(loc, v, 'A') == (if loc.days[w] == "" then "%A" else loc.days[w])
  {
    hide CivilOf, DayOfYear, IntText, Pad, Pad3, Weekday, WeekNumber, Hour12, ReadDigits,
         Instant.Hours, Instant.Minutes, Instant.Seconds;
    PrintedRanges(v);
    PadNumeral(CivilOf(v.day).month + 1);
  }

  /** The weekday name of a day shown in the grid is the one that stands over its column. */
  lemma NamesUnderHeader(loc: Locale, day: int, fdow: int, i: int, j: int, time: int)
    requires Tables(loc) && 0 <= time < DAY_MS
    requires forall w :: 0 <= w < 7 ==> loc.shortDays[w] != "" && loc.days[w] != ""
    ensures var v := Instant(CellDay(day, fdow, i, j), time);
            && Text(loc, v, 'a') == Some(loc.shortDays[(fdow + j) % 7])
            && Text(loc, v, 'A') == Some(loc.days[(fdow + j) % 7])
  {
    hide CivilOf, CellDay, Weekday, WeekNumber, DayOfYear, Hour12, Pad, Pad3, IntText,
         Instant.Hours, Instant.Minutes, Instant.Seconds;
    ColumnWeekday(day, fdow, i, j);
  }

  /** The letters that have a meaning, and the percent sign. */
  predicate HasMeaning(c: char) {
    || c == 'a' || c == 'A' || c == 'b' || c == 'B' || c == 'C' || c == 'd' || c == 'e' || c == 'H' || c == 'I'
    || c == 'j' || c == 'k' || c == 'l' || c == 'm' || c == 'M' || c == 'n' || c == 'p' || c == 'P' || c == 's'
    || c == 'S' || c == 't' || c == 'U' || c == 'V' || c == 'W' || c == 'u' || c == 'w' || c == 'y' || c == 'Y'
    || c == '%'
  }

  /** `%n`, `%t` and `%%` print one character; a specifier without a meaning is printed as it is. */
  lemma OthersPrinted(loc: Locale, v: Instant, c: char)
    requires Tables(loc)
    ensures Piece(loc, v, 'n') == "\n" && Piece(loc, v, 't') == "\t" && Piece(loc, v, '%') == "%"
    ensures !HasMeaning(c) ==> Piece(loc, v, c) == ['%', c]
  {
    hide CivilOf, WeekNumber, DayOfYear, Hour12, Pad, Pad3, IntText, Weekday,
         Instant.Hours, Instant.Minutes, Instant.Seconds;
  }
}
