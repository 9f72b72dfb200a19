/** Parsing what was printed: which formats and dates come back, exactly. */
module DateRoundTrip {
  import opened Wrappers
  import opened CivilDate
  import opened IsoWeek
  import opened JsDates
  import opened Decimals
  import opened DateFormat

  // ---------------------------------------------------------------------------------------
  // Formats
  // ---------------------------------------------------------------------------------------

  /** Specifiers that print one token, perhaps after other characters: every word character but
      `n` and `t`, which print a line end and a tab. */
  predicate OneToken(c: char) { IsWord(c) && c != 'n' && c != 't' }

  /** Specifiers that print nothing but that token, in every date from year 100 on. */
  predicate Clean(c: char) { c in "aAbBCdeHIjlmMpPSUVWuyY" }

  /** Length of the prefix before the next percent sign. */
  function LiteralRun(s: string): (n: nat)
    ensures n <= |s| && (n < |s| ==> s[n] == '%')
    ensures forall i :: 0 <= i < n ==> s[i] != '%'
  {
    if s == "" || s[0] == '%' then 0 else 1 + LiteralRun(s[1..])
  }

  predicate AllGaps(s: string) { forall i :: 0 <= i < |s| ==> !IsWord(s[i]) }

  predicate AllWord(s: string) { forall i :: 0 <= i < |s| ==> IsWord(s[i]) }

  /** The format starts with a specifier, and separates specifiers by non-word characters only. */
  predicate Separated(fmt: string)
    decreases |fmt|
  {
    && |fmt| >= 2 && fmt[0] == '%' && OneToken(fmt[1])
    && var rest := fmt[2..];
       var n := LiteralRun(rest);
       AllGaps(rest[..n]) && (n == |rest| || (n > 0 && Separated(rest[n..])))
  }

  /** Names are nonempty words; a short month name abbreviates its month and no earlier one. */
  ghost predicate GoodNames(loc: Locale) {
    && Tables(loc)
    && (forall i :: 0 <= i < 12 ==> Word(loc.months[i]) && Word(loc.shortMonths[i]))
    && (forall i :: 0 <= i < 7 ==> Word(loc.days[i]) && Word(loc.shortDays[i]))
    && (forall i :: 0 <= i < 12 ==> Abbreviates(loc.shortMonths[i], loc.months[i]))
    && (forall i, j :: 0 <= j < i < 12 ==> !Abbreviates(loc.shortMonths[i], loc.months[j]))
  }

  predicate Word(s: string) { s != "" && AllWord(s) }

  // ---------------------------------------------------------------------------------------
  // Printed tokens
  // ---------------------------------------------------------------------------------------

  lemma DigitsAreWords(s: string)
    requires AllDigits(s)
    ensures AllWord(s)
  {}

  lemma NumberWord(n: nat)
    ensures Word(IntText(n)) && Word(Pad(n)) && Word(Pad3(n))
  {
    DecimalReads(n);
    DigitsAreWords(IntText(n));
  }

  /** Ranges of the numbers that are printed. */
  lemma PrintedRanges(v: Instant)
    requires IsInstant(v)
    ensures var k := CivilOf(v.day);
            && 0 <= k.month < 12 && 1 <= k.day <= 31
            && 0 <= v.Hours() < 24 && 0 <= v.Minutes() < 60 && 0 <= v.Seconds() < 60
            && 0 <= Weekday(v.day) < 7 && 1 <= Hour12(v.Hours()) <= 12
            && 1 <= DayOfYear(v.day) && 1 <= WeekNumber(v.day)
  {
    hide CivilOf, DayOfYear, WeekOf, MakeDay;
    CivilOfDay(v.day);
    DayOfYearPositive(v.day);
    WeekInRange(MakeDay(FullYear(CivilOf(v.day).year), CivilOf(v.day).month, CivilOf(v.day).day));
    ClockRanges(v);
  }

  lemma DayOfYearPositive(day: int)
    ensures 1 <= DayOfYear(day)
  {
    hide CivilOf, MakeDay, MonthStart, YearStart, MonthDays;
    var c := CivilOf(day);
    CivilOfDay(day);
    DayOfYearCounts(day);
    MonthSumIsStart(FullYear(c.year), c.month);
    MonthStartInYear(FullYear(c.year), c.month);
  }

  lemma ClockRanges(v: Instant)
    requires IsInstant(v)
    ensures 0 <= v.Hours() < 24 && 0 <= v.Minutes() < 60 && 0 <= v.Seconds() < 60
  {}

  lemma YearDigits(y: int)
    requires y >= 100
    ensures |IntText(y)| >= 3 && Word(Substr22(IntText(y)))
    ensures AllDigits(Substr22(IntText(y)))
  {
    NumberWord(y);
    DecimalReads(y);
    assert |Decimal(y / 10)| >= 2 by { assert y / 10 >= 10 && |Decimal(y / 10 / 10)| >= 1; }
  }

  lemma NameToken(loc: Locale, v: Instant, c: char)
    requires GoodNames(loc) && IsInstant(v)
    requires c in "aAbBpP"
    ensures Text(loc, v, c).Some? && Word(Text(loc, v, c).value)
  {
    hide CivilOf, DayOfYear, WeekNumber, Substr22, IntText, Hour12, Pad, Pad3, Weekday, AllWord,
         Instant.Hours, Instant.Minutes, Instant.Seconds;
    PrintedRanges(v);
    var k := CivilOf(v.day);
    MeridiemWord();
  }

  lemma DateToken(loc: Locale, v: Instant, c: char)
    requires GoodNames(loc) && IsInstant(v) && CivilOf(v.day).year >= 100
    requires c in "CdejmyY"
    ensures Text(loc, v, c).Some? && Word(Text(loc, v, c).value)
  {
    hide CivilOf, DayOfYear, WeekNumber, Substr22, IntText, Hour12, Pad, Pad3, Weekday, AllWord,
         Instant.Hours, Instant.Minutes, Instant.Seconds;
    PrintedRanges(v);
    var k := CivilOf(v.day);
    NumberWord(k.day);
    NumberWord(DayOfYear(v.day));
    NumberWord(1 + k.month);
    NumberWord(k.year);
    NumberWord(1 + k.year / 100);
    YearDigits(k.year);
  }

  lemma ClockToken(loc: Locale, v: Instant, c: char)
    requires GoodNames(loc) && IsInstant(v) && CivilOf(v.day).year >= 100
    requires c in "HIlMSUVWu"
    ensures Text(loc, v, c).Some? && Word(Text(loc, v, c).value)
  {
    hide CivilOf, DayOfYear, WeekNumber, Substr22, IntText, Hour12, Pad, Pad3, Weekday, AllWord,
         Instant.Hours, Instant.Minutes, Instant.Seconds;
    PrintedRanges(v);
    var k := CivilOf(v.day);
    NumberWord(v.Hours());
    NumberWord(Hour12(v.Hours()));
    NumberWord(v.Minutes());
    NumberWord(v.Seconds());
    NumberWord(WeekNumber(v.day));
    NumberWord(Weekday(v.day) + 1);
  }

  lemma TokenText(loc: Locale, v: Instant, c: char)
    requires GoodNames(loc) && IsInstant(v) && CivilOf(v.day).year >= 100 && Clean(c)
    ensures Text(loc, v, c).Some? && Word(Text(loc, v, c).value)
  {
    hide CivilOf, Text, Word, GoodNames;
    if c in "aAbBpP" {
      NameToken(loc, v, c);
    } else if c in "CdejmyY" {
      DateToken(loc, v, c);
    } else {
      ClockToken(loc, v, c);
    }
  }

  lemma MeridiemWord()
    ensures Word("AM") && Word("PM") && Word("am") && Word("pm")
  {}

  /** The part of a printed text from its first word character on. */
  function FromWord(s: string): string { s[GapRun(s)..] }

  function Token(loc: Locale, v: Instant, c: char): string
    requires Tables(loc)
  {
    FromWord(Piece(loc, v, c))
  }

  lemma WordIsToken(w: string)
    requires Word(w)
    ensures FromWord(w) == w
  {}

  /** The text of any number holds one word: its digits, perhaps after a sign. */
  lemma NumberToken(n: int)
    ensures Word(FromWord(IntText(n))) && (n >= 0 ==> FromWord(IntText(n)) == IntText(n))
  {
    NumberWord(if n < 0 then -n else n);
    if n < 0 {
      assert IntText(n) == "-" + Decimal(-n);
      GapRunOf("-", Decimal(-n));
    } else {
      WordIsToken(IntText(n));
    }
  }

  /** Also the two digits cut out of a year. */
  lemma YearCutToken(y: int)
    ensures Substr22(IntText(y)) != "" ==> Word(Substr22(IntText(y)))
  {
    DecimalReads(if y < 0 then -y else y);
    if y < 0 { assert IntText(y)[1..] == Decimal(-y); }
    DigitsAreWords(Substr22(IntText(y)));
  }

  /** A specifier that is printed as itself. */
  lemma OwnNameToken(c: char)
    requires IsWord(c)
    ensures Word(FromWord(['%', c]))
  {
    assert ['%', c] == "%" + [c];
    GapRunOf("%", [c]);
  }

  /** Every specifier of the class prints exactly one token, for every date. */
  lemma TokenIsWord(loc: Locale, v: Instant, c: char)
    requires GoodNames(loc) && Tables(loc) && IsInstant(v) && OneToken(c)
    ensures Word(Token(loc, v, c))
  {
    hide CivilOf, Word, GoodNames, FromWord, DayOfYear, WeekNumber, Substr22, IntText, Hour12, Pad, Pad3, Weekday,
         Instant.Hours, Instant.Minutes, Instant.Seconds, Instant.Millis;
    PrintedRanges(v);
    OwnNameToken(c);
    var k := CivilOf(v.day);
    if c in "aAbB" {
      NameToken(loc, v, c);
      WordIsToken(Text(loc, v, c).value);
    } else if c in "pP" {
      MeridiemWord();
      WordIsToken(Text(loc, v, c).value);
    } else if c in "dHIjmMSUWV" {
      PaddedTokens(v);
    } else {
      NumberToken(1 + k.year / 100);
      NumberToken(k.day);
      NumberToken(v.Hours());
      NumberToken(Hour12(v.Hours()));
      NumberToken((v.Millis() - loc.offset) / 1000);
      NumberToken(Weekday(v.day) + 1);
      NumberToken(Weekday(v.day));
      NumberToken(k.year);
      YearCutToken(k.year);
      if Substr22(IntText(k.year)) != "" { WordIsToken(Substr22(IntText(k.year))); }
    }
  }

  lemma PaddedToken(n: nat)
    ensures Word(FromWord(Pad(n))) && Word(FromWord(Pad3(n)))
  {
    NumberWord(n);
    WordIsToken(Pad(n));
    WordIsToken(Pad3(n));
  }

  lemma PaddedTokens(v: Instant)
    requires IsInstant(v)
    ensures var k := CivilOf(v.day);
            && Word(FromWord(Pad(k.day))) && Word(FromWord(Pad(1 + k.month)))
            && Word(FromWord(Pad(v.Hours()))) && Word(FromWord(Pad(Hour12(v.Hours()))))
            && Word(FromWord(Pad(v.Minutes()))) && Word(FromWord(Pad(v.Seconds())))
            && Word(FromWord(Pad3(DayOfYear(v.day)))) && Word(FromWord(Pad(WeekNumber(v.day))))
  {
    hide CivilOf, Word, FromWord, DayOfYear, WeekNumber, Hour12, Pad, Pad3,
         Instant.Hours, Instant.Minutes, Instant.Seconds;
    PrintedRanges(v);
    PaddedToken(CivilOf(v.day).day);
    PaddedToken(1 + CivilOf(v.day).month);
    PaddedToken(v.Hours());
    PaddedToken(Hour12(v.Hours()));
    PaddedToken(v.Minutes());
    PaddedToken(v.Seconds());
    PaddedToken(DayOfYear(v.day));
    PaddedToken(WeekNumber(v.day));
  }

  /** A clean specifier prints its token and nothing else. */
  lemma CleanToken(loc: Locale, v: Instant, c: char)
    requires GoodNames(loc) && Tables(loc) && IsInstant(v) && CivilOf(v.day).year >= 100 && Clean(c)
    ensures Text(loc, v, c) == Some(Token(loc, v, c)) && Word(Token(loc, v, c))
  {
    hide CivilOf, Text, GoodNames, Word;
    TokenText(loc, v, c);
    WordIsToken(Text(loc, v, c).value);
  }

  // ---------------------------------------------------------------------------------------
  // Splitting what was printed
  // ---------------------------------------------------------------------------------------

  lemma {:induction false} PrintLiteral(loc: Locale, v: Instant, lit: string, rest: string)
    requires Tables(loc) && forall i :: 0 <= i < |lit| ==> lit[i] != '%'
    ensures Print(loc, v, lit + rest) == lit + Print(loc, v, rest)
    ensures Specs(lit + rest) == Specs(rest)
  {
    hide Text;
    if lit == "" {
      assert lit + rest == rest;
    } else {
      PrintLiteral(loc, v, lit[1..], rest);
      assert (lit + rest)[1..] == lit[1..] + rest;
    }
  }

  /** A percent sign before a line end is no specifier. */
  lemma LineEndLiteral(loc: Locale, v: Instant, c: char, rest: string)
    requires Tables(loc) && (c as int == 10 || c as int == 13 || c as int == 0x2028 || c as int == 0x2029)
    ensures Print(loc, v, ['%', c] + rest) == ['%', c] + Print(loc, v, rest)
    ensures Specs(['%', c] + rest) == Specs(rest)
  {
    hide Piece;
    var fmt := ['%', c] + rest;
    assert fmt[1..] == [c] + rest && fmt[1..][1..] == rest;
  }

  lemma {:induction false} WordRunOf(w: string, rest: string)
    requires AllWord(w) && (rest == "" || !IsWord(rest[0]))
    ensures WordRun(w + rest) == |w|
  {
    if w == "" {
      assert w + rest == rest;
    } else {
      assert (w + rest)[1..] == w[1..] + rest;
      WordRunOf(w[1..], rest);
    }
  }

  lemma {:induction false} GapRunOf(g: string, rest: string)
    requires AllGaps(g) && (rest == "" || IsWord(rest[0]))
    ensures GapRun(g + rest) == |g|
  {
    if g == "" {
      assert g + rest == rest;
    } else {
      assert (g + rest)[1..] == g[1..] + rest;
      GapRunOf(g[1..], rest);
    }
  }

  /** A word, a gap, and something that begins with a word or is empty. */
  lemma SplitWord(w: string, g: string, rest: string)
    requires AllWord(w) && g != "" && AllGaps(g) && (rest == "" || IsWord(rest[0]))
    ensures Split(w + g + rest) == [w] + Split(rest)
  {
    hide WordRun, GapRun;
    var s := w + g + rest;
    assert s == w + (g + rest);
    WordRunOf(w, g + rest);
    assert s[|w|..] == g + rest;
    GapRunOf(g, rest);
    assert s[|w| + |g|..] == rest;
  }

  lemma SplitLast(w: string)
    requires AllWord(w)
    ensures Split(w) == [w]
  {
    assert w + "" == w;
    WordRunOf(w, "");
  }

  /** The tokens are those of the specifiers, in order; a trailing separator leaves one empty
      token behind. */
  ghost predicate Aligned(loc: Locale, v: Instant, a: seq<string>, b: string)
    requires Tables(loc)
  {
    && |b| <= |a| <= |b| + 1
    && (forall i :: 0 <= i < |b| ==> OneToken(b[i]) && a[i] == Token(loc, v, b[i]) && a[i] != "")
    && (|a| > |b| ==> a[|b|] == "")
  }

  /** From its first word on, printed text splits into the tokens of its specifiers: for every
      date and every format of the class. */
  lemma {:induction false} PrintedTokens(loc: Locale, v: Instant, fmt: string)
    requires GoodNames(loc) && Tables(loc) && IsInstant(v) && Separated(fmt)
    ensures var t := FromWord(Print(loc, v, fmt));
            t != "" && IsWord(t[0]) && Aligned(loc, v, Split(t), Specs(fmt))
    decreases |fmt|
  {
    hide CivilOf, Piece, Tables, Split, GoodNames, Print, Specs, OneToken, AllWord, AllGaps, FromWord;
    var c, rest := fmt[1], fmt[2..];
    SpecStarts(fmt);
    TokenIsWord(loc, v, c);
    var w, n := Token(loc, v, c), LiteralRun(rest);
    var g, next := rest[..n], rest[n..];
    PrintHead(loc, v, fmt, g, next);
    if next == "" {
      LastTokens(loc, v, w, g, c);
      FromWordOf(Piece(loc, v, c), g, "");
      WordFirst(w, g + "");
    } else {
      PrintedTokens(loc, v, next);
      var tail := Print(loc, v, next);
      FromWordOf(Piece(loc, v, c), g, tail);
      WordFirst(w, g + tail);
      SplitTail(w, g, tail);
      AlignedCons(loc, v, w, Split(FromWord(tail)), c, Specs(next));
    }
  }

  /** Dropping what precedes the first word of a text that holds one. */
  lemma FromWordOf(piece: string, g: string, tail: string)
    requires Word(FromWord(piece))
    ensures FromWord(piece + g + tail) == FromWord(piece) + g + tail == FromWord(piece) + (g + tail)
  {
    var n := GapRun(piece);
    var lead, w := piece[..n], piece[n..];
    assert piece + g + tail == lead + (w + (g + tail));
    GapRunOf(lead, w + (g + tail));
    assert w + (g + tail) == w + g + tail;
  }

  /** Splitting a word, a gap, and a text whose first word may come after more gap. */
  lemma SplitTail(w: string, g: string, tail: string)
    requires AllWord(w) && g != "" && AllGaps(g) && FromWord(tail) != "" && IsWord(FromWord(tail)[0])
    ensures Split(w + g + tail) == [w] + Split(FromWord(tail))
  {
    hide Split, GapRun, WordRun, IsWord;
    var n := GapRun(tail);
    var gap, next := g + tail[..n], tail[n..];
    assert w + g + tail == w + gap + next;
    SplitWord(w, gap, next);
  }

  lemma WordFirst(w: string, rest: string)
    requires Word(w)
    ensures w + rest != "" && IsWord((w + rest)[0])
  {}

  lemma PrintHead(loc: Locale, v: Instant, fmt: string, g: string, next: string)
    requires Tables(loc) && StartsSpec(fmt) && fmt[2..] == g + next
    requires forall i :: 0 <= i < |g| ==> g[i] != '%'
    ensures Print(loc, v, fmt) == Piece(loc, v, fmt[1]) + g + Print(loc, v, next)
    ensures Specs(fmt) == [fmt[1]] + Specs(next)
  {
    hide Piece, Tables;
    PrintLiteral(loc, v, g, next);
  }

  /** The last specifier, with or without a separator after it. */
  lemma LastTokens(loc: Locale, v: Instant, w: string, g: string, c: char)
    requires Tables(loc) && Word(w) && AllGaps(g) && OneToken(c) && Token(loc, v, c) == w
    ensures Print(loc, v, "") == "" && Specs("") == ""
    ensures Aligned(loc, v, Split(w + g + ""), [c] + "")
  {
    hide Token, Tables, Split;
    assert w + g + "" == w + g;
    if g == "" {
      assert w + g == w;
      SplitLast(w);
    } else {
      SplitWord(w, g, "");
      SplitLast("");
      assert [w] + [""] == [w, ""];
    }
  }

  lemma SpecStarts(fmt: string)
    requires Separated(fmt)
    ensures StartsSpec(fmt) && OneToken(fmt[1])
  {}

  lemma AlignedCons(loc: Locale, v: Instant, w: string, a: seq<string>, c: char, b: string)
    requires Tables(loc) && Aligned(loc, v, a, b) && OneToken(c) && Token(loc, v, c) == w && w != ""
    ensures Aligned(loc, v, [w] + a, [c] + b)
  {
    hide Token, Tables;
    var a1, b1 := [w] + a, [c] + b;
    forall i | 0 <= i < |b1| ensures OneToken(b1[i]) && a1[i] == Token(loc, v, b1[i]) && a1[i] != "" {
      if i > 0 {
        assert b1[i] == b[i - 1] && a1[i] == a[i - 1];
      }
    }
  }

  // ---------------------------------------------------------------------------------------
  // Reading the tokens
  // ---------------------------------------------------------------------------------------

  lemma {:induction false} DigitRunAll(s: string)
    requires AllDigits(s)
    ensures DigitRun(s) == |s|
  {
    if s != "" { DigitRunAll(s[1..]); }
  }

  lemma ParseDigits(s: string)
    requires s != "" && AllDigits(s)
    ensures ParseInt(s) == N(ReadDigits(s))
  {
    DigitRunAll(s);
    assert s[..|s|] == s;
  }

  lemma ParseNumber(n: nat)
    ensures ParseInt(IntText(n)) == N(n) && ParseInt(Pad(n)) == N(n)
  {
    DecimalReads(n);
    PadReads(n);
    ParseDigits(IntText(n));
    ParseDigits(Pad(n));
  }

  /** The year that the last two digits are read as. */
  function TwoDigitYear(y: int): int { Or(PivotYear(ParseInt(Substr22(IntText(y)))), 0) }

  lemma {:induction false} ReadDigitsNonnegative(s: string)
    requires AllDigits(s)
    ensures 0 <= ReadDigits(s) && (|s| <= 2 ==> ReadDigits(s) < 100)
  {
    if s != "" {
      ReadDigitsNonnegative(s[..|s| - 1]);
      if |s| == 2 { assert s[..1][..0] == ""; assert ReadDigits(s[..1]) == DigitValue(s[0]); }
    }
  }

  /** Two digits give a year from 1930 to 2029, and the right one exactly in those years. */
  lemma TwoDigits(y: int)
    requires y >= 100
    ensures PivotYear(ParseInt(Substr22(IntText(y)))) == N(TwoDigitYear(y))
    ensures 1930 <= TwoDigitYear(y) <= 2029
    ensures TwoDigitYear(y) == y <==> 1930 <= y <= 2029
  {
    hide IntText, Substr22, ParseInt, ReadDigits, AllDigits;
    var t := Substr22(IntText(y));
    YearDigits(y);
    ShortCut(IntText(y));
    ParseDigits(t);
    ReadDigitsNonnegative(t);
    if 1930 <= y <= 2029 { LastTwo(y, t); }
  }

  lemma ShortCut(s: string)
    ensures |Substr22(s)| <= 2
  {}

  lemma LastTwo(y: int, t: string)
    requires 1930 <= y <= 2029 && t == Substr22(IntText(y))
    ensures ReadDigits(t) == y % 100
  {
    hide Decimal;
    FourDigits(y);
    assert t == Decimal(y)[2..4];
    assert t[..1][..0] == "";
    assert ReadDigits(t[..1]) == y / 10 % 10;
  }

  lemma MonthFound(loc: Locale, m: nat)
    requires GoodNames(loc) && m < 12
    ensures MonthFrom(loc, loc.shortMonths[m], 0) == m && MonthFrom(loc, loc.months[m], 0) == m
  {
    hide Abbreviates, MonthFrom;
    var j := MonthFrom(loc, loc.months[m], 0);
    assert Abbreviates(loc.months[m], loc.months[m]) by { WholeAbbreviates(loc.months[m]); }
    if j < m {
      AbbreviatesTransitive(loc.shortMonths[m], loc.months[m], loc.months[j]);
    }
  }

  lemma WholeAbbreviates(name: string)
    ensures Abbreviates(name, name)
  {
    assert name[..|name|] == name;
  }

  lemma AbbreviatesMeans(token: string, name: string)
    ensures Abbreviates(token, name) <==>
            |token| <= |name| && forall i :: 0 <= i < |token| ==> Lower(token[i]) == Lower(name[i])
  {
    var p := if |token| <= |name| then name[..|token|] else name;
    if Abbreviates(token, name) {
      assert |LowerAll(p)| == |LowerAll(token)|;
      forall i | 0 <= i < |token| ensures Lower(token[i]) == Lower(name[i]) {
        assert LowerAll(p)[i] == LowerAll(token)[i];
      }
    }
  }

  lemma AbbreviatesTransitive(a: string, b: string, c: string)
    requires Abbreviates(a, b) && Abbreviates(b, c)
    ensures Abbreviates(a, c)
  {
    hide Abbreviates;
    AbbreviatesMeans(a, b);
    AbbreviatesMeans(b, c);
    AbbreviatesMeans(a, c);
  }

  /** What the printed token of `%c` does to the fields. */
  function TakeValue(v: Instant, f: Fields, c: char): Fields {
    var k := CivilOf(v.day);
    if c == 'd' || c == 'e' then f.(d := N(k.day))
    else if c == 'm' || c == 'b' || c == 'B' then f.(m := N(k.month))
    else if c == 'Y' then f.(y := N(k.year))
    else if c == 'y' then f.(y := N(TwoDigitYear(k.year)))
    else if c == 'H' then f.(hr := N(v.Hours()))
    else if c == 'I' || c == 'l' then f.(hr := N(Hour12(v.Hours())))
    else if c == 'k' then f.(hr := if v.Hours() == 0 then NaN else N(v.Hours()))
    else if c == 'P' || c == 'p' then f.(hr := Meridiem(f.hr, if v.Hours() >= 12 then "PM" else "AM"))
    else if c == 'M' then f.(min := N(v.Minutes()))
    else f
  }

  lemma MeridiemText(hr: Num)
    ensures Meridiem(hr, "PM") == (if hr.N? && hr.value < 12 then N(hr.value + 12) else hr)
    ensures Meridiem(hr, "AM") == (if hr.N? && hr.value >= 12 then N(hr.value - 12) else hr)
    ensures Meridiem(hr, "pm") == Meridiem(hr, "PM") && Meridiem(hr, "am") == Meridiem(hr, "AM")
  {
    assert Lower("PM"[0]) == 'p' && Lower("PM"[1]) == 'm' && Lower("pm"[0]) == 'p' && Lower("pm"[1]) == 'm';
    assert Lower("AM"[0]) == 'a' && Lower("AM"[1]) == 'm' && Lower("am"[0]) == 'a' && Lower("am"[1]) == 'm';
    assert Mentions("PM", 'p', 'm') && Mentions("pm", 'p', 'm') && Mentions("AM", 'a', 'm') && Mentions("am", 'a', 'm');
    assert !Mentions("PM", 'a', 'm') && !Mentions("pm", 'a', 'm');
    assert !Mentions("AM", 'p', 'm') && !Mentions("am", 'p', 'm');
  }

  /** The marks are found in either case and anywhere in the token. */
  lemma MentionsAnywhere(before: string, c: char, d: char, after: string)
    ensures Mentions(before + [c, d] + after, Lower(c), Lower(d))
  {
    var s := before + [c, d] + after;
    assert Lower(s[|before|]) == Lower(c) && Lower(s[|before| + 1]) == Lower(d);
  }

  lemma TakeDay(loc: Locale, v: Instant, f: Fields, c: char)
    requires GoodNames(loc) && IsInstant(v) && CivilOf(v.day).year >= 100
    requires (c == 'd' || c == 'e' || c == 'm') && Text(loc, v, c).Some?
    ensures Take(loc, f, c, Text(loc, v, c).value) == TakeValue(v, f, c)
  {
    hide CivilOf, DayOfYear, WeekNumber, Substr22, IntText, Hour12, Pad, Pad3, Weekday, PivotYear,
         ParseInt, Meridiem, TwoDigitYear, MonthFrom, Instant.Hours, Instant.Minutes;
    PrintedRanges(v);
    var k := CivilOf(v.day);
    ParseNumber(k.day);
    ParseNumber(1 + k.month);
  }

  lemma TakeYear(loc: Locale, v: Instant, f: Fields, c: char)
    requires GoodNames(loc) && IsInstant(v) && CivilOf(v.day).year >= 100
    requires (c == 'Y' || c == 'y') && Text(loc, v, c).Some?
    ensures Take(loc, f, c, Text(loc, v, c).value) == TakeValue(v, f, c)
  {
    hide CivilOf, DayOfYear, WeekNumber, Substr22, IntText, Hour12, Pad, Pad3, Weekday, PivotYear,
         ParseInt, Meridiem, TwoDigitYear, MonthFrom, Instant.Hours, Instant.Minutes;
    PrintedRanges(v);
    var k := CivilOf(v.day);
    ParseNumber(k.year);
    TwoDigits(k.year);
    FullCentury(k.year);
  }

  lemma TakeMonthName(loc: Locale, v: Instant, f: Fields, c: char)
    requires GoodNames(loc) && IsInstant(v) && CivilOf(v.day).year >= 100
    requires (c == 'b' || c == 'B') && Text(loc, v, c).Some?
    ensures Take(loc, f, c, Text(loc, v, c).value) == TakeValue(v, f, c)
  {
    hide CivilOf, DayOfYear, WeekNumber, Substr22, IntText, Hour12, Pad, Pad3, Weekday, PivotYear,
         ParseInt, Meridiem, TwoDigitYear, MonthFrom, Instant.Hours, Instant.Minutes;
    PrintedRanges(v);
    var k := CivilOf(v.day);
    MonthFound(loc, k.month);
  }

  lemma TakeClock(loc: Locale, v: Instant, f: Fields, c: char)
    requires GoodNames(loc) && IsInstant(v) && CivilOf(v.day).year >= 100
    requires (c == 'H' || c == 'I' || c == 'l' || c == 'M') && Text(loc, v, c).Some?
    ensures Take(loc, f, c, Text(loc, v, c).value) == TakeValue(v, f, c)
  {
    hide CivilOf, DayOfYear, WeekNumber, Substr22, IntText, Hour12, Pad, Pad3, Weekday, PivotYear,
         ParseInt, Meridiem, TwoDigitYear, MonthFrom, Instant.Hours, Instant.Minutes;
    PrintedRanges(v);
    var k := CivilOf(v.day);
    ParseNumber(v.Hours());
    ParseNumber(Hour12(v.Hours()));
    ParseNumber(v.Minutes());
  }

  lemma TakeMeridiem(loc: Locale, v: Instant, f: Fields, c: char)
    requires GoodNames(loc) && IsInstant(v) && CivilOf(v.day).year >= 100
    requires (c == 'p' || c == 'P') && Text(loc, v, c).Some?
    ensures Take(loc, f, c, Text(loc, v, c).value) == TakeValue(v, f, c)
  {
    hide CivilOf, DayOfYear, WeekNumber, Substr22, IntText, Hour12, Pad, Pad3, Weekday, PivotYear,
         ParseInt, Meridiem, TwoDigitYear, MonthFrom, Instant.Hours, Instant.Minutes;
    PrintedRanges(v);
    MeridiemText(f.hr);
  }

  /** `%k` prints its own letter at midnight, which does not parse. */
  lemma TakeBareHour(loc: Locale, v: Instant, f: Fields)
    requires Tables(loc) && IsInstant(v)
    ensures Take(loc, f, 'k', Token(loc, v, 'k')) == TakeValue(v, f, 'k')
  {
    hide CivilOf, IntText, ParseInt, FromWord, Instant.Hours, MonthFrom;
    ClockRanges(v);
    ParseNumber(v.Hours());
    NumberToken(v.Hours());
    LetterK();
  }

  lemma LetterK()
    ensures FromWord(['%', 'k']) == "k" && ParseInt("k") == NaN
  {
    assert ['%', 'k'] == "%" + "k";
    GapRunOf("%", "k");
  }

  lemma TakePrinted(loc: Locale, v: Instant, f: Fields, c: char)
    requires GoodNames(loc) && Tables(loc) && IsInstant(v) && CivilOf(v.day).year >= 100 && OneToken(c)
    ensures Take(loc, f, c, Token(loc, v, c)) == TakeValue(v, f, c)
  {
    hide CivilOf, Text, GoodNames, Token;
    if Clean(c) { CleanToken(loc, v, c); } else { NotClean(c); }
    if c == 'd' || c == 'e' || c == 'm' {
      TakeDay(loc, v, f, c);
    } else if c == 'Y' || c == 'y' {
      TakeYear(loc, v, f, c);
    } else if c == 'b' || c == 'B' {
      TakeMonthName(loc, v, f, c);
    } else if c == 'H' || c == 'I' || c == 'l' || c == 'M' {
      TakeClock(loc, v, f, c);
    } else if c == 'p' || c == 'P' {
      TakeMeridiem(loc, v, f, c);
    } else if c == 'k' {
      TakeBareHour(loc, v, f);
    }
  }

  lemma NotClean(c: char)
    requires !Clean(c)
    ensures c !in "demYybBHIlMpP"
  {
    var all := "aAbBCdeHIjlmMpPSUVWuyY";
    assert all[5] == 'd' && all[6] == 'e' && all[11] == 'm' && all[21] == 'Y' && all[20] == 'y' && all[2] == 'b';
    assert all[3] == 'B' && all[7] == 'H' && all[8] == 'I' && all[10] == 'l' && all[12] == 'M' && all[13] == 'p';
    assert all[14] == 'P';
  }

  lemma FullCentury(y: int)
    requires y >= 100
    ensures PivotYear(N(y)) == N(y)
  {}

  function Expected(v: Instant, b: string): Fields {
    if b == "" then START else TakeValue(v, Expected(v, b[..|b| - 1]), b[|b| - 1])
  }

  lemma {:induction false} FieldsExpected(loc: Locale, v: Instant, a: seq<string>, b: string, n: nat)
    requires GoodNames(loc) && Tables(loc) && IsInstant(v) && CivilOf(v.day).year >= 100
    requires Aligned(loc, v, a, b) && n <= |b|
    ensures FieldsAfter(loc, a, b, n) == Expected(v, b[..n])
  {
    hide CivilOf, Token, Take, TakeValue, GoodNames;
    if n > 0 {
      FieldsExpected(loc, v, a, b, n - 1);
      TakePrinted(loc, v, FieldsAfter(loc, a, b, n - 1), b[n - 1]);
      assert b[..n][..n - 1] == b[..n - 1];
    }
  }

  // ---------------------------------------------------------------------------------------
  // The round trip
  // ---------------------------------------------------------------------------------------

  predicate YearSpec(c: char) { c == 'Y' || c == 'y' }

  predicate MonthSpec(c: char) { c == 'm' || c == 'b' || c == 'B' }

  predicate DaySpec(c: char) { c == 'd' || c == 'e' }

  predicate HourSpec(c: char) { c == 'H' || c == 'I' || c == 'l' || c == 'k' }

  predicate MinuteSpec(c: char) { c == 'M' }

  predicate MeridiemSpec(c: char) { c == 'p' || c == 'P' }

  ghost predicate Occurs(b: string, from: int, p: char -> bool) {
    exists i :: 0 <= i < |b| && from <= i && p(b[i])
  }

  /** Index `k` holds the last specifier of its kind. */
  ghost predicate LastAt(b: string, k: int, p: char -> bool) {
    0 <= k < |b| && p(b[k]) && forall i :: k < i < |b| ==> !p(b[i])
  }

  lemma {:induction false} ExpectedYear(v: Instant, b: string, k: int)
    requires LastAt(b, k, YearSpec)
    ensures var y := CivilOf(v.day).year;
            Expected(v, b).y == N(if b[k] == 'Y' then y else TwoDigitYear(y))
  {
    hide CivilOf, TwoDigitYear;
    if k < |b| - 1 {
      ExpectedYear(v, b[..|b| - 1], k);
      assert !YearSpec(b[|b| - 1]);
    }
  }

  lemma {:induction false} ExpectedMonth(v: Instant, b: string)
    requires Occurs(b, 0, MonthSpec)
    ensures Expected(v, b).m == N(CivilOf(v.day).month)
  {
    hide CivilOf;
    var i :| 0 <= i < |b| && MonthSpec(b[i]);
    if !MonthSpec(b[|b| - 1]) {
      assert MonthSpec(b[..|b| - 1][i]);
      ExpectedMonth(v, b[..|b| - 1]);
    }
  }

  lemma {:induction false} ExpectedDay(v: Instant, b: string)
    requires Occurs(b, 0, DaySpec)
    ensures Expected(v, b).d == N(CivilOf(v.day).day)
  {
    hide CivilOf;
    var i :| 0 <= i < |b| && DaySpec(b[i]);
    if !DaySpec(b[|b| - 1]) {
      assert DaySpec(b[..|b| - 1][i]);
      ExpectedDay(v, b[..|b| - 1]);
    }
  }

  lemma {:induction false} ExpectedMinute(v: Instant, b: string)
    requires Occurs(b, 0, MinuteSpec)
    ensures Expected(v, b).min == N(v.Minutes())
  {
    hide CivilOf;
    var i :| 0 <= i < |b| && MinuteSpec(b[i]);
    if !MinuteSpec(b[|b| - 1]) {
      assert MinuteSpec(b[..|b| - 1][i]);
      ExpectedMinute(v, b[..|b| - 1]);
    }
  }

  /** AM or PM turns the hour of a 12-hour clock, or the hour itself, into the hour. */
  lemma MeridiemRestores(h: int)
    requires 0 <= h < 24
    ensures Meridiem(N(Hour12(h)), if h >= 12 then "PM" else "AM") == N(h)
    ensures Meridiem(N(h), if h >= 12 then "PM" else "AM") == N(h)
  {
    MeridiemText(N(Hour12(h)));
    MeridiemText(N(h));
  }

  /** The hour that is read when `%c` is the last hour specifier. */
  function HourRead(c: char, meridiem: bool, h: int): Num {
    if c == 'k' then (if h == 0 then NaN else N(h))
    else N(if c == 'H' || meridiem then h else Hour12(h))
  }

  lemma HourReadMeridiem(c: char, meridiem: bool, h: int)
    requires 0 <= h < 24
    ensures Meridiem(HourRead(c, meridiem, h), if h >= 12 then "PM" else "AM") == HourRead(c, true, h)
  {
    hide Meridiem, Hour12;
    MeridiemRestores(h);
    MeridiemText(NaN);
  }

  lemma {:induction false} ExpectedHour(v: Instant, b: string, k: int)
    requires LastAt(b, k, HourSpec) && IsInstant(v)
    ensures Expected(v, b).hr == HourRead(b[k], Occurs(b, k, MeridiemSpec), v.Hours())
  {
    hide CivilOf, Hour12, Meridiem, Instant.Hours;
    ClockRanges(v);
    var n, front := |b| - 1, b[..|b| - 1];
    if k == n {
      assert !Occurs(b, k, MeridiemSpec);
    } else {
      ExpectedHour(v, front, k);
      assert !HourSpec(b[n]);
      HourReadMeridiem(b[k], Occurs(front, k, MeridiemSpec), v.Hours());
      OccursEarlier(b, k);
    }
  }

  lemma OccursEarlier(b: string, k: int)
    requires 0 <= k < |b| - 1
    ensures Occurs(b, k, MeridiemSpec) <==> Occurs(b[..|b| - 1], k, MeridiemSpec) || MeridiemSpec(b[|b| - 1])
  {
    var front := b[..|b| - 1];
    if i :| 0 <= i < |front| && k <= i && MeridiemSpec(front[i]) {
      assert MeridiemSpec(b[i]);
    }
    if i :| 0 <= i < |b| && k <= i && MeridiemSpec(b[i]) {
      assert i < |front| ==> MeridiemSpec(front[i]);
    }
  }

  /** The instant with its seconds and milliseconds cleared. */
  function Truncated(v: Instant): Instant {
    Instant(v.day, v.Hours() * 3_600_000 + v.Minutes() * 60_000)
  }

  lemma LocalClock(y: int, m: int, d: int, h: int, mi: int)
    requires 0 <= h < 24 && 0 <= mi < 60
    ensures LocalInstant(y, m, d, h, mi, 0) ==
            Instant(MakeDay(FullYear(y), m, d), h * 3_600_000 + mi * 60_000)
  {
    hide MakeDay, FullYear;
  }

  /** A day of month up to 31 never leaves the year, even when it overflows the month. */
  lemma YearOfMakeDay(y: int, m: int, d: int)
    requires 0 <= m < 12 && 1 <= d <= 31
    ensures CivilOf(MakeDay(y, m, d)).year == y
  {
    hide CivilOf, MakeDay, YearStart;
    MakeDayOfMonth(y, m, d);
    YearLength(y);
    YearOfUnique(MakeDay(y, m, d), y);
    CivilYear(MakeDay(y, m, d));
  }

  /** The date built from the fields read is the printed minute exactly when year and hour are. */
  lemma RebuiltExactly(v: Instant, y: int, h: int)
    requires IsInstant(v) && CivilOf(v.day).year >= 100 && y >= 100 && 0 <= h < 24
    ensures var k := CivilOf(v.day);
            LocalInstant(y, k.month, k.day, h, v.Minutes(), 0) == Truncated(v) <==>
            y == k.year && h == v.Hours()
  {
    hide CivilOf, MakeDay, LocalInstant, MonthDays, Instant.Hours, Instant.Minutes;
    var k := CivilOf(v.day);
    CivilOfDay(v.day);
    ClockRanges(v);
    MonthAtMost31(k);
    LocalClock(y, k.month, k.day, h, v.Minutes());
    YearOfMakeDay(y, k.month, k.day);
    RebuiltDay(v.day);
  }

  lemma MonthAtMost31(k: Civil)
    requires IsCivil(k)
    ensures 1 <= k.day <= 31
  {}

  /** The hour comes back: always from `%H`; from `%k` unless it is 0, when today's hour is taken
      instead; from `%I` and `%l` when `%p` or `%P` follows, or both clocks agree. */
  predicate HourKept(c: char, meridiem: bool, h: int, today: int) {
    if c == 'H' then true else if c == 'k' then h != 0 || today == 0 else meridiem || 1 <= h <= 12
  }

  /** Parsing the printed text gives back year, month, day, hour and minute, for every date and
      every format of the class that has them all and whose text starts with a word, exactly when
      the year is at least 100, the last year specifier is `%Y` or the year lies in 1930 to 2029,
      and the last hour specifier keeps the hour. */
  lemma RoundTrip(loc: Locale, v: Instant, fmt: string, today: Instant, ky: int, kh: int)
    requires GoodNames(loc) && Tables(loc) && IsInstant(v) && Separated(fmt)
    requires IsInstant(today) && CivilOf(today.day).year >= 100
    requires LastAt(Specs(fmt), ky, YearSpec) && LastAt(Specs(fmt), kh, HourSpec)
    requires Occurs(Specs(fmt), 0, MonthSpec) && Occurs(Specs(fmt), 0, DaySpec) && Occurs(Specs(fmt), 0, MinuteSpec)
    requires GapRun(Print(loc, v, fmt)) == 0
    ensures Parse(loc, Print(loc, v, fmt), fmt, today) == Date(Truncated(v)) <==>
            && CivilOf(v.day).year >= 100
            && (Specs(fmt)[ky] == 'Y' || 1930 <= CivilOf(v.day).year <= 2029)
            && HourKept(Specs(fmt)[kh], Occurs(Specs(fmt), kh, MeridiemSpec), v.Hours(), today.Hours())
  {
    hide CivilOf, GoodNames, Print, Parse, Separated, LastAt, Occurs, HourKept, Instant.Hours, Truncated;
    if CivilOf(v.day).year >= 100 {
      RoundTripFrom100(loc, v, fmt, today, ky, kh);
    } else if Parse(loc, Print(loc, v, fmt), fmt, today) == Date(Truncated(v)) {
      ParsedYearFrom100(loc, Print(loc, v, fmt), fmt, today);
      TruncatedDay(v);
    }
  }

  lemma TruncatedDay(v: Instant)
    ensures Truncated(v).day == v.day
  {}

  lemma RoundTripFrom100(loc: Locale, v: Instant, fmt: string, today: Instant, ky: int, kh: int)
    requires GoodNames(loc) && Tables(loc) && IsInstant(v) && CivilOf(v.day).year >= 100 && Separated(fmt)
    requires IsInstant(today)
    requires LastAt(Specs(fmt), ky, YearSpec) && LastAt(Specs(fmt), kh, HourSpec)
    requires Occurs(Specs(fmt), 0, MonthSpec) && Occurs(Specs(fmt), 0, DaySpec) && Occurs(Specs(fmt), 0, MinuteSpec)
    requires GapRun(Print(loc, v, fmt)) == 0
    ensures Parse(loc, Print(loc, v, fmt), fmt, today) == Date(Truncated(v)) <==>
            && (Specs(fmt)[ky] == 'Y' || 1930 <= CivilOf(v.day).year <= 2029)
            && HourKept(Specs(fmt)[kh], Occurs(Specs(fmt), kh, MeridiemSpec), v.Hours(), today.Hours())
  {
    hide CivilOf, GoodNames, Print, Parse, Separated, LocalInstant, Truncated, HourRead, HourKept, TwoDigitYear, LastAt,
         Occurs, Instant.Hours, Instant.Minutes, Specs;
    var b, k := Specs(fmt), CivilOf(v.day);
    LastIndex(b, ky, YearSpec);
    LastIndex(b, kh, HourSpec);
    var y := if b[ky] == 'Y' then k.year else TwoDigitYear(k.year);
    var hr := HourRead(b[kh], Occurs(b, kh, MeridiemSpec), v.Hours());
    ParsedFields(loc, v, fmt, today, ky, kh);
    PrintedRanges(v);
    ClockRanges(today);
    TwoDigits(k.year);
    HourReadKept(b[kh], Occurs(b, kh, MeridiemSpec), v.Hours(), today.Hours());
    RebuiltExactly(v, y, Or(hr, today.Hours()));
  }

  lemma LastIndex(b: string, k: int, p: char -> bool)
    requires LastAt(b, k, p)
    ensures 0 <= k < |b| && p(b[k])
  {}

  /** The date that the fields of the printed text give. */
  lemma ParsedFields(loc: Locale, v: Instant, fmt: string, today: Instant, ky: int, kh: int)
    requires GoodNames(loc) && Tables(loc) && IsInstant(v) && CivilOf(v.day).year >= 100 && Separated(fmt)
    requires LastAt(Specs(fmt), ky, YearSpec) && LastAt(Specs(fmt), kh, HourSpec)
    requires Occurs(Specs(fmt), 0, MonthSpec) && Occurs(Specs(fmt), 0, DaySpec) && Occurs(Specs(fmt), 0, MinuteSpec)
    requires GapRun(Print(loc, v, fmt)) == 0
    ensures var b, k := Specs(fmt), CivilOf(v.day);
            var y := if b[ky] == 'Y' then k.year else TwoDigitYear(k.year);
            var hr := HourRead(b[kh], Occurs(b, kh, MeridiemSpec), v.Hours());
            Parse(loc, Print(loc, v, fmt), fmt, today) ==
            Date(LocalInstant(y, k.month, k.day, Or(hr, today.Hours()), v.Minutes(), 0))
  {
    hide CivilOf, GoodNames, Print, Separated, Split, LocalInstant, HourRead, TwoDigitYear, Expected, FieldsAfter,
         Specs, GapRun, Instant.Hours, Instant.Minutes, Occurs, LastAt;
    var b, k := Specs(fmt), CivilOf(v.day);
    LastIndex(b, ky, YearSpec);
    LastIndex(b, kh, HourSpec);
    FieldsRead(loc, v, fmt);
    ExpectedYear(v, b, ky);
    ExpectedHour(v, b, kh);
    ExpectedMonth(v, b);
    ExpectedDay(v, b);
    ExpectedMinute(v, b);
    PrintedRanges(v);
    TwoDigits(k.year);
  }

  lemma HourReadKept(c: char, meridiem: bool, h: int, today: int)
    requires 0 <= h < 24 && 0 <= today < 24
    ensures Or(HourRead(c, meridiem, h), today) == h <==> HourKept(c, meridiem, h, today)
    ensures 0 <= Or(HourRead(c, meridiem, h), today) < 24
  {}

  // ---------------------------------------------------------------------------------------
  // No text parses to a year below 100
  // ---------------------------------------------------------------------------------------

  /** Numbers read are not negative; a year is missing or at least 100. */
  ghost predicate Sane(f: Fields) {
    && SaneYear(f.y) && AtLeast(f.m, -1) && AtLeast(f.d, 0) && AtLeast(f.hr, 0) && AtLeast(f.min, 0)
  }

  predicate SaneYear(y: Num) { y.N? ==> y.value == 0 || y.value >= 100 }

  predicate AtLeast(n: Num, low: int) { n.N? ==> n.value >= low }

  lemma {:induction false} DigitRunDigits(s: string)
    ensures AllDigits(s[..DigitRun(s)])
  {
    if s != "" && IsDigit(s[0]) {
      DigitRunDigits(s[1..]);
      var n := DigitRun(s[1..]);
      assert s[..n + 1] == [s[0]] + s[1..][..n];
    }
  }

  lemma ParseIntNonnegative(s: string)
    ensures AtLeast(ParseInt(s), 0)
  {
    DigitRunDigits(s);
    ReadDigitsNonnegative(s[..DigitRun(s)]);
  }

  lemma TakeSane(loc: Locale, f: Fields, c: char, token: string)
    requires |loc.months| == 12 && Sane(f)
    ensures Sane(Take(loc, f, c, token))
  {
    hide ParseInt, MonthFrom, Meridiem, PivotYear, SaneYear, AtLeast;
    ParseIntNonnegative(token);
    MeridiemSane(f.hr, token);
    PivotSane(ParseInt(token));
    MonthsSane(ParseInt(token), MonthFrom(loc, token, 0));
  }

  lemma PivotSane(y: Num)
    requires AtLeast(y, 0)
    ensures SaneYear(PivotYear(y))
  {}

  lemma MonthsSane(n: Num, j: nat)
    requires AtLeast(n, 0)
    ensures AtLeast(match n case NaN => NaN case N(i) => N(i - 1), -1) && AtLeast(N(j), -1)
  {}

  lemma MeridiemSane(hr: Num, token: string)
    requires AtLeast(hr, 0)
    ensures AtLeast(Meridiem(hr, token), 0)
  {
    hide Mentions;
  }

  lemma {:induction false} FieldsSane(loc: Locale, a: seq<string>, b: string, n: nat)
    requires |loc.months| == 12 && n <= |a|
    ensures Sane(FieldsAfter(loc, a, b, n))
  {
    hide Sane, Take;
    if n == 0 {
      StartSane();
    } else {
      FieldsSane(loc, a, b, n - 1);
      var f := FieldsAfter(loc, a, b, n - 1);
      if n - 1 < |b| { TakeSane(loc, f, b[n - 1], a[n - 1]); }
    }
  }

  lemma StartSane()
    ensures Sane(START)
  {}

  lemma YearStartMonotone(y: int, z: int)
    requires y <= z
    ensures YearStart(y) <= YearStart(z)
  {}

  /** Fields that only overflow upwards do not lead below the start of the year. */
  lemma LocalYearFrom100(y: int, m: int, d: int, h: int, mi: int)
    requires y >= 100 && m >= 0 && d >= 1 && h >= 0 && mi >= 0
    ensures CivilOf(LocalInstant(y, m, d, h, mi, 0).day).year >= 100
  {
    hide CivilOf, YearStart, MonthStart;
    var day := LocalInstant(y, m, d, h, mi, 0).day;
    YearStartMonotone(100, y + m / 12);
    MonthStartInYear(y + m / 12, m % 12);
    MonthDaysPositive(y + m / 12, m % 12);
    LocalNotBefore(MakeDay(y, m, d), h, mi);
    YearFrom100(day);
  }

  lemma MonthDaysPositive(y: int, m: int)
    requires 0 <= m < 12
    ensures MonthDays(y, m) > 0
  {}

  lemma LocalNotBefore(day: int, h: int, mi: int)
    requires h >= 0 && mi >= 0
    ensures (day * DAY_MS + h * 3_600_000 + mi * 60_000) / DAY_MS >= day
  {}

  lemma YearFrom100(day: int)
    requires day >= YearStart(100)
    ensures CivilOf(day).year >= 100
  {
    hide CivilOf, YearStart, YearOf;
    CivilYear(day);
    YearOfContains(day);
    if YearOf(day) < 100 { YearStartMonotone(YearOf(day) + 1, 100); }
  }

  /** Whatever the text and the format, a parsed date lies in year 100 or later: smaller numbers
      are read as 1930 to 2029, and a missing year is today's. */
  lemma ParsedYearFrom100(loc: Locale, s: string, fmt: string, today: Instant)
    requires |loc.months| == 12 && IsInstant(today) && CivilOf(today.day).year >= 100
    ensures var r := Parse(loc, s, fmt, today); r.Date? ==> CivilOf(r.value.day).year >= 100
  {
    hide CivilOf, LocalInstant, Split, Specs, FieldsAfter, Instant.Hours, Instant.Minutes;
    var r, k := Parse(loc, s, fmt, today), CivilOf(today.day);
    if r.Date? {
      var a, b := Split(s), Specs(fmt);
      FieldsSane(loc, a, b, |a|);
      CivilOfDay(today.day);
      ClockRanges(today);
      var f := FieldsAfter(loc, a, b, |a|);
      LocalYearFrom100(Or(f.y, k.year), Or(f.m, k.month), Or(f.d, k.day),
                       Or(f.hr, today.Hours()), Or(f.min, today.Minutes()));
    }
  }

  /** All tokens together give the expected fields, and the format has specifiers. */
  lemma FieldsRead(loc: Locale, v: Instant, fmt: string)
    requires GoodNames(loc) && Tables(loc) && IsInstant(v) && CivilOf(v.day).year >= 100 && Separated(fmt)
    requires GapRun(Print(loc, v, fmt)) == 0
    ensures var a := Split(Print(loc, v, fmt));
            FieldsAfter(loc, a, Specs(fmt), |a|) == Expected(v, Specs(fmt))
    ensures Specs(fmt) != ""
  {
    hide CivilOf, Token, GoodNames, Print, Split, Take, Expected;
    var a, b := Split(Print(loc, v, fmt)), Specs(fmt);
    assert FromWord(Print(loc, v, fmt)) == Print(loc, v, fmt);
    PrintedTokens(loc, v, fmt);
    FieldsExpected(loc, v, a, b, |b|);
    assert b[..|b|] == b;
    SpecStarts(fmt);
  }

  /** Text starts with a word when the first specifier prints one. */
  lemma WordStart(loc: Locale, v: Instant, fmt: string)
    requires Tables(loc) && Separated(fmt) && Word(Piece(loc, v, fmt[1]))
    ensures GapRun(Print(loc, v, fmt)) == 0
  {
    hide CivilOf, Piece, Tables, Print, Specs, Word;
    SpecStarts(fmt);
    var w, rest := Piece(loc, v, fmt[1]), fmt[2..];
    var n := LiteralRun(rest);
    assert rest == rest[..n] + rest[n..];
    PrintHead(loc, v, fmt, rest[..n], rest[n..]);
    var tail := rest[..n] + Print(loc, v, rest[n..]);
    assert Print(loc, v, fmt) == w + tail;
    WordFirst(w, tail);
  }

  /** Clean specifiers do, from year 100 on. */
  lemma CleanStart(loc: Locale, v: Instant, fmt: string)
    requires GoodNames(loc) && Tables(loc) && IsInstant(v) && CivilOf(v.day).year >= 100
    requires Separated(fmt) && Clean(fmt[1])
    ensures GapRun(Print(loc, v, fmt)) == 0
  {
    hide CivilOf, Piece, Text, GoodNames, Tables, Print, Word, GapRun, Clean, Separated;
    SpecStarts(fmt);
    TokenText(loc, v, fmt[1]);
    PieceOfText(loc, v, fmt[1]);
    WordStart(loc, v, fmt);
  }

  lemma PieceOfText(loc: Locale, v: Instant, c: char)
    requires Tables(loc) && Text(loc, v, c).Some?
    ensures Piece(loc, v, c) == Text(loc, v, c).value
  {}
}
