/** Text typed into the input field: how the calendar reads it, and when the converter reads the
    same minute. */
module TypedDates {
  import opened Wrappers
  import opened CivilDate
  import opened JsDates
  import opened Decimals
  import opened DateFormat
  import opened DateRoundTrip
  import opened InputField
  import opened MillisConverter

  // ---------------------------------------------------------------------------------------
  // The parts of the parser
  // ---------------------------------------------------------------------------------------

  /** `parseInt` reads the digits at the start, and fails without any. */
  lemma ParseIntMeans(digits: string, rest: string)
    requires AllDigits(digits) && (rest == "" || !IsDigit(rest[0]))
    ensures ParseInt(digits + rest) == if digits == "" then NaN else N(ReadDigits(digits))
  {
    LeadingDigits(digits, rest);
    assert (digits + rest)[..|digits|] == digits;
  }

  lemma {:induction false} LeadingDigits(digits: string, rest: string)
    requires AllDigits(digits) && (rest == "" || !IsDigit(rest[0]))
    ensures DigitRun(digits + rest) == |digits|
  {
    if digits == "" {
      assert digits + rest == rest;
    } else {
      assert (digits + rest)[1..] == digits[1..] + rest;
      LeadingDigits(digits[1..], rest);
    }
  }

  /** Splitting leaves a nonempty token exactly when the text has a word character. */
  lemma {:induction false} SplitWords(s: string)
    ensures (exists i :: 0 <= i < |Split(s)| && Split(s)[i] != "") <==> (exists i :: 0 <= i < |s| && IsWord(s[i]))
    decreases |s|
  {
    hide IsWord, WordRun, GapRun;
    var n := WordRun(s);
    if n == |s| {
      assert Split(s) == [s];
      if s != "" { assert IsWord(s[0]) && Split(s)[0] != ""; }
    } else {
      var g := GapRun(s[n..]);
      var rest := s[n + g..];
      SplitWords(rest);
      assert Split(s) == [s[..n]] + Split(rest);
      if n > 0 {
        assert IsWord(s[0]) && Split(s)[0] != "";
      } else {
        assert forall i :: 0 <= i < g ==> s[i] == s[n..][i] && !IsWord(s[i]);
        if i :| 0 <= i < |rest| && IsWord(rest[i]) { assert IsWord(s[g + i]); }
        if i :| 0 <= i < |s| && IsWord(s[i]) { assert IsWord(rest[i - g]); }
        if i :| 0 <= i < |Split(rest)| && Split(rest)[i] != "" { assert Split(s)[i + 1] != ""; }
        if i :| 0 <= i < |Split(s)| && Split(s)[i] != "" { assert Split(rest)[i - 1] != ""; }
      }
    }
  }

  /** Parsing fails for want of specifiers exactly when there are none and the text has a word. */
  lemma NoSpecifiersExactly(loc: Locale, s: string, fmt: string, today: Instant)
    requires |loc.months| == 12
    ensures Parse(loc, s, fmt, today).NoSpecifiers? <==>
            Specs(fmt) == "" && exists i :: 0 <= i < |s| && IsWord(s[i])
  {
    hide Split, Specs, FieldsAfter, IsWord;
    SplitWords(s);
  }

  // ---------------------------------------------------------------------------------------
  // Five words in the field's format
  // ---------------------------------------------------------------------------------------

  function Typed(d: string, m: string, y: string, h: string, mi: string): string {
    d + "/" + m + "/" + y + " " + h + ":" + mi
  }

  lemma TypedTokens(d: string, m: string, y: string, h: string, mi: string)
    requires Word(d) && Word(m) && Word(y) && Word(h) && Word(mi)
    ensures Split(Typed(d, m, y, h, mi)) == [d, m, y, h, mi]
  {
    hide Split, AllWord;
    var s4, s3 := mi, h + ":" + mi;
    var s2 := y + " " + s3;
    var s1 := m + "/" + s2;
    assert Typed(d, m, y, h, mi) == d + "/" + s1;
    SplitLast(mi);
    WordFirst(mi, "");
    assert mi + "" == mi;
    WordFirst(h, ":" + mi);
    WordFirst(y, " " + s3);
    WordFirst(m, "/" + s2);
    assert h + (":" + mi) == s3 && y + (" " + s3) == s2 && m + ("/" + s2) == s1;
    OneGap();
    SplitWord(h, ":", s4);
    SplitWord(y, " ", s3);
    SplitWord(m, "/", s2);
    SplitWord(d, "/", s1);
  }

  lemma OneGap()
    ensures AllGaps("/") && AllGaps(" ") && AllGaps(":")
  {}

  lemma FiveTokens(loc: Locale, d: string, m: string, y: string, h: string, mi: string)
    requires |loc.months| == 12 && d != "" && m != "" && y != "" && h != "" && mi != ""
    ensures FieldsAfter(loc, [d, m, y, h, mi], "dmYHM", 5) ==
            Fields(PivotYear(ParseInt(y)), match ParseInt(m) case NaN => NaN case N(n) => N(n - 1), ParseInt(d),
                   ParseInt(h), ParseInt(mi))
  {
    hide ParseInt, PivotYear, Meridiem, MonthFrom;
    var a, b := [d, m, y, h, mi], "dmYHM";
    var f1 := Take(loc, START, 'd', d);
    assert FieldsAfter(loc, a, b, 0) == START;
    assert FieldsAfter(loc, a, b, 1) == f1;
    var f2 := Take(loc, f1, 'm', m);
    assert FieldsAfter(loc, a, b, 2) == f2;
    var f3 := Take(loc, f2, 'Y', y);
    assert FieldsAfter(loc, a, b, 3) == f3;
    var f4 := Take(loc, f3, 'H', h);
    assert FieldsAfter(loc, a, b, 4) == f4;
  }

  /** A number typed for the year: below 30 it means 2000 to 2029, below 100 it means 1930 to 1999. */
  function TypedYear(y: int): int { if y < 30 then 2000 + y else if y < 100 then 1900 + y else y }

  /** The date that five numbers give: what is no number stands for today's value, the month is
      counted from 1, a short year is pivoted, and a year, month or day of 0 leaves the date to be
      guessed. */
  function FromNumbers(d: Num, m: Num, y: Num, h: Num, mi: Num, today: Instant): Parsed {
    var k := CivilOf(today.day);
    var year := if y.NaN? then k.year else TypedYear(y.value);
    var month := if m.NaN? then k.month else m.value - 1;
    var day := if d.NaN? then k.day else d.value;
    var hour := if h.NaN? then today.Hours() else h.value;
    var minute := if mi.NaN? then today.Minutes() else mi.value;
    if year != 0 && month != -1 && day != 0 then Date(LocalInstant(year, month, day, hour, minute, 0)) else Guess
  }

  /** How any five words in the places of the field's format are read. */
  lemma TypedWords(loc: Locale, d: string, m: string, y: string, h: string, mi: string, today: Instant)
    requires |loc.months| == 12 && Word(d) && Word(m) && Word(y) && Word(h) && Word(mi)
    ensures Parse(loc, Typed(d, m, y, h, mi), IF_FORMAT, today) ==
            FromNumbers(ParseInt(d), ParseInt(m), ParseInt(y), ParseInt(h), ParseInt(mi), today)
  {
    hide FieldsAfter, Typed, ParseInt, PivotYear, Word, Parse, FilledIn, FromNumbers;
    TypedFilledIn(loc, d, m, y, h, mi, today);
    NonemptyWords(d, m, y, h, mi);
    FiveTokens(loc, d, m, y, h, mi);
    FilledInNumbers(ParseInt(d), ParseInt(m), ParseInt(y), ParseInt(h), ParseInt(mi), today);
  }

  lemma TypedFilledIn(loc: Locale, d: string, m: string, y: string, h: string, mi: string, today: Instant)
    requires |loc.months| == 12 && Word(d) && Word(m) && Word(y) && Word(h) && Word(mi)
    ensures Parse(loc, Typed(d, m, y, h, mi), IF_FORMAT, today) ==
            FilledIn(FieldsAfter(loc, [d, m, y, h, mi], "dmYHM", 5), today)
  {
    hide Split, Specs, Typed, FieldsAfter, Word, Parse, FilledIn;
    TypedTokens(d, m, y, h, mi);
    FieldLetters();
    ParseByFields(loc, Typed(d, m, y, h, mi), IF_FORMAT, today, [d, m, y, h, mi], "dmYHM");
  }

  lemma FieldLetters()
    ensures Specs(IF_FORMAT) == "dmYHM"
  {
    hide Specs, Separated, FieldFormat;
    IfFormat();
    FieldSpecs('Y', 'H');
    assert ['d', 'm', 'Y', 'H', 'M'] == "dmYHM";
  }

  /** Fields, and today's values for those that are no number. */
  function FilledIn(f: Fields, today: Instant): Parsed {
    var k := CivilOf(today.day);
    var y, m, d := Or(f.y, k.year), Or(f.m, k.month), Or(f.d, k.day);
    if y != 0 && m != -1 && d != 0 then
      Date(LocalInstant(y, m, d, Or(f.hr, today.Hours()), Or(f.min, today.Minutes()), 0))
    else Guess
  }

  lemma FilledInNumbers(d: Num, m: Num, y: Num, h: Num, mi: Num, today: Instant)
    ensures FilledIn(Fields(PivotYear(y), match m case NaN => NaN case N(n) => N(n - 1), d, h, mi), today) ==
            FromNumbers(d, m, y, h, mi, today)
  {
    hide CivilOf, LocalInstant, Instant.Hours, Instant.Minutes;
  }

  lemma ParseByFields(loc: Locale, s: string, fmt: string, today: Instant, a: seq<string>, b: string)
    requires |loc.months| == 12 && Split(s) == a && Specs(fmt) == b && b != ""
    ensures Parse(loc, s, fmt, today) == FilledIn(FieldsAfter(loc, a, b, |a|), today)
  {
    hide CivilOf, LocalInstant, Split, Specs, FieldsAfter;
  }

  lemma NonemptyWords(d: string, m: string, y: string, h: string, mi: string)
    requires Word(d) && Word(m) && Word(y) && Word(h) && Word(mi)
    ensures d != "" && m != "" && y != "" && h != "" && mi != ""
  {}

  /** Five numbers: month or day 0 leaves the date to be guessed, and every other number counts,
      overflowing into the next field where it is too large. */
  lemma TypedNumbers(loc: Locale, d: string, m: string, y: string, h: string, mi: string, today: Instant)
    requires |loc.months| == 12
    requires d != "" && m != "" && y != "" && h != "" && mi != ""
    requires AllDigits(d) && AllDigits(m) && AllDigits(y) && AllDigits(h) && AllDigits(mi)
    ensures Parse(loc, Typed(d, m, y, h, mi), IF_FORMAT, today) ==
            if ReadDigits(d) == 0 || ReadDigits(m) == 0 then Guess
            else Date(LocalInstant(TypedYear(ReadDigits(y)), ReadDigits(m) - 1, ReadDigits(d),
                                   ReadDigits(h), ReadDigits(mi), 0))
  {
    hide LocalInstant, ParseInt, Typed, Parse, ReadDigits, AllDigits, Word, FromNumbers, TypedYear;
    NumberWords(d);
    NumberWords(m);
    NumberWords(y);
    NumberWords(h);
    NumberWords(mi);
    TypedWords(loc, d, m, y, h, mi, today);
    AllPresent(ReadDigits(d), ReadDigits(m), ReadDigits(y), ReadDigits(h), ReadDigits(mi), today);
  }

  lemma AllPresent(d: nat, m: nat, y: nat, h: nat, mi: nat, today: Instant)
    ensures FromNumbers(N(d), N(m), N(y), N(h), N(mi), today) ==
            if d == 0 || m == 0 then Guess else Date(LocalInstant(TypedYear(y), m - 1, d, h, mi, 0))
  {
    hide LocalInstant;
  }

  lemma NumberWords(s: string)
    requires s != "" && AllDigits(s)
    ensures Word(s) && ParseInt(s) == N(ReadDigits(s)) && ReadDigits(s) >= 0
  {
    DigitsAreWords(s);
    ParseDigits(s);
    ReadDigitsNonnegative(s);
  }

  // ---------------------------------------------------------------------------------------
  // The same text in the converter
  // ---------------------------------------------------------------------------------------

  /** Numbers of the converter's lengths, from year 1583 on: the calendar and the converter read the
      same minute, overflowing fields included, exactly when neither the day nor the month is 00;
      then the calendar guesses while the converter goes on counting. */
  lemma TypedAgree(
    loc: Locale, d: string, m: string, y: string, h: string, mi: string, today: Instant, now: Instant, offset: int)
    requires |loc.months| == 12
    requires DateTimeParts(d, m, y, " ", h, mi, "") && ReadDigits(y) >= 1583
    ensures var text := Typed(d, m, y, h, mi);
            var shown, read := Parse(loc, text, IF_FORMAT, today), GetAsObject(text, false, now, offset);
            && read.Millis?
            && (shown.Date? <==> ReadDigits(d) != 0 && ReadDigits(m) != 0)
            && (shown.Date? ==> read == Millis(shown.value.Millis() + now.time % 60_000 - offset))
  {
    hide LocalInstant, Parse, GetAsObject, ReadDigits, AllDigits, NumbersMillis, Instant.Millis, DateTimeParts,
         IsDateTimeText, Typed;
    FilledParts(d, m, y, h, mi);
    TypedNumbers(loc, d, m, y, h, mi, today);
    TypedIsDateTime(d, m, y, h, mi);
    DateTimeTextToMillis(Typed(d, m, y, h, mi), d, m, y, " ", h, mi, "", now, offset);
    LocalMillis(d, m, y, h, mi, now.time % 60_000);
  }

  lemma TypedIsDateTime(d: string, m: string, y: string, h: string, mi: string)
    requires DateTimeParts(d, m, y, " ", h, mi, "")
    ensures IsDateTimeText(Typed(d, m, y, h, mi), d, m, y, " ", h, mi, "")
  {
    hide DateTimeParts;
    assert Typed(d, m, y, h, mi) + "" == Typed(d, m, y, h, mi);
  }

  lemma FilledParts(d: string, m: string, y: string, h: string, mi: string)
    requires DateTimeParts(d, m, y, " ", h, mi, "")
    ensures d != "" && m != "" && y != "" && h != "" && mi != ""
    ensures AllDigits(d) && AllDigits(m) && AllDigits(y) && AllDigits(h) && AllDigits(mi)
  {}

  lemma LocalMillis(d: string, m: string, y: string, h: string, mi: string, rest: int)
    requires ReadDigits(y) >= 100
    ensures LocalInstant(ReadDigits(y), ReadDigits(m) - 1, ReadDigits(d), ReadDigits(h), ReadDigits(mi), 0).Millis() +
            rest == NumbersMillis(d, m, y, h, mi, rest)
  {
    hide ReadDigits, LocalInstant, LenientMillis, Instant.Millis;
    LocalMillisOf(ReadDigits(y), ReadDigits(m) - 1, ReadDigits(d), ReadDigits(h), ReadDigits(mi), rest);
  }

  lemma LocalMillisOf(y: int, m: int, d: int, h: int, mi: int, rest: int)
    requires y >= 100
    ensures LocalInstant(y, m, d, h, mi, 0).Millis() + rest == LenientMillis(y, m, d, h, mi, rest)
  {
    hide MakeDay;
  }
}
