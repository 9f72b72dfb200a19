/** The English language file: its names meet the premises of the round trip, and dates that do
    not come back under it. */
module EnglishNames {
  import opened Wrappers
  import opened CivilDate
  import opened JsDates
  import opened DateFormat
  import opened DateRoundTrip
  import opened InputField

  const ENGLISH := Locale(
    ["January", "February", "March", "April", "May", "June",
     "July", "August", "September", "October", "November", "December"],
    ["Jan", "Feb", "Mar", "Apr", "May", "Jun", "Jul", "Aug", "Sep", "Oct", "Nov", "Dec"],
    ["Sunday", "Monday", "Tuesday", "Wednesday", "Thursday", "Friday", "Saturday", "Sunday"],
    ["Sun", "Mon", "Tue", "Wed", "Thu", "Fri", "Sat", "Sun"],
    0)

  /** The first three letters as one number. */
  function Code(s: string): int
    requires |s| >= 3
  {
    Pack(Lower(s[0]) as int, Lower(s[1]) as int, Lower(s[2]) as int)
  }

  function Pack(a: int, b: int, c: int): int { (a * 128 + b) * 128 + c }

  lemma PackInjective(a: int, b: int, c: int, x: int, y: int, z: int)
    requires 0 <= b < 128 && 0 <= c < 128 && 0 <= y < 128 && 0 <= z < 128
    ensures Pack(a, b, c) == Pack(x, y, z) <==> a == x && b == y && c == z
  {}

  lemma LetterRange(s: string, i: int)
    requires 0 <= i < |s| && Letters(s)
    ensures 0 <= Lower(s[i]) as int < 128
  {}

  predicate Letters(s: string) { forall i :: 0 <= i < |s| ==> 'A' <= s[i] <= 'Z' || 'a' <= s[i] <= 'z' }

  /** Names of three letters abbreviate exactly those that start with them, and differ by code. */
  lemma ByCode(short: string, name: string)
    requires |short| == 3 && |name| >= 3 && Letters(short) && Letters(name)
    ensures Abbreviates(short, name) <==> Code(short) == Code(name)
  {
    hide Abbreviates, Pack, Letters, Lower;
    AbbreviatesMeans(short, name);
    forall i | 0 <= i < 3 ensures 0 <= Lower(short[i]) as int < 128 && 0 <= Lower(name[i]) as int < 128 {
      LetterRange(short, i);
      LetterRange(name, i);
    }
    PackInjective(Lower(short[0]) as int, Lower(short[1]) as int, Lower(short[2]) as int,
                  Lower(name[0]) as int, Lower(name[1]) as int, Lower(name[2]) as int);
  }

  const CODES :=
    [1_749_230, 1_684_194, 1_798_386, 1_603_698, 1_798_393, 1_751_790,
     1_751_788, 1_604_327, 1_897_200, 1_831_412, 1_816_566, 1_651_427]

  lemma MonthLetters(i: int)
    requires 0 <= i < 12
    ensures Letters(ENGLISH.months[i]) && |ENGLISH.months[i]| >= 3
  {}

  lemma ShortLetters(i: int)
    requires 0 <= i < 12
    ensures Letters(ENGLISH.shortMonths[i]) && |ENGLISH.shortMonths[i]| == 3
  {}

  lemma MonthCode(i: int)
    requires 0 <= i < 12
    ensures |ENGLISH.months[i]| >= 3 && Code(ENGLISH.months[i]) == CODES[i]
  {}

  lemma ShortCode(i: int)
    requires 0 <= i < 12
    ensures |ENGLISH.shortMonths[i]| == 3 && Code(ENGLISH.shortMonths[i]) == CODES[i]
  {}

  lemma CodesDiffer(i: int, j: int)
    requires 0 <= j < i < 12
    ensures CODES[i] != CODES[j]
  {}

  lemma DayLetters(i: int)
    requires 0 <= i < 7
    ensures ENGLISH.days[i] != "" && Letters(ENGLISH.days[i])
    ensures ENGLISH.shortDays[i] != "" && Letters(ENGLISH.shortDays[i])
  {}

  lemma MonthPair(i: int, j: int)
    requires 0 <= i < 12 && 0 <= j < 12
    ensures Abbreviates(ENGLISH.shortMonths[i], ENGLISH.months[j]) <==> i == j
  {
    hide Abbreviates, Code, Letters;
    MonthLetters(j);
    ShortLetters(i);
    MonthCode(j);
    ShortCode(i);
    if i < j { CodesDiffer(j, i); } else if j < i { CodesDiffer(i, j); }
    ByCode(ENGLISH.shortMonths[i], ENGLISH.months[j]);
  }

  /** So the premises of the round trip can be met. */
  lemma EnglishIsGood()
    ensures GoodNames(ENGLISH) && Tables(ENGLISH)
  {
    hide Abbreviates, Letters, Word;
    forall i | 0 <= i < 12 ensures Word(ENGLISH.months[i]) && Word(ENGLISH.shortMonths[i]) {
      MonthLetters(i);
      ShortLetters(i);
      LettersAreWords(ENGLISH.months[i]);
      LettersAreWords(ENGLISH.shortMonths[i]);
    }
    forall i | 0 <= i < 7 ensures Word(ENGLISH.days[i]) && Word(ENGLISH.shortDays[i]) {
      DayLetters(i);
      LettersAreWords(ENGLISH.days[i]);
      LettersAreWords(ENGLISH.shortDays[i]);
    }
    forall i, j | 0 <= i < 12 && 0 <= j < 12
      ensures Abbreviates(ENGLISH.shortMonths[i], ENGLISH.months[j]) <==> i == j
    {
      MonthPair(i, j);
    }
  }

  lemma LettersAreWords(s: string)
    requires s != "" && Letters(s)
    ensures Word(s)
  {}

  const NEW_YEAR_2030 := Instant(DayOf(Civil(2030, 0, 1)), 0)

  /** Midnight of 1 January 2030 does not come back from `%y`, which reads 1930, nor from `%I`,
      which reads noon; and from `%k`, which prints its own letter, only when parsed in the hour of
      midnight. */
  lemma NotRestored(today: Instant)
    requires IsInstant(today) && CivilOf(today.day).year >= 100
    ensures var v, fmt := NEW_YEAR_2030, FieldFormat('y', 'H');
            Parse(ENGLISH, Print(ENGLISH, v, fmt), fmt, today) != Date(Truncated(v))
    ensures var v, fmt := NEW_YEAR_2030, FieldFormat('Y', 'I');
            Parse(ENGLISH, Print(ENGLISH, v, fmt), fmt, today) != Date(Truncated(v))
    ensures var v, fmt := NEW_YEAR_2030, FieldFormat('Y', 'k');
            Parse(ENGLISH, Print(ENGLISH, v, fmt), fmt, today) == Date(Truncated(v)) <==> today.Hours() == 0
  {
    hide CivilOf, DayOf, Tables, GoodNames, Print, Parse, FieldFormat, Truncated;
    EnglishIsGood();
    DayOfCivil(Civil(2030, 0, 1));
    FieldRoundTrip(ENGLISH, NEW_YEAR_2030, today, 'y', 'H');
    FieldRoundTrip(ENGLISH, NEW_YEAR_2030, today, 'Y', 'I');
    FieldRoundTrip(ENGLISH, NEW_YEAR_2030, today, 'Y', 'k');
  }
}
