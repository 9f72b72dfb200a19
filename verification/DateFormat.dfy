/** Printing a date by a format, and parsing it back. */
module DateFormat {
  import opened Wrappers
  import opened CivilDate
  import opened IsoWeek
  import opened JsDates
  import opened Decimals

  /** The name tables of the language file, and the zone's fixed offset from UTC in milliseconds. */
  datatype Locale = Locale(
    months: seq<string>, shortMonths: seq<string>, days: seq<string>, shortDays: seq<string>, offset: int)

  ghost predicate Tables(loc: Locale) {
    |loc.months| == 12 && |loc.shortMonths| == 12 && |loc.days| >= 7 && |loc.shortDays| >= 7
  }

  // ---------------------------------------------------------------------------------------
  // Printing
  // ---------------------------------------------------------------------------------------

  /** Numbers and strings in the table of values; 0 and "" are falsy. */
  function NumText(n: int): Option<string> { if n == 0 then None else Some(IntText(n)) }

  function StrText(s: string): Option<string> { if s == "" then None else Some(s) }

  /** The hour on a 12-hour clock. */
  function Hour12(hr: int): int {
    var ir := if hr >= 12 then hr - 12 else hr;
    if ir == 0 then 12 else ir
  }

  /** `substr(2, 2)` */
  function Substr22(s: string): string {
    if |s| <= 2 then "" else if |s| <= 4 then s[2..] else s[2..4]
  }

  function Pad3(n: int): string {
    if n < 10 then "00" + IntText(n) else if n < 100 then "0" + IntText(n) else IntText(n)
  }

  /** The text for the specifier `%c`; without one the specifier itself is printed. */
  function Text(loc: Locale, v: Instant, c: char): Option<string>
    requires Tables(loc)
  {
    var k := CivilOf(v.day);
    var hr := v.Hours();
    var pm := hr >= 12;
    if c == 'a' then StrText(loc.shortDays[Weekday(v.day)])
    else if c == 'A' then StrText(loc.days[Weekday(v.day)])
    else if c == 'b' then (if 0 <= k.month < 12 then StrText(loc.shortMonths[k.month]) else None)
    else if c == 'B' then (if 0 <= k.month < 12 then StrText(loc.months[k.month]) else None)
    else if c == 'C' then NumText(1 + k.year / 100)
    else if c == 'd' then Some(Pad(k.day))
    else if c == 'e' then NumText(k.day)
    else if c == 'H' then Some(Pad(hr))
    else if c == 'I' then Some(Pad(Hour12(hr)))
    else if c == 'j' then Some(Pad3(DayOfYear(v.day)))
    else if c == 'k' then NumText(hr)
    else if c == 'l' then NumText(Hour12(hr))
    else if c == 'm' then Some(Pad(1 + k.month))
    else if c == 'M' then Some(Pad(v.Minutes()))
    else if c == 'n' then Some("\n")
    else if c == 'p' then Some(if pm then "PM" else "AM")
    else if c == 'P' then Some(if pm then "pm" else "am")
    else if c == 's' then NumText((v.Millis() - loc.offset) / 1000)
    else if c == 'S' then Some(Pad(v.Seconds()))
    else if c == 't' then Some("\t")
    else if c == 'U' || c == 'W' || c == 'V' then Some(Pad(WeekNumber(v.day)))
    else if c == 'u' then NumText(Weekday(v.day) + 1)
    else if c == 'w' then NumText(Weekday(v.day))
    else if c == 'y' then StrText(Substr22(IntText(k.year)))
    else if c == 'Y' then NumText(k.year)
    else if c == '%' then Some("%")
    else None
  }

  /** What is printed for the specifier `%c`: its text, or the specifier itself. */
  function Piece(loc: Locale, v: Instant, c: char): string
    requires Tables(loc)
  {
    match Text(loc, v, c) case Some(s) => s case None => ['%', c]
  }

  /** The characters that `.` does not match in a regular expression. */
  predicate LineEnd(c: char) { c == '\n' || c == '\r' || c == '\U{2028}' || c == '\U{2029}' }

  /** The format begins with a match of `%.`. */
  predicate StartsSpec(fmt: string) { |fmt| >= 2 && fmt[0] == '%' && !LineEnd(fmt[1]) }

  /** Replaces every `%.` from left to right. */
  function Print(loc: Locale, v: Instant, fmt: string): string
    requires Tables(loc)
  {
    if fmt == "" then ""
    else if StartsSpec(fmt) then
      Piece(loc, v, fmt[1]) + Print(loc, v, fmt[2..])
    else [fmt[0]] + Print(loc, v, fmt[1..])
  }

  // ---------------------------------------------------------------------------------------
  // Parsing
  // ---------------------------------------------------------------------------------------

  predicate IsWord(c: char) { '0' <= c <= '9' || 'A' <= c <= 'Z' || 'a' <= c <= 'z' || c == '_' }

  /** Length of the longest prefix of word characters. */
  function WordRun(s: string): (n: nat)
    ensures n <= |s| && (n < |s| ==> !IsWord(s[n]))
    ensures forall i :: 0 <= i < n ==> IsWord(s[i])
  {
    if s == "" || !IsWord(s[0]) then 0 else 1 + WordRun(s[1..])
  }

  /** Length of the longest prefix of other characters. */
  function GapRun(s: string): (n: nat)
    ensures n <= |s| && (n < |s| ==> IsWord(s[n]))
    ensures forall i :: 0 <= i < n ==> !IsWord(s[i])
  {
    if s == "" || IsWord(s[0]) then 0 else 1 + GapRun(s[1..])
  }

  /** `split(/\W+/)`: the pieces between runs of other characters, the outer ones maybe empty. */
  function Split(s: string): seq<string>
    decreases |s|
  {
    var n := WordRun(s);
    if n == |s| then [s]
    else
      var g := GapRun(s[n..]);
      assert g > 0;
      [s[..n]] + Split(s[n + g..])
  }

  /** `match(/%./g)`: the specifier letters. */
  function Specs(fmt: string): string {
    if fmt == "" then ""
    else if StartsSpec(fmt) then [fmt[1]] + Specs(fmt[2..])
    else Specs(fmt[1..])
  }

  datatype Num = NaN | N(value: int)

  function DigitRun(s: string): (n: nat)
    ensures n <= |s|
  {
    if s == "" || !IsDigit(s[0]) then 0 else 1 + DigitRun(s[1..])
  }

  /** `parseInt(s, 10)` on a string of word characters. */
  function ParseInt(s: string): Num {
    var n := DigitRun(s);
    if n == 0 then NaN else N(ReadDigits(s[..n]))
  }

  function Lower(c: char): char { if 'A' <= c <= 'Z' then (c as int + 32) as char else c }

  function LowerAll(s: string): string { seq(|s|, i requires 0 <= i < |s| => Lower(s[i])) }

  /** Case-blind comparison of the token with a prefix of the name. */
  predicate Abbreviates(token: string, name: string) {
    LowerAll(if |token| <= |name| then name[..|token|] else name) == LowerAll(token)
  }

  /** The first month from `j` on that the token abbreviates, or 12. */
  function MonthFrom(loc: Locale, token: string, j: nat): (r: nat)
    requires |loc.months| == 12 && j <= 12
    ensures j <= r <= 12
    ensures r < 12 ==> Abbreviates(token, loc.months[r])
    ensures forall i :: j <= i < r ==> !Abbreviates(token, loc.months[i])
    decreases 12 - j
  {
    if j == 12 || Abbreviates(token, loc.months[j]) then j else MonthFrom(loc, token, j + 1)
  }

  /** Whether two adjacent letters, in either case, occur. */
  predicate Mentions(s: string, a: char, b: char) {
    exists i :: 0 <= i < |s| - 1 && Lower(s[i]) == a && Lower(s[i + 1]) == b
  }

  datatype Fields = Fields(y: Num, m: Num, d: Num, hr: Num, min: Num)

  const START := Fields(N(0), N(-1), N(0), N(0), N(0))

  /** Years below 100 are read as 1930 to 2029. */
  function PivotYear(y: Num): Num {
    if y.N? && y.value < 100 then N(y.value + if y.value > 29 then 1900 else 2000) else y
  }

  function Meridiem(hr: Num, token: string): Num {
    if Mentions(token, 'p', 'm') && hr.N? && hr.value < 12 then N(hr.value + 12)
    else if Mentions(token, 'a', 'm') && hr.N? && hr.value >= 12 then N(hr.value - 12)
    else hr
  }

  /** What one token does under the specifier `%c`. */
  function Take(loc: Locale, f: Fields, c: char, token: string): Fields
    requires |loc.months| == 12
  {
    if c == 'd' || c == 'e' then f.(d := ParseInt(token))
    else if c == 'm' then
      f.(m := match ParseInt(token) case NaN => NaN case N(n) => N(n - 1))
    else if c == 'Y' || c == 'y' then f.(y := PivotYear(ParseInt(token)))
    else if c == 'b' || c == 'B' then
      (var j := MonthFrom(loc, token, 0); if j < 12 then f.(m := N(j)) else f)
    else if c == 'H' || c == 'I' || c == 'k' || c == 'l' then f.(hr := ParseInt(token))
    else if c == 'P' || c == 'p' then f.(hr := Meridiem(f.hr, token))
    else if c == 'M' then f.(min := ParseInt(token))
    else f
  }

  /** The fields after the first `n` tokens; empty tokens are skipped. */
  function FieldsAfter(loc: Locale, a: seq<string>, b: string, n: nat): Fields
    requires |loc.months| == 12 && n <= |a|
  {
    if n == 0 then START
    else
      var f := FieldsAfter(loc, a, b, n - 1);
      if a[n - 1] == "" || n - 1 >= |b| then f else Take(loc, f, b[n - 1], a[n - 1])
  }

  function Or(x: Num, default: int): int { if x.NaN? then default else x.value }

  /** `NoSpecifiers`: the format has none, and indexing the missing match throws.
      `Guess`: year, month or day is missing, and the source goes on to guess. */
  datatype Parsed = NoSpecifiers | Guess | Date(value: Instant)

  function Parse(loc: Locale, s: string, fmt: string, today: Instant): Parsed
    requires |loc.months| == 12
  {
    var a, b := Split(s), Specs(fmt);
    if b == "" && exists i :: 0 <= i < |a| && a[i] != "" then NoSpecifiers
    else
      var f := FieldsAfter(loc, a, b, |a|);
      var y := Or(f.y, CivilOf(today.day).year);
      var m := Or(f.m, CivilOf(today.day).month);
      var d := Or(f.d, CivilOf(today.day).day);
      if y != 0 && m != -1 && d != 0 then
        Date(LocalInstant(y, m, d, Or(f.hr, today.Hours()), Or(f.min, today.Minutes()), 0))
      else Guess
  }

  /** The loop over the month names. */
  method FindMonth(loc: Locale, token: string, m0: Num) returns (m: Num)
    requires |loc.months| == 12
    ensures m == if MonthFrom(loc, token, 0) < 12 then N(MonthFrom(loc, token, 0)) else m0
  {
    m := m0;
    var j := 0;
    while j < 12
      invariant 0 <= j <= 12 && m == m0 && MonthFrom(loc, token, 0) == MonthFrom(loc, token, j)
    {
      if Abbreviates(token, loc.months[j]) {
        m := N(j);
        break;
      }
      j := j + 1;
    }
  }

  /** `Date.parseDate`, up to the guessing part. */
  method ParseDate(loc: Locale, s: string, fmt: string, today: Instant) returns (r: Parsed)
    requires |loc.months| == 12
    ensures r == Parse(loc, s, fmt, today)
  {
    hide Split, Specs, ParseInt, PivotYear, MonthFrom;
    hide CivilOf, LocalInstant;
    var y, m, d, hr, min := N(0), N(-1), N(0), N(0), N(0);
    var a, b := Split(s), Specs(fmt);
    var i := 0;
    while i < |a|
      invariant 0 <= i <= |a|
      invariant Fields(y, m, d, hr, min) == FieldsAfter(loc, a, b, i)
      invariant b == "" ==> forall k :: 0 <= k < i ==> a[k] == ""
    {
      if a[i] != "" {
        if b == "" {
          return NoSpecifiers;
        }
        if i < |b| {
          var c := b[i];
          if c == 'd' || c == 'e' {
            d := ParseInt(a[i]);
          } else if c == 'm' {
            var n := ParseInt(a[i]);
            m := if n.NaN? then NaN else N(n.value - 1);
          } else if c == 'Y' || c == 'y' {
            y := PivotYear(ParseInt(a[i]));
          } else if c == 'b' || c == 'B' {
            m := FindMonth(loc, a[i], m);
          } else if c == 'H' || c == 'I' || c == 'k' || c == 'l' {
            hr := ParseInt(a[i]);
          } else if c == 'P' || c == 'p' {
            if Mentions(a[i], 'p', 'm') && hr.N? && hr.value < 12 {
              hr := N(hr.value + 12);
            } else if Mentions(a[i], 'a', 'm') && hr.N? && hr.value >= 12 {
              hr := N(hr.value - 12);
            }
          } else if c == 'M' {
            min := ParseInt(a[i]);
          }
        }
      }
      i := i + 1;
    }
    var year := Or(y, CivilOf(today.day).year);
    var month := Or(m, CivilOf(today.day).month);
    var day := Or(d, CivilOf(today.day).day);
    if year != 0 && month != -1 && day != 0 {
      r := Date(LocalInstant(year, month, day, Or(hr, today.Hours()), Or(min, today.Minutes()), 0));
    } else {
      r := Guess;
    }
  }
}
