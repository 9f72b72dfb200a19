/** The JSF converter between date text and epoch milliseconds, in a zone with a fixed offset, and
    its round trip with the text that the calendar widget prints. */
module MillisConverter {
  import opened Wrappers
  import opened CivilDate
  import opened JsDates
  import opened Decimals
  import opened DateFormat
  import opened DateRoundTrip
  import opened InputField

  /** `EmptyZero`: the literal empty string gives 0. `InvalidDate`: the converter exception. */
  datatype Converted = EmptyZero | InvalidDate | Millis(value: int)

  /** `\s` of java.util.regex. */
  predicate IsSpace(c: char) {
    c == ' ' || c == '\t' || c == '\n' || c == '\U{0B}' || c == '\U{0C}' || c == '\r'
  }

  predicate AllSpace(s: string) { forall i :: 0 <= i < |s| ==> IsSpace(s[i]) }

  function SpaceRun(s: string): (n: nat)
    ensures n <= |s| && AllSpace(s[..n]) && (n < |s| ==> !IsSpace(s[n]))
  {
    if s == "" || !IsSpace(s[0]) then 0 else 1 + SpaceRun(s[1..])
  }

  /** `(\d{2}/){2}\d{4}` at the start. */
  predicate DatePart(s: string) {
    && |s| >= 10 && AllDigits(s[..2]) && s[2] == '/' && AllDigits(s[3..5]) && s[5] == '/' && AllDigits(s[6..10])
  }

  predicate MatchesDate(s: string) { DatePart(s) && AllSpace(s[10..]) }

  predicate MatchesDateTime(s: string) {
    && DatePart(s)
    && var n := SpaceRun(s[10..]);
       var t := s[10 + n..];
       n > 0 && |t| >= 5 && AllDigits(t[..2]) && t[2] == ':' && AllDigits(t[3..5]) && AllSpace(t[5..])
  }

  predicate IsSeparator(c: char) { c == '/' || c == ':' || IsSpace(c) }

  function FieldRun(s: string): (n: nat)
    ensures n <= |s| && (n < |s| ==> IsSeparator(s[n]))
  {
    if s == "" || IsSeparator(s[0]) then 0 else 1 + FieldRun(s[1..])
  }

  /** The pieces between matches of `/|\s+|:`. */
  function Pieces(s: string): seq<string>
    decreases |s|
  {
    var n := FieldRun(s);
    if n == |s| then [s]
    else
      var g := if IsSpace(s[n]) then SpaceRun(s[n..]) else 1;
      assert g > 0;
      [s[..n]] + Pieces(s[n + g..])
  }

  function DropTrailingEmpty(ps: seq<string>): seq<string> {
    if ps != [] && ps[|ps| - 1] == "" then DropTrailingEmpty(ps[..|ps| - 1]) else ps
  }

  /** `String.split`: without a match the string itself; otherwise no trailing empty pieces. */
  function JavaSplit(s: string): seq<string> {
    if FieldRun(s) == |s| then [s] else DropTrailingEmpty(Pieces(s))
  }

  // ---------------------------------------------------------------------------------------
  // What an accepted text splits into
  // ---------------------------------------------------------------------------------------

  lemma {:induction false} FieldRunOf(w: string, rest: string)
    requires AllDigits(w) && (rest == "" || IsSeparator(rest[0]))
    ensures FieldRun(w + rest) == |w|
  {
    if w == "" {
      assert w + rest == rest;
    } else {
      assert (w + rest)[1..] == w[1..] + rest;
      FieldRunOf(w[1..], rest);
    }
  }

  lemma {:induction false} SpaceRunOf(g: string, rest: string)
    requires AllSpace(g) && (rest == "" || !IsSpace(rest[0]))
    ensures SpaceRun(g + rest) == |g|
  {
    if g == "" {
      assert g + rest == rest;
    } else {
      assert (g + rest)[1..] == g[1..] + rest;
      SpaceRunOf(g[1..], rest);
    }
  }

  /** A field, one separator, and the rest. */
  lemma PieceStep(w: string, g: string, rest: string)
    requires AllDigits(w)
    requires g == "/" || g == ":" || (g != "" && AllSpace(g) && (rest == "" || !IsSpace(rest[0])))
    ensures Pieces(w + g + rest) == [w] + Pieces(rest) && FieldRun(w + g + rest) == |w|
  {
    hide AllDigits, AllSpace, SpaceRun;
    var s := w + g + rest;
    assert s == w + (g + rest);
    GapStarts(g, rest);
    FieldRunOf(w, g + rest);
    assert s[|w|..] == g + rest && s[|w|] == g[0];
    assert s[|w| + |g|..] == rest && s[..|w|] == w;
  }

  /** The gap is one separator, or a maximal run of blanks. */
  lemma GapStarts(g: string, rest: string)
    requires g == "/" || g == ":" || (g != "" && AllSpace(g) && (rest == "" || !IsSpace(rest[0])))
    ensures IsSeparator(g[0]) && (g + rest)[0] == g[0]
    ensures if g == "/" || g == ":" then !IsSpace(g[0]) && |g| == 1 else IsSpace(g[0]) && SpaceRun(g + rest) == |g|
  {
    hide SpaceRun;
    if g != "/" && g != ":" { SpaceRunOf(g, rest); }
  }

  lemma LastPiece(w: string, g: string)
    requires w != "" && AllDigits(w) && AllSpace(g)
    ensures Pieces(w + g) == if g == "" then [w] else [w, ""]
  {
    if g == "" {
      assert w + g == w && w + "" == w;
      FieldRunOf(w, "");
    } else {
      assert w + g + "" == w + g;
      PieceStep(w, g, "");
    }
  }

  lemma DropOne(ps: seq<string>)
    requires ps != [] && ps[|ps| - 1] != ""
    ensures DropTrailingEmpty(ps) == ps && DropTrailingEmpty(ps + [""]) == ps
  {
    assert (ps + [""])[..|ps|] == ps;
  }

  lemma DatePieces(a: string, b: string, rest: string)
    requires AllDigits(a) && AllDigits(b)
    ensures Pieces(a + "/" + b + "/" + rest) == [a, b] + Pieces(rest)
    ensures FieldRun(a + "/" + b + "/" + rest) < |a + "/" + b + "/" + rest|
  {
    hide Pieces, FieldRun, AllDigits;
    assert a + "/" + b + "/" + rest == a + "/" + (b + "/" + rest);
    PieceStep(a, "/", b + "/" + rest);
    PieceStep(b, "/", rest);
  }

  lemma TimePieces(c: string, g: string, h: string, m: string, g1: string)
    requires AllDigits(c) && AllDigits(h) && AllDigits(m)
    requires h != "" && m != "" && g != "" && AllSpace(g) && AllSpace(g1)
    ensures Pieces(c + g + h + ":" + m + g1) == [c, h, m] + if g1 == "" then [] else [""]
  {
    hide Pieces, FieldRun;
    var tail := h + ":" + (m + g1);
    assert c + g + h + ":" + m + g1 == c + g + tail;
    PieceStep(c, g, tail);
    PieceStep(h, ":", m + g1);
    LastPiece(m, g1);
  }

  /** Day, month and year, possibly followed by blanks. */
  lemma SplitDate(a: string, b: string, c: string, g: string)
    requires AllDigits(a) && AllDigits(b) && AllDigits(c) && c != "" && AllSpace(g)
    ensures JavaSplit(a + "/" + b + "/" + c + g) == [a, b, c]
  {
    hide DropTrailingEmpty, Pieces, FieldRun, AllDigits, AllSpace;
    assert a + "/" + b + "/" + c + g == a + "/" + b + "/" + (c + g);
    DatePieces(a, b, c + g);
    LastPiece(c, g);
    DropOne([a, b, c]);
    assert [a, b] + [c] == [a, b, c] && [a, b] + [c, ""] == [a, b, c] + [""];
  }

  lemma SplitDateTime(a: string, b: string, c: string, g: string, h: string, m: string, g1: string)
    requires AllDigits(a) && AllDigits(b) && AllDigits(c) && AllDigits(h) && AllDigits(m)
    requires h != "" && m != "" && g != "" && AllSpace(g) && AllSpace(g1)
    ensures JavaSplit(a + "/" + b + "/" + c + g + h + ":" + m + g1) == [a, b, c, h, m]
  {
    hide DropTrailingEmpty, Pieces, FieldRun, AllDigits, AllSpace;
    var rest := c + g + h + ":" + m + g1;
    assert a + "/" + b + "/" + c + g + h + ":" + m + g1 == a + "/" + b + "/" + rest;
    DatePieces(a, b, rest);
    TimePieces(c, g, h, m, g1);
    DropOne([a, b, c, h, m]);
    assert [a, b] + ([c, h, m] + []) == [a, b, c, h, m];
    assert [a, b] + ([c, h, m] + [""]) == [a, b, c, h, m] + [""];
  }

  /** An accepted text splits into three or five fields, every one of them a number: no index
      and no number format can go wrong. */
  lemma AcceptedSplits(s: string)
    requires MatchesDate(s) || MatchesDateTime(s)
    ensures |JavaSplit(s)| == if MatchesDate(s) then 3 else 5
    ensures forall i :: 0 <= i < |JavaSplit(s)| ==> JavaSplit(s)[i] != "" && AllDigits(JavaSplit(s)[i])
    ensures JavaSplit(s)[0] == s[..2] && JavaSplit(s)[1] == s[3..5] && JavaSplit(s)[2] == s[6..10]
  {
    hide JavaSplit;
    var a, b, c := s[..2], s[3..5], s[6..10];
    if MatchesDate(s) {
      assert s == a + "/" + b + "/" + c + s[10..];
      SplitDate(a, b, c, s[10..]);
    } else {
      var n := SpaceRun(s[10..]);
      var g, t := s[10..10 + n], s[10 + n..];
      assert g == s[10..][..n];
      assert t == t[..2] + ":" + t[3..5] + t[5..];
      assert s == a + "/" + b + "/" + c + g + t[..2] + ":" + t[3..5] + t[5..];
      SplitDateTime(a, b, c, g, t[..2], t[3..5], t[5..]);
    }
  }

  // ---------------------------------------------------------------------------------------
  // The two conversions
  // ---------------------------------------------------------------------------------------

  /** A lenient calendar: every field may overflow. */
  function LenientMillis(y: int, m: int, d: int, h: int, mi: int, rest: int): int {
    MakeDay(y, m, d) * DAY_MS + h * 3_600_000 + mi * 60_000 + rest
  }

  /** `now` is the local time of the call, from which the fields that are not set are taken;
      `interned` says that the parameter is the literal empty string itself. */
  function GetAsObject(param: string, interned: bool, now: Instant, offset: int): Converted {
    if interned then EmptyZero
    else if MatchesDateTime(param) || MatchesDate(param) then
      AcceptedSplits(param);
      FromFields(JavaSplit(param), now, offset)
    else InvalidDate
  }

  function FromFields(date: seq<string>, now: Instant, offset: int): Converted
    requires |date| == 3 || |date| == 5
  {
    if |date| == 3 then Millis(NumbersMillis(date[0], date[1], date[2], "", "", now.time) - offset)
    else Millis(NumbersMillis(date[0], date[1], date[2], date[3], date[4], now.time % 60_000) - offset)
  }

  /** Day, month and year, hours and minutes, and the milliseconds after them, of the lenient
      calendar; no digits count as 0. */
  function NumbersMillis(d: string, m: string, y: string, h: string, mi: string, rest: int): int {
    LenientMillis(ReadDigits(y), ReadDigits(m) - 1, ReadDigits(d), ReadDigits(h), ReadDigits(mi), rest)
  }

  function Pad4(n: nat): string {
    if n < 10 then "000" + Decimal(n) else if n < 100 then "00" + Decimal(n)
    else if n < 1000 then "0" + Decimal(n) else Decimal(n)
  }

  function LocalOf(millis: int, offset: int): Instant {
    Instant((millis + offset) / DAY_MS, (millis + offset) % DAY_MS)
  }

  /** The pattern `dd/MM/yyyy HH:mm`. */
  function MinuteText(v: Instant): string {
    var k := CivilOf(v.day);
    if !(0 <= k.month < 12 && 1 <= k.day && 0 <= k.year && IsInstantTime(v.time)) then ""
    else
      Pad(k.day) + "/" + Pad(k.month + 1) + "/" + Pad4(k.year) + " " +
      Pad(v.Hours()) + ":" + Pad(v.Minutes())
  }

  predicate IsInstantTime(time: int) { 0 <= time < DAY_MS }

  /** The text of the number must be digits only and not "0". */
  function GetAsString(millis: int, offset: int): string {
    var check := IntText(millis);
    if AllDigits(check) && check != "0" then MinuteText(LocalOf(millis, offset)) else ""
  }

  // ---------------------------------------------------------------------------------------
  // Which texts are accepted
  // ---------------------------------------------------------------------------------------

  predicate Digits(s: string, n: nat) { |s| == n && AllDigits(s) }

  /** Space, or one of the control characters from tab to carriage return. */
  predicate Blanks(s: string) { forall i :: 0 <= i < |s| ==> s[i] == ' ' || 9 <= s[i] as int <= 13 }

  lemma BlanksAreSpace(s: string)
    ensures Blanks(s) <==> AllSpace(s)
  {}

  predicate DateParts(d: string, m: string, y: string, blanks: string) {
    Digits(d, 2) && Digits(m, 2) && Digits(y, 4) && Blanks(blanks)
  }

  predicate DateTimeParts(d: string, m: string, y: string, gap: string, h: string, mi: string, blanks: string) {
    DateParts(d, m, y, blanks) && gap != "" && Blanks(gap) && Digits(h, 2) && Digits(mi, 2)
  }

  predicate IsDateText(s: string, d: string, m: string, y: string, blanks: string) {
    DateParts(d, m, y, blanks) && s == d + "/" + m + "/" + y + blanks
  }

  predicate IsDateTimeText(
    s: string, d: string, m: string, y: string, gap: string, h: string, mi: string, blanks: string)
  {
    DateTimeParts(d, m, y, gap, h, mi, blanks) && s == d + "/" + m + "/" + y + gap + h + ":" + mi + blanks
  }

  /** Two digits, two digits and four digits, and nothing but blanks after them. */
  ghost predicate DateForm(s: string) { exists d, m, y, blanks :: IsDateText(s, d, m, y, blanks) }

  /** The same, at least one blank, two digits and two digits, and nothing but blanks after them. */
  ghost predicate DateTimeForm(s: string) {
    exists d, m, y, gap, h, mi, blanks :: IsDateTimeText(s, d, m, y, gap, h, mi, blanks)
  }

  lemma DateMatches(s: string)
    ensures MatchesDate(s) <==> DateForm(s)
  {
    hide JavaSplit;
    if MatchesDate(s) {
      BlanksAreSpace(s[10..]);
      assert IsDateText(s, s[..2], s[3..5], s[6..10], s[10..]);
    }
    if d, m, y, blanks :| IsDateText(s, d, m, y, blanks) {
      BlanksAreSpace(blanks);
      DateTextAccepted(d, m, y, blanks);
    }
  }

  lemma DateTimeMatches(s: string)
    ensures MatchesDateTime(s) <==> DateTimeForm(s)
  {
    hide JavaSplit;
    if MatchesDateTime(s) {
      var n := SpaceRun(s[10..]);
      var g, t := s[10..10 + n], s[10 + n..];
      assert g == s[10..][..n];
      assert t == t[..2] + ":" + t[3..5] + t[5..];
      BlanksAreSpace(g);
      BlanksAreSpace(t[5..]);
      assert IsDateTimeText(s, s[..2], s[3..5], s[6..10], g, t[..2], t[3..5], t[5..]);
    }
    if d, m, y, gap, h, mi, blanks :| IsDateTimeText(s, d, m, y, gap, h, mi, blanks) {
      DateTimeAccepted(d, m, y, gap, h, mi, blanks);
    }
  }

  /** Exactly the texts of neither form are refused, and exactly the literal empty string gives the
      zero that stands for no date. */
  lemma RefusedExactly(param: string, interned: bool, now: Instant, offset: int)
    ensures GetAsObject(param, interned, now, offset).InvalidDate? <==>
            !interned && !DateForm(param) && !DateTimeForm(param)
    ensures GetAsObject(param, interned, now, offset).EmptyZero? <==> interned
  {
    hide MatchesDate, MatchesDateTime, DateForm, DateTimeForm, MakeDay;
    DateMatches(param);
    DateTimeMatches(param);
  }

  /** What a date with a time gives, whatever its numbers: every field may overflow into the next,
      and seconds and milliseconds are the clock's. */
  lemma DateTimeTextToMillis(
    s: string, d: string, m: string, y: string, gap: string, h: string, mi: string, blanks: string,
    now: Instant, offset: int)
    requires IsDateTimeText(s, d, m, y, gap, h, mi, blanks) && ReadDigits(y) >= 1583
    ensures GetAsObject(s, false, now, offset) == Millis(NumbersMillis(d, m, y, h, mi, now.time % 60_000) - offset)
  {
    hide MatchesDateTime, JavaSplit, IsDateTimeText, GetAsObject, NumbersMillis;
    DateTimeFields(s, d, m, y, gap, h, mi, blanks);
    FiveFields(s, now, offset);
  }

  lemma DateTimeFields(
    s: string, d: string, m: string, y: string, gap: string, h: string, mi: string, blanks: string)
    requires IsDateTimeText(s, d, m, y, gap, h, mi, blanks)
    ensures MatchesDateTime(s) && |JavaSplit(s)| == 5
    ensures JavaSplit(s)[0] == d && JavaSplit(s)[1] == m && JavaSplit(s)[2] == y
    ensures JavaSplit(s)[3] == h && JavaSplit(s)[4] == mi
  {
    hide MatchesDateTime, JavaSplit, DateTimeParts;
    DateTimeAccepted(d, m, y, gap, h, mi, blanks);
  }

  lemma FiveFields(s: string, now: Instant, offset: int)
    requires MatchesDateTime(s) && |JavaSplit(s)| == 5
    ensures var date := JavaSplit(s);
            GetAsObject(s, false, now, offset) ==
            Millis(NumbersMillis(date[0], date[1], date[2], date[3], date[4], now.time % 60_000) - offset)
  {
    hide MatchesDate, MatchesDateTime, JavaSplit, AllDigits, NumbersMillis;
  }

  // ---------------------------------------------------------------------------------------
  // Round trips
  // ---------------------------------------------------------------------------------------

  /** The number test accepts exactly the positive numbers. */
  lemma PositiveText(millis: int)
    ensures AllDigits(IntText(millis)) && IntText(millis) != "0" <==> millis > 0
  {
    if millis < 0 {
      assert IntText(millis)[0] == '-';
    } else {
      DecimalReads(millis);
      assert "0" == Decimal(0);
      if millis > 0 && IntText(millis) == "0" { DecimalInjective(millis, 0); }
    }
  }

  lemma FourDigitYear(y: int)
    requires 1000 <= y <= 9999
    ensures |Pad4(y)| == 4 && AllDigits(Pad4(y)) && ReadDigits(Pad4(y)) == y
  {
    DecimalReads(y);
    FourDigits(y);
  }

  /** A date and a time with blanks between and after them are accepted, and split into their own
      five numbers. */
  lemma DateTimeAccepted(d: string, m: string, y: string, gap: string, h: string, mi: string, blanks: string)
    requires DateTimeParts(d, m, y, gap, h, mi, blanks)
    ensures var s := d + "/" + m + "/" + y + gap + h + ":" + mi + blanks;
            MatchesDateTime(s) && JavaSplit(s) == [d, m, y, h, mi]
  {
    hide JavaSplit;
    BlanksAreSpace(gap);
    BlanksAreSpace(blanks);
    var s := d + "/" + m + "/" + y + gap + h + ":" + mi + blanks;
    SplitDateTime(d, m, y, gap, h, mi, blanks);
    var t := h + ":" + mi + blanks;
    assert s[10..] == gap + t;
    SpaceRunOf(gap, t);
    assert s[10 + |gap|..] == t;
    assert t[..2] == h && t[3..5] == mi && t[5..] == blanks;
    assert s[..2] == d && s[3..5] == m && s[6..10] == y;
  }

  lemma MinuteTextAccepted(d: string, m: string, y: string, h: string, mi: string)
    requires DateTimeParts(d, m, y, " ", h, mi, "")
    ensures var s := d + "/" + m + "/" + y + " " + h + ":" + mi;
            MatchesDateTime(s) && JavaSplit(s) == [d, m, y, h, mi]
  {
    hide JavaSplit, MatchesDateTime, DateTimeParts;
    var s := d + "/" + m + "/" + y + " " + h + ":" + mi;
    assert s + "" == s;
    DateTimeAccepted(d, m, y, " ", h, mi, "");
  }

  /** Reading back the text of any minute in a four-digit year gives that minute, with the seconds
      and milliseconds of the clock added; `v` is the local instant. */
  lemma TextToMillis(v: Instant, now: Instant, offset: int)
    requires IsInstant(v) && IsInstant(now) && 1583 <= CivilOf(v.day).year <= 9999
    ensures GetAsObject(MinuteText(v), false, now, offset) ==
            Millis(Truncated(v).Millis() + now.time % 60_000 - offset)
  {
    hide CivilOf, MatchesDateTime, MatchesDate, JavaSplit, MakeDay, Pad, Pad4, MonthDays;
    hide Instant.Hours, Instant.Minutes;
    var k := CivilOf(v.day);
    CivilOfDay(v.day);
    ClockRanges(v);
    MonthAtMost31(k);
    MakeDayOfMonth(k.year, k.month, k.day);
    PadReads(k.day);
    PadReads(k.month + 1);
    PadReads(v.Hours());
    PadReads(v.Minutes());
    FourDigitYear(k.year);
    MinuteTextAccepted(Pad(k.day), Pad(k.month + 1), Pad4(k.year), Pad(v.Hours()), Pad(v.Minutes()));
  }

  /** A date without a time, with any blanks after it, gives that day at the clock's time of day;
      days and months that overflow roll over, month 00 to December of the year before. */
  lemma DateTextToMillis(d: nat, m: nat, y: nat, blanks: string, now: Instant, offset: int)
    requires d < 100 && m < 100 && 1583 <= y <= 9999 && AllSpace(blanks)
    ensures GetAsObject(Pad(d) + "/" + Pad(m) + "/" + Pad4(y) + blanks, false, now, offset) ==
            Millis((DayOf(Civil(y + (m - 1) / 12, (m - 1) % 12, 1)) + d - 1) * DAY_MS + now.time - offset)
  {
    hide MatchesDateTime, MatchesDate, JavaSplit, DayOf, Pad, Pad4, AllSpace, AllDigits;
    PadReads(d);
    PadReads(m);
    FourDigitYear(y);
    DateTextAccepted(Pad(d), Pad(m), Pad4(y), blanks);
  }

  lemma DateTextAccepted(d: string, m: string, y: string, blanks: string)
    requires |d| == |m| == 2 && |y| == 4 && AllSpace(blanks)
    requires AllDigits(d) && AllDigits(m) && AllDigits(y)
    ensures var s := d + "/" + m + "/" + y + blanks;
            MatchesDate(s) && JavaSplit(s) == [d, m, y]
  {
    hide JavaSplit;
    var s := d + "/" + m + "/" + y + blanks;
    SplitDate(d, m, y, blanks);
    assert s[..2] == d && s[3..5] == m && s[6..10] == y && s[10..] == blanks;
  }

  /** Seconds and milliseconds do not show. */
  lemma MinuteTextTruncates(v: Instant, extra: int)
    requires IsInstant(v) && 0 <= extra < 60_000
    ensures var w := Instant(v.day, Truncated(v).time + extra);
            IsInstant(w) && w.Hours() == v.Hours() && w.Minutes() == v.Minutes() && MinuteText(w) == MinuteText(v)
  {
    hide CivilOf, Pad, Pad4, Instant.Hours, Instant.Minutes, Truncated;
    ClockRanges(v);
    ClockTruncates(v.Hours(), v.Minutes(), extra);
    ClockOf(v, Instant(v.day, Truncated(v).time + extra));
  }

  lemma ClockTruncates(h: int, mi: int, extra: int)
    requires 0 <= h < 24 && 0 <= mi < 60 && 0 <= extra < 60_000
    ensures var t := h * 3_600_000 + mi * 60_000 + extra;
            0 <= t < DAY_MS && t / 3_600_000 == h && t / 60_000 % 60 == mi
  {
    var t := h * 3_600_000 + mi * 60_000 + extra;
    assert t / 60_000 == h * 60 + mi;
  }

  lemma ClockOf(v: Instant, w: Instant)
    ensures Truncated(v).time == v.Hours() * 3_600_000 + v.Minutes() * 60_000
    ensures w.Hours() == w.time / 3_600_000 && w.Minutes() == w.time / 60_000 % 60
  {}

  lemma LocalOfMillis(v: Instant, offset: int)
    requires IsInstant(v)
    ensures LocalOf(v.Millis() - offset, offset) == v
  {}

  /** Text, number, text: the text comes back exactly when the number is positive. */
  lemma TextToText(v: Instant, now: Instant, offset: int)
    requires IsInstant(v) && IsInstant(now) && 1583 <= CivilOf(v.day).year <= 9999
    ensures var millis := Truncated(v).Millis() + now.time % 60_000 - offset;
            GetAsString(millis, offset) == MinuteText(v) <==> millis > 0
  {
    hide CivilOf, MinuteText, LocalOf, Truncated, IntText;
    var extra := now.time % 60_000;
    var w := Instant(v.day, Truncated(v).time + extra);
    MinuteTextTruncates(v, extra);
    LocalOfMillis(w, offset);
    MillisOfExtra(v, extra);
    PositiveText(w.Millis() - offset);
    MinuteTextNonempty(v);
  }

  lemma EpochMinute()
    ensures IsInstant(Instant(0, 0)) && Truncated(Instant(0, 0)).Millis() == 0
  {}

  /** The first minute of 1970 in UTC reads as 0 when the clock's seconds are 0, and 0 renders as
      nothing. */
  lemma EpochVanishes(now: Instant)
    requires IsInstant(now) && now.time % 60_000 == 0
    ensures var v := Instant(0, 0);
            && CivilOf(v.day) == Civil(1970, 0, 1)
            && GetAsObject(MinuteText(v), false, now, 0) == Millis(0)
            && MinuteText(v) != "" && GetAsString(0, 0) == ""
  {
    hide CivilOf, MinuteText, GetAsObject, GetAsString, Truncated, Instant.Millis, IsInstant;
    Epoch();
    EpochMinute();
    TextToMillis(Instant(0, 0), now, 0);
    MinuteTextNonempty(Instant(0, 0));
    NothingForZero();
  }

  lemma NothingForZero()
    ensures GetAsString(0, 0) == ""
  {
    hide MinuteText;
    PositiveText(0);
  }

  lemma MillisOfExtra(v: Instant, extra: int)
    ensures Instant(v.day, Truncated(v).time + extra).Millis() == Truncated(v).Millis() + extra
  {}

  lemma MinuteTextNonempty(v: Instant)
    requires IsInstant(v) && 1583 <= CivilOf(v.day).year
    ensures MinuteText(v) != ""
  {
    hide CivilOf, Pad, Pad4;
    CivilOfDay(v.day);
  }

  /** Number, text, number: in a zone less than a day from UTC, rendering a number and reading the
      text gives back its minute exactly when the number is positive and its year has four digits. */
  lemma NumberToNumber(millis: int, now: Instant, offset: int)
    requires IsInstant(now) && -DAY_MS < offset < DAY_MS
    ensures GetAsObject(GetAsString(millis, offset), false, now, offset) ==
            Millis(millis - (millis + offset) % 60_000 + now.time % 60_000) <==>
            millis > 0 && CivilOf(LocalOf(millis, offset).day).year <= 9999
  {
    hide CivilOf, MinuteText, GetAsObject, IntText, LocalOf, Truncated;
    var v := LocalOf(millis, offset);
    PositiveText(millis);
    if millis > 0 {
      RecentYear(millis, offset);
      if CivilOf(v.day).year <= 9999 {
        TextToMillis(v, now, offset);
        MinuteOfMillis(millis, offset);
      } else {
        LongYearRefused(v, now, offset);
      }
    } else {
      EmptyRefused(now, offset);
    }
  }

  /** Positive numbers lie at most a day before 1970. */
  lemma RecentYear(millis: int, offset: int)
    requires millis > 0 && -DAY_MS < offset < DAY_MS
    ensures IsInstant(LocalOf(millis, offset)) && CivilOf(LocalOf(millis, offset).day).year >= 1969
  {
    hide CivilOf, YearStart, YearOf;
    var day := LocalOf(millis, offset).day;
    CivilYear(day);
    YearOfContains(day);
    Start1969();
    if YearOf(day) < 1969 { YearStartMonotone(YearOf(day) + 1, 1969); }
  }

  lemma Start1969()
    ensures YearStart(1969) == -365
  {}

  lemma MinuteOfMillis(millis: int, offset: int)
    ensures Truncated(LocalOf(millis, offset)).Millis() - offset == millis - (millis + offset) % 60_000
  {
    var v := LocalOf(millis, offset);
    assert v.Millis() == millis + offset;
    assert v.time / 60_000 == 60 * v.Hours() + v.Minutes() by { MinuteOfDay(v); }
    assert DAY_MS % 60_000 == 0 && (millis + offset) % 60_000 == v.time % 60_000;
  }

  lemma EmptyRefused(now: Instant, offset: int)
    ensures GetAsObject("", false, now, offset) == InvalidDate
  {}

  /** A year of more than four digits is rendered in full, and not accepted. */
  lemma LongYearRefused(v: Instant, now: Instant, offset: int)
    requires IsInstant(v) && CivilOf(v.day).year > 9999
    ensures GetAsObject(MinuteText(v), false, now, offset) == InvalidDate
  {
    hide CivilOf, Pad, Pad4, AllSpace, SpaceRun, Instant.Hours, Instant.Minutes, JavaSplit;
    var k := CivilOf(v.day);
    CivilOfDay(v.day);
    MonthAtMost31(k);
    ClockRanges(v);
    PadReads(k.day);
    PadReads(k.month + 1);
    LongYear(k.year);
    FifthDigit(Pad(k.day), Pad(k.month + 1), Pad4(k.year), " " + Pad(v.Hours()) + ":" + Pad(v.Minutes()));
    assert MinuteText(v) ==
           Pad(k.day) + "/" + Pad(k.month + 1) + "/" + Pad4(k.year) + (" " + Pad(v.Hours()) + ":" + Pad(v.Minutes()));
  }

  lemma LongYear(y: int)
    requires y > 9999
    ensures |Pad4(y)| >= 5 && AllDigits(Pad4(y))
  {
    DecimalReads(y);
    assert y / 10 / 10 / 10 == y / 1000 >= 10;
    assert |Decimal(y / 1000)| >= 2 && |Decimal(y / 100)| >= 3 && |Decimal(y / 10)| >= 4;
  }

  /** After the fourth digit of the year there must be a blank or nothing. */
  lemma FifthDigit(d: string, m: string, y: string, rest: string)
    requires |d| == |m| == 2 && |y| >= 5 && AllDigits(y)
    ensures var s := d + "/" + m + "/" + y + rest; !MatchesDate(s) && !MatchesDateTime(s)
  {
    var s := d + "/" + m + "/" + y + rest;
    assert s[10] == y[4] && s[10..][0] == s[10];
    assert !IsSpace(y[4]);
  }

  // ---------------------------------------------------------------------------------------
  // Across the two components
  // ---------------------------------------------------------------------------------------

  /** One specifier and the literal after it. */
  lemma PrintSpec(loc: Locale, v: Instant, c: char, lit: string, rest: string)
    requires Tables(loc) && !LineEnd(c) && Text(loc, v, c).Some?
    requires forall i :: 0 <= i < |lit| ==> lit[i] != '%'
    ensures Print(loc, v, "%" + [c] + lit + rest) == Text(loc, v, c).value + lit + Print(loc, v, rest)
  {
    hide Text;
    var fmt := "%" + [c] + lit + rest;
    assert Piece(loc, v, c) == Text(loc, v, c).value;
    assert fmt[1] == c && fmt[2..] == lit + rest;
    PrintLiteral(loc, v, lit, rest);
  }

  /** The calendar prints its input-field format as the converter's pattern does. */
  lemma WidgetText(loc: Locale, v: Instant)
    requires Tables(loc) && IsInstant(v) && 1583 <= CivilOf(v.day).year <= 9999
    ensures Print(loc, v, IF_FORMAT) == MinuteText(v)
  {
    hide CivilOf, Print, Tables, Text, Pad, Pad4, Instant.Hours, Instant.Minutes;
    WidgetFields(loc, v);
    var f4 := "%" + ['M'] + "" + "";
    var f3 := "%" + ['H'] + ":" + f4;
    var f2 := "%" + ['Y'] + " " + f3;
    var f1 := "%" + ['m'] + "/" + f2;
    FormatParts(f1, f2, f3, f4);
    PrintSpec(loc, v, 'd', "/", f1);
    PrintSpec(loc, v, 'm', "/", f2);
    PrintSpec(loc, v, 'Y', " ", f3);
    PrintSpec(loc, v, 'H', ":", f4);
    PrintSpec(loc, v, 'M', "", "");
    PrintNothing(loc, v);
    ClockRanges(v);
    var k := CivilOf(v.day);
    JoinText(Pad(k.day), Pad(k.month + 1), Pad4(k.year), Pad(v.Hours()), Pad(v.Minutes()));
  }

  lemma FormatParts(f1: string, f2: string, f3: string, f4: string)
    requires f4 == "%" + ['M'] + "" + "" && f3 == "%" + ['H'] + ":" + f4
    requires f2 == "%" + ['Y'] + " " + f3 && f1 == "%" + ['m'] + "/" + f2
    ensures IF_FORMAT == "%" + ['d'] + "/" + f1
  {
    assert f3 == "%H:%M" && f2 == "%Y %H:%M" && f1 == "%m/%Y %H:%M";
  }

  lemma JoinText(d: string, m: string, y: string, h: string, mi: string)
    ensures d + "/" + (m + "/" + (y + " " + (h + ":" + (mi + "" + "")))) ==
            d + "/" + m + "/" + y + " " + h + ":" + mi
  {
    assert mi + "" + "" == mi;
  }

  lemma PrintNothing(loc: Locale, v: Instant)
    requires Tables(loc)
    ensures Print(loc, v, "") == ""
  {}

  lemma WidgetFields(loc: Locale, v: Instant)
    requires Tables(loc) && IsInstant(v) && 1583 <= CivilOf(v.day).year <= 9999
    ensures var k := CivilOf(v.day);
            && Text(loc, v, 'd') == Some(Pad(k.day)) && Text(loc, v, 'm') == Some(Pad(k.month + 1))
            && Text(loc, v, 'Y') == Some(Pad4(k.year))
            && Text(loc, v, 'H') == Some(Pad(v.Hours())) && Text(loc, v, 'M') == Some(Pad(v.Minutes()))
            && 0 <= k.month < 12 && 1 <= k.day
  {
    hide CivilOf, Decimal;
    CivilOfDay(v.day);
    ClockRanges(v);
  }

  /** For every instant in the years 1583 to 9999, the text that the calendar prints for the
      input field is accepted by the converter, gives the same minute whatever seconds the clock
      adds, and is rendered back as the same text exactly when the resulting number is positive. */
  lemma AcrossComponents(loc: Locale, v: Instant, now: Instant, offset: int)
    requires Tables(loc) && IsInstant(v) && IsInstant(now) && 1583 <= CivilOf(v.day).year <= 9999
    ensures var text := Print(loc, v, IF_FORMAT);
            var r := GetAsObject(text, false, now, offset);
            && r.Millis?
            && Truncated(LocalOf(r.value, offset)) == Truncated(v)
            && (GetAsString(r.value, offset) == text <==> r.value > 0)
  {
    hide CivilOf, Print, MinuteText, GetAsObject, GetAsString, Tables;
    var extra := now.time % 60_000;
    WidgetText(loc, v);
    TextToMillis(v, now, offset);
    TextToText(v, now, offset);
    MinuteTextTruncates(v, extra);
    LocalOfMillis(Instant(v.day, Truncated(v).time + extra), offset);
    MillisOfExtra(v, extra);
  }
}
