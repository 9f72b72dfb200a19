/** The calendar widget in single-date mode, with the selected day highlighted and no handler that
    disables dates: drawing the grid, clicking days, the month and year buttons, and the arrow keys. */
module CalendarWidget {
  import opened CivilDate
  import opened IsoWeek
  import opened JsDates
  import opened MonthGrid

  datatype MaybeInstant = Undefined | Defined(value: Instant)

  /** The properties the widget keeps on a table cell. Redrawing leaves `caldate` and `otherMonth`
      of an empty cell as they were. */
  datatype Cell = Cell(pos: int, caldate: MaybeInstant, disabled: bool, otherMonth: bool)

  /** A reference to a cell of the grid, by row and column. */
  datatype CellRef = NoCell | At(row: int, col: int)

  datatype Key = Left | Up | Right | Down

  datatype Button = PrevYear | PrevMonth | NextMonth | NextYear

  function KeyDays(key: Key): int {
    match key case Left => -1 case Right => 1 case Up => -7 case Down => 7
  }

  function ButtonMonths(b: Button): int {
    match b case PrevYear => -12 case PrevMonth => -1 case NextMonth => 1 case NextYear => 12
  }

  /** JavaScript's `%`: the sign of the dividend. */
  function JsRem(a: int, b: int): int
    requires b > 0
  {
    if a >= 0 then a % b else -((-a) % b)
  }

  /** What a cell shows for the date `v`. */
  ghost predicate Drawn(cell: Cell, i: int, j: int, v: Instant, fdow: int, others: bool) {
    var x := CellDay(v.day, fdow, i, j);
    && cell.pos == 16 * i + j
    && cell.disabled == !(InMonth(v.day, x) || others)
    && (!cell.disabled ==>
          cell.caldate == Defined(Instant(x, v.time)) && cell.otherMonth == !InMonth(v.day, x))
  }

  /** The cell that shows the date itself. */
  ghost function OwnCell(day: int, fdow: int): CellRef {
    var k := day - FirstShown(day, fdow);
    At(k / 7, k % 7)
  }

  class Calendar {
    var minYear: int
    var maxYear: int
    var firstDayOfWeek: nat
    var showsOtherMonths: bool
    var date: JsDate
    const arDays: array2<Cell>
    const weekNumbers: array<int>
    var currentDateEl: CellRef

    ghost predicate Tables()
      reads this
    {
      arDays.Length0 == 6 && arDays.Length1 == 7 && weekNumbers.Length == 6
    }

    ghost predicate Grid(v: Instant)
      requires Tables()
      reads this, arDays
    {
      forall i, j :: 0 <= i < 6 && 0 <= j < 7 ==>
        Drawn(arDays[i, j], i, j, v, firstDayOfWeek, showsOtherMonths)
    }

    ghost predicate Valid()
      reads this, arDays, weekNumbers, date
    {
      && Tables()
      && minYear <= CivilOf(date.day).year <= maxYear
      && Grid(date.Value())
      && (forall i :: 0 <= i < 6 ==>
            weekNumbers[i] == WeekNumber(CellDay(date.day, firstDayOfWeek, i, 0)))
      && currentDateEl == OwnCell(date.day, firstDayOfWeek)
    }

    ghost function ClampedValue(v: Instant): Instant
      reads this
    {
      Instant(Clamped(v.day, minYear, maxYear), v.time)
    }

    /** A calendar over a year range, drawn for a date. */
    constructor (fdow: nat, minYear: int, maxYear: int, others: bool, v: Instant)
      requires minYear <= maxYear
      ensures Valid() && fresh(date) && fresh(arDays) && fresh(weekNumbers)
      ensures this.minYear == minYear && this.maxYear == maxYear
      ensures firstDayOfWeek == fdow && showsOtherMonths == others
      ensures date.Value() == ClampedValue(v)
    {
      this.minYear, this.maxYear, firstDayOfWeek, showsOtherMonths := minYear, maxYear, fdow, others;
      arDays := new Cell[6, 7]((i, j) => Cell(0, Undefined, false, false));
      weekNumbers := new int[6];
      currentDateEl := NoCell;
      var d := new JsDate.Copy(v);
      date := d;
      new;
      hide Clamped, CivilOf, Drawn, CellDay, OwnCell, WeekNumber;
      var copy := new JsDate.Copy(v);
      Init(fdow, copy);
    }

    /** Keeps the year of `d` inside the range. */
    method ClampYear(d: JsDate)
      modifies d`day
      ensures d.day == Clamped(old(d.day), minYear, maxYear)
    {
      hide CappedDay, CivilOf;
      CivilOfDay(d.day);
      var year := d.GetFullYear();
      if year < minYear {
        d.SetFullYear(minYear);
      } else if year > maxYear {
        d.SetFullYear(maxYear);
      }
    }

    /** Moves `d` back to the first day that the grid shows. */
    method MoveToFirstShown(d: JsDate, fdow: nat)
      modifies d`day
      ensures d.day == FirstShown(old(d.day), fdow)
    {
      hide CivilOf, MakeDay, Weekday, JsRem, LengthOfMonth;
      FirstIsFirst(d.day);
      RemainderFixed(Weekday(FirstOfMonth(d.day)) - fdow);
      d.SetDate(1);
      var day1 := JsRem(d.GetDay() - fdow, 7);
      if day1 < 0 {
        day1 := day1 + 7;
      }
      d.SetDate(-day1);
      d.SetDate(d.GetDate() + 1);
    }

    /** Draws one cell; `d` is the cell's day. */
    method DrawCell(i: int, j: int, d: JsDate, month: int, mday: int)
      requires Tables() && 0 <= i < 6 && 0 <= j < 7
      requires month == CivilOf(date.day).month && mday == CivilOf(date.day).day
      requires d.day == CellDay(date.day, firstDayOfWeek, i, j) && d.time == date.time
      modifies arDays, this`currentDateEl
      ensures Drawn(arDays[i, j], i, j, date.Value(), firstDayOfWeek, showsOtherMonths)
      ensures forall a, b :: 0 <= a < 6 && 0 <= b < 7 && (a, b) != (i, j) ==> arDays[a, b] == old(arDays[a, b])
      ensures currentDateEl == if d.day == date.day then At(i, j) else old(currentDateEl)
    {
      hide CivilOf, MakeDay, FirstShown, InMonth;
      CellFacts(date.day, firstDayOfWeek, i, j);
      var iday := d.GetDate();
      arDays[i, j] := arDays[i, j].(pos := 16 * i + j);
      var currentMonth := d.GetMonth() == month;
      if !currentMonth {
        if showsOtherMonths {
          arDays[i, j] := arDays[i, j].(otherMonth := true);
        } else {
          arDays[i, j] := arDays[i, j].(disabled := true);
          return;
        }
      } else {
        arDays[i, j] := arDays[i, j].(otherMonth := false);
      }
      arDays[i, j] := arDays[i, j].(disabled := false, caldate := Defined(d.Value()));
      if currentMonth && iday == mday {
        currentDateEl := At(i, j);
      }
    }

    /** Redraws everything for the date `d`, which is used up as a cursor. */
    method Init(fdow: nat, d: JsDate)
      requires Tables() && minYear <= maxYear
      modifies this`firstDayOfWeek, this`date, this`currentDateEl, arDays, weekNumbers, d
      ensures Valid() && fresh(date) && firstDayOfWeek == fdow
      ensures date.Value() == old(ClampedValue(d.Value()))
    {
      hide CivilOf, MakeDay, Clamped, FirstShown, Drawn, WeekNumber;
      ClampedInRange(d.day, minYear, maxYear);
      ClampYear(d);
      firstDayOfWeek := fdow;
      date := new JsDate.Copy(d.Value());
      var month, mday := d.GetMonth(), d.GetDate();
      MoveToFirstShown(d, fdow);
      DrawGrid(d, month, mday);
    }

    /** Draws the six rows; `d` starts at the first day shown. */
    method DrawGrid(d: JsDate, month: int, mday: int)
      requires Tables() && d != date
      requires month == CivilOf(date.day).month && mday == CivilOf(date.day).day
      requires d.day == FirstShown(date.day, firstDayOfWeek) && d.time == date.time
      modifies this`currentDateEl, arDays, weekNumbers, d`day
      ensures Grid(date.Value())
      ensures forall i :: 0 <= i < 6 ==> weekNumbers[i] == WeekNumber(CellDay(date.day, firstDayOfWeek, i, 0))
      ensures currentDateEl == OwnCell(date.day, firstDayOfWeek)
    {
      hide CivilOf, MakeDay, FirstShown, Drawn, WeekOf;
      ghost var own := OwnCell(date.day, firstDayOfWeek);
      OwnCellInGrid(date.day, firstDayOfWeek);
      for i := 0 to 6
        invariant d.day == CellDay(date.day, firstDayOfWeek, i, 0)
        invariant forall a, b :: 0 <= a < i && 0 <= b < 7 ==>
                    Drawn(arDays[a, b], a, b, date.Value(), firstDayOfWeek, showsOtherMonths)
        invariant forall a :: 0 <= a < i ==>
                    weekNumbers[a] == WeekNumber(CellDay(date.day, firstDayOfWeek, a, 0))
        invariant own.row < i ==> currentDateEl == own
      {
        weekNumbers[i] := d.GetWeekNumber();
        DrawRow(i, d, month, mday);
      }
    }

    /** Draws the seven cells of one row and moves `d` on to the next. */
    method DrawRow(i: int, d: JsDate, month: int, mday: int)
      requires Tables() && 0 <= i < 6 && d != date
      requires month == CivilOf(date.day).month && mday == CivilOf(date.day).day
      requires d.day == CellDay(date.day, firstDayOfWeek, i, 0) && d.time == date.time
      modifies arDays, this`currentDateEl, d`day
      ensures d.day == CellDay(date.day, firstDayOfWeek, i + 1, 0)
      ensures forall j :: 0 <= j < 7 ==>
                Drawn(arDays[i, j], i, j, date.Value(), firstDayOfWeek, showsOtherMonths)
      ensures forall a, b :: 0 <= a < 6 && 0 <= b < 7 && a != i ==> arDays[a, b] == old(arDays[a, b])
      ensures currentDateEl ==
              if OwnCell(date.day, firstDayOfWeek).row == i then OwnCell(date.day, firstDayOfWeek)
              else old(currentDateEl)
    {
      hide CivilOf, MakeDay, FirstShown, Drawn;
      ghost var own := OwnCell(date.day, firstDayOfWeek);
      OwnCellInGrid(date.day, firstDayOfWeek);
      for j := 0 to 7
        invariant d.day == CellDay(date.day, firstDayOfWeek, i, j)
        invariant forall b :: 0 <= b < j ==>
                    Drawn(arDays[i, b], i, b, date.Value(), firstDayOfWeek, showsOtherMonths)
        invariant forall a, b :: 0 <= a < 6 && 0 <= b < 7 && a != i ==> arDays[a, b] == old(arDays[a, b])
        invariant currentDateEl == if own.row == i && own.col < j then own else old(currentDateEl)
      {
        DrawCell(i, j, d, month, mday);
        d.SetDate(d.GetDate() + 1);
      }
    }

    /** Goes to a date, unless it is the selected one up to the minute. */
    method SetDate(d: JsDate)
      requires Valid() && d != date
      modifies this`firstDayOfWeek, this`date, this`currentDateEl, arDays, weekNumbers, d
      ensures Valid() && firstDayOfWeek == old(firstDayOfWeek) && (date == old(date) || fresh(date))
      ensures date.Value() == if old(d.EqualsTo(date)) then old(date.Value()) else old(ClampedValue(d.Value()))
    {
      hide CivilOf, Clamped, Drawn, CellDay, OwnCell, WeekNumber;
      if !d.EqualsTo(date) {
        Init(firstDayOfWeek, d);
      }
    }

    /** A click on an enabled day cell selects its day; a day of another month redraws the grid. */
    method CellClick(row: int, col: int)
      requires Valid() && 0 <= row < 6 && 0 <= col < 7 && !arDays[row, col].disabled
      modifies this`firstDayOfWeek, this`date, this`currentDateEl, arDays, weekNumbers, date
      ensures Valid() && firstDayOfWeek == old(firstDayOfWeek) && (date == old(date) || fresh(date))
      ensures date.Value() ==
              old(ClampedValue(Instant(CellDay(date.day, firstDayOfWeek, row, col), date.time)))
    {
      hide CivilOf, Clamped, WeekNumber, FirstShown, InMonth;
      var el := arDays[row, col];
      assert Drawn(el, row, col, date.Value(), firstDayOfWeek, showsOtherMonths);
      ghost var before := date.Value();
      if currentDateEl != NoCell {
        currentDateEl := At(row, col);
      }
      date.SetDateOnly(el.caldate.value);
      if el.otherMonth {
        Init(firstDayOfWeek, date);
      } else {
        StaysValid(before, row, col);
      }
    }

    /** Selecting another day of the month shown keeps the grid valid without a redraw. */
    lemma StaysValid(v: Instant, row: int, col: int)
      requires Tables() && 0 <= row < 6 && 0 <= col < 7
      requires minYear <= CivilOf(v.day).year <= maxYear
      requires Grid(v) && InMonth(v.day, date.day)
      requires date.Value() == Instant(CellDay(v.day, firstDayOfWeek, row, col), v.time)
      requires forall i :: 0 <= i < 6 ==> weekNumbers[i] == WeekNumber(CellDay(v.day, firstDayOfWeek, i, 0))
      requires currentDateEl == At(row, col)
      ensures Valid() && Clamped(date.day, minYear, maxYear) == date.day
    {
      hide CivilOf, Clamped, WeekNumber, FirstShown, InMonth, OwnCell;
      SameMonthSameGrid(v.day, firstDayOfWeek, date.day);
      OwnCellInGrid(date.day, firstDayOfWeek);
      ClampedInRange(date.day, minYear, maxYear);
      assert CellDay(date.day, firstDayOfWeek, row, col) == date.day;
      forall i, j | 0 <= i < 6 && 0 <= j < 7
        ensures Drawn(arDays[i, j], i, j, date.Value(), firstDayOfWeek, showsOtherMonths)
      {
        assert Drawn(arDays[i, j], i, j, v, firstDayOfWeek, showsOtherMonths);
      }
      forall i | 0 <= i < 6 ensures weekNumbers[i] == WeekNumber(CellDay(date.day, firstDayOfWeek, i, 0)) {
        assert CellDay(date.day, firstDayOfWeek, i, 0) == CellDay(v.day, firstDayOfWeek, i, 0);
      }
    }

    /** The previous-year, previous-month, next-month and next-year buttons. */
    method ClickButton(b: Button)
      requires Valid()
      modifies this`firstDayOfWeek, this`date, this`currentDateEl, arDays, weekNumbers
      ensures Valid() && firstDayOfWeek == old(firstDayOfWeek) && (date == old(date) || fresh(date))
      ensures date.Value() ==
              Instant(AfterClick(old(date.day), ButtonMonths(b), minYear, maxYear), old(date.time))
    {
      hide CivilOf, Clamped, Drawn, CellDay, OwnCell, WeekNumber, InMonthIndex;
      var d := new JsDate.Copy(date.Value());
      ghost var start := date.day;
      MoveByButton(b, d);
      AfterClickInRange(start, ButtonMonths(b), minYear, maxYear);
      if !d.EqualsTo(date) {
        SetDate(d);
      }
    }

    /** The nested helper of the click handler: caps the day of month, then sets the month. */
    method SetMonthCapped(d: JsDate, m: int)
      requires 0 <= m < 12
      modifies d`day
      ensures d.day == CappedDay(old(d.GetFullYear()), m, old(d.GetDate()))
    {
      hide CivilOf, MakeDay;
      CappedMonth(d.day, m);
      var day := d.GetDate();
      var max := GetMonthDays(d.GetFullYear(), m);
      if day > max {
        d.SetDate(max);
      }
      d.SetMonth(m);
    }

    method MoveByButton(b: Button, d: JsDate)
      requires minYear <= CivilOf(d.day).year <= maxYear
      modifies d`day
      ensures d.day == AfterClick(old(d.day), ButtonMonths(b), minYear, maxYear)
    {
      hide CivilOf, CappedDay, InMonthIndex;
      ghost var start, c := d.day, CivilOf(d.day);
      StayPut(start);
      var year, mon := d.GetFullYear(), d.GetMonth();
      match b {
        case PrevYear =>
          CappedByIndex(year - 1, mon, c.day);
          if year > minYear {
            d.SetFullYear(year - 1);
          }
        case PrevMonth =>
          if mon > 0 {
            CappedByIndex(year, mon - 1, c.day);
            SetMonthCapped(d, mon - 1);
          } else if year > minYear {
            CappedByIndex(year - 1, 11, c.day);
            LongMonth(start, year - 1);
            d.SetFullYear(year - 1);
            SetMonthCapped(d, 11);
          }
        case NextMonth =>
          if mon < 11 {
            CappedByIndex(year, mon + 1, c.day);
            SetMonthCapped(d, mon + 1);
          } else if year < maxYear {
            CappedByIndex(year + 1, 0, c.day);
            LongMonth(start, year + 1);
            d.SetFullYear(year + 1);
            SetMonthCapped(d, 0);
          }
        case NextYear =>
          CappedByIndex(year + 1, mon, c.day);
          if year < maxYear {
            d.SetFullYear(year + 1);
          }
      }
    }

    /** Goes `days` days forward, or back, from the selected date. */
    method Shift(days: int)
      requires Valid() && days != 0
      modifies this`firstDayOfWeek, this`date, this`currentDateEl, arDays, weekNumbers
      ensures Valid() && firstDayOfWeek == old(firstDayOfWeek) && (date == old(date) || fresh(date))
      ensures date.Value() == old(ClampedValue(Instant(date.day + days, date.time)))
    {
      hide CivilOf, MakeDay, Clamped, Drawn, CellDay, OwnCell, WeekNumber;
      var d := new JsDate.Copy(date.Value());
      d.SetDate(d.GetDate() + days);
      SetDate(d);
    }

    /** Redraws with another first column; the selected date stays. */
    method SetFirstDayOfWeek(fdow: nat)
      requires Valid()
      modifies this`firstDayOfWeek, this`date, this`currentDateEl, arDays, weekNumbers, date
      ensures Valid() && firstDayOfWeek == fdow && date.Value() == old(date.Value()) && fresh(date)
    {
      hide CivilOf, Clamped, Drawn, CellDay, OwnCell, WeekNumber;
      ClampedInRange(date.day, minYear, maxYear);
      Init(fdow, date);
    }

    /** The weekday numbers in the header row. */
    method DisplayWeekdays() returns (header: seq<int>)
      requires Valid()
      ensures |header| == 7
      ensures forall i, j :: 0 <= i < 6 && 0 <= j < 7 ==>
                header[j] == Weekday(CellDay(date.day, firstDayOfWeek, i, j))
    {
      hide CellDay, Weekday, CivilOf, Drawn;
      header := [];
      for j := 0 to 7
        invariant |header| == j
        invariant forall k :: 0 <= k < j ==> header[k] == (k + firstDayOfWeek) % 7
      {
        header := header + [(j + firstDayOfWeek) % 7];
      }
      forall i, j | 0 <= i < 6 && 0 <= j < 7
        ensures header[j] == Weekday(CellDay(date.day, firstDayOfWeek, i, j))
      {
        ColumnWeekday(date.day, firstDayOfWeek, i, j);
      }
    }

    /** What each of the 42 cells shows. A cell is enabled when its day belongs to the month of the
        date or other months are shown; an enabled cell carries its day with the date's time, and
        knows whether it belongs to another month. */
    lemma CellsShown(i: int, j: int)
      requires Valid() && 0 <= i < 6 && 0 <= j < 7
      ensures var cell, x := arDays[i, j], CellDay(date.day, firstDayOfWeek, i, j);
              var same := CivilOf(x).month == CivilOf(date.day).month && CivilOf(x).year == CivilOf(date.day).year;
              && (!cell.disabled <==> same || showsOtherMonths)
              && (!cell.disabled ==> cell.caldate == Defined(Instant(x, date.time)) && cell.otherMonth == !same)
              && cell.pos / 16 == i && cell.pos % 16 == j
    {
      hide CivilOf, InMonth, CellDay;
      var x := CellDay(date.day, firstDayOfWeek, i, j);
      InMonthMeans(date.day, x);
      assert Drawn(arDays[i, j], i, j, date.Value(), firstDayOfWeek, showsOtherMonths);
    }

    /** The week number printed in a row is the ISO week of all its seven days exactly when the
        first column is Monday. */
    lemma PrintedWeekHolds(i: int)
      requires Valid() && 0 <= i < 6
      requires !(0 <= CivilOf(CellDay(date.day, firstDayOfWeek, i, 0)).year <= 99)
      ensures weekNumbers[i] == WeekOf(CellDay(date.day, firstDayOfWeek, i, 0))
      ensures (forall j :: 0 <= j < 7 ==> weekNumbers[i] == WeekOf(CellDay(date.day, firstDayOfWeek, i, j))) <==>
              firstDayOfWeek % 7 == 1
    {
      hide CivilOf, CellDay, WeekOf, WeekNumber, Drawn, OwnCell;
      OwnWeek(CellDay(date.day, firstDayOfWeek, i, 0));
      RowWeek(date.day, firstDayOfWeek, i);
    }

    /** The selected cell is enabled, and its position decodes to its row and column. */
    lemma CurrentCell()
      requires Valid()
      ensures currentDateEl.At? && 0 <= currentDateEl.row < 6 && 0 <= currentDateEl.col < 7
      ensures var cell := arDays[currentDateEl.row, currentDateEl.col];
              && !cell.disabled
              && cell.caldate == Defined(date.Value())
              && cell.pos / 16 == currentDateEl.row && cell.pos % 16 == currentDateEl.col
      ensures CellDay(date.day, firstDayOfWeek, currentDateEl.row, currentDateEl.col) == date.day
    {
      hide CivilOf, InMonth, OwnCell, CellDay, WeekNumber;
      OwnMonth(date.day);
      OwnCellInGrid(date.day, firstDayOfWeek);
      assert Drawn(arDays[currentDateEl.row, currentDateEl.col], currentDateEl.row, currentDateEl.col,
                   date.Value(), firstDayOfWeek, showsOtherMonths);
    }

    /** An arrow key moves the selected date by exactly its number of days, whether the target
        is in the month, in an empty cell, or off the grid; drawing then clamps the year. */
    method ArrowKey(key: Key)
      requires Valid()
      modifies this`firstDayOfWeek, this`date, this`currentDateEl, arDays, weekNumbers, date
      ensures Valid() && firstDayOfWeek == old(firstDayOfWeek) && (date == old(date) || fresh(date))
      ensures date.Value() == old(ClampedValue(Instant(date.day + KeyDays(key), date.time)))
      ensures date.day == old(date.day) + KeyDays(key) <==>
              minYear <= CivilOf(old(date.day) + KeyDays(key)).year <= maxYear
    {
      hide CivilOf, Clamped, Drawn, WeekNumber, FirstShown, OwnCell;
      var k, prev := key, key.Left? || key.Up?;
      var step := if key.Left? || key.Right? then 1 else 7;
      ghost var start := date.Value();
      ClampedInRange(date.day + KeyDays(key), minYear, maxYear);
      CurrentCell();
      var p := arDays[currentDateEl.row, currentDateEl.col].pos;
      var x, y := p % 16, p / 16;
      var offGrid := false;
      while true
        invariant !offGrid && 0 <= x < 7 && 0 <= y < 6
        invariant k == key || (key.Left? && k.Up?) || (key.Right? && k.Down?)
        invariant date.Value() == start && date == old(date) && Valid()
        invariant firstDayOfWeek == old(firstDayOfWeek)
        invariant CellDay(date.day, firstDayOfWeek, y, x) + KeyDays(k) == date.day + KeyDays(key)
        decreases if k.Left? || k.Right? then 1 else 0
      {
        match k {
          case Left =>
            x := x - 1;
            if x < 0 { x, k := 6, Up; continue; }
          case Up =>
            y := y - 1;
            offGrid := y < 0;
          case Right =>
            x := x + 1;
            if x >= 7 { x, k := 0, Down; continue; }
          case Down =>
            y := y + 1;
            offGrid := y >= 6;
        }
        break;
      }
      if offGrid {
        ShiftAndReselect(if prev then -step else step);
      } else if !arDays[y, x].disabled {
        CellClick(y, x);
      } else {
        Shift(if prev then -step else step);
      }
    }

    /** Off the grid: redraw around the new date, then click the cell that it selected. */
    method ShiftAndReselect(days: int)
      requires Valid() && days != 0
      modifies this`firstDayOfWeek, this`date, this`currentDateEl, arDays, weekNumbers, date
      ensures Valid() && firstDayOfWeek == old(firstDayOfWeek) && (date == old(date) || fresh(date))
      ensures date.Value() == old(ClampedValue(Instant(date.day + days, date.time)))
    {
      hide CivilOf, Clamped, Drawn, WeekNumber, FirstShown, OwnCell, CellDay;
      ghost var target := ClampedValue(Instant(date.day + days, date.time));
      Shift(days);
      CurrentCell();
      ClampedInRange(date.day, minYear, maxYear);
      CellClick(currentDateEl.row, currentDateEl.col);
    }
  }

  /** On the grid, an arrow key goes to the neighbouring cell. */
  lemma KeysOnGrid(day: int, fdow: int, i: int, j: int)
    ensures var x := CellDay(day, fdow, i, j);
            && CellDay(day, fdow, i, j - 1) == x + KeyDays(Left) && CellDay(day, fdow, i, j + 1) == x + KeyDays(Right)
            && CellDay(day, fdow, i - 1, j) == x + KeyDays(Up) && CellDay(day, fdow, i + 1, j) == x + KeyDays(Down)
  {
    hide FirstShown;
  }

  /** Where each button leads, in year and month: the neighbouring year, or the neighbouring month
      across the end of a year too, as long as the year stays in the range. */
  function ButtonYear(b: Button, c: Civil): int {
    match b
    case PrevYear => c.year - 1
    case NextYear => c.year + 1
    case PrevMonth => if c.month == 0 then c.year - 1 else c.year
    case NextMonth => if c.month == 11 then c.year + 1 else c.year
  }

  function ButtonMonth(b: Button, c: Civil): int {
    match b
    case PrevYear => c.month
    case NextYear => c.month
    case PrevMonth => if c.month == 0 then 11 else c.month - 1
    case NextMonth => if c.month == 11 then 0 else c.month + 1
  }

  lemma ButtonTarget(day: int, b: Button, minYear: int, maxYear: int)
    ensures var c, r := CivilOf(day), AfterClick(day, ButtonMonths(b), minYear, maxYear);
            var y, m := ButtonYear(b, c), ButtonMonth(b, c);
            && 0 <= m < 12
            && if minYear <= y <= maxYear then
                 CivilOf(r) == Civil(y, m, if c.day <= MonthDays(y, m) then c.day else MonthDays(y, m))
               else r == day
  {
    hide CivilOf, AfterClick, MonthDays;
    CivilOfDay(day);
    OneClick(day, ButtonMonths(b), minYear, maxYear);
    MonthNumber(CivilOf(day), b);
  }

  lemma MonthNumber(c: Civil, b: Button)
    requires 0 <= c.month < 12
    ensures var n := 12 * c.year + c.month + ButtonMonths(b);
            n / 12 == ButtonYear(b, c) && n % 12 == ButtonMonth(b, c)
  {}

  lemma AfterClickInRange(day: int, delta: int, minYear: int, maxYear: int)
    requires minYear <= CivilOf(day).year <= maxYear
    ensures var r := AfterClick(day, delta, minYear, maxYear); Clamped(r, minYear, maxYear) == r
  {
    hide CivilOf, Clamped, InMonthIndex, LengthOfMonth;
    CivilOfDay(day);
    var r := AfterClick(day, delta, minYear, maxYear);
    InMonthIndexCivil(IndexAfter(MonthIndex(day), delta, minYear, maxYear), CivilOf(day).day);
    CivilOfDay(r);
    ClampedInRange(r, minYear, maxYear);
  }

  /** Capping the day first and then setting the month never spills. */
  lemma CappedMonth(day: int, m: int)
    requires 0 <= m < 12
    ensures var c := CivilOf(day);
            var max := MonthDays(c.year, m);
            && (c.day <= max ==> MakeDay(c.year, m, c.day) == CappedDay(c.year, m, c.day))
            && (c.day > max ==>
                  var b := CivilOf(day + max - c.day);
                  MakeDay(b.year, m, b.day) == CappedDay(c.year, m, c.day))
  {
    hide CivilOf, MakeDay, YearStart, MonthStart, DayOf;
    var c := CivilOf(day);
    CivilOfDay(day);
    MakeDayOfMonth(c.year, m, c.day);
    var max := MonthDays(c.year, m);
    if c.day > max {
      FebruaryOrMore();
      DayOfLinear(c.year, c.month, c.day, max);
      DayOfCivil(Civil(c.year, c.month, max));
      MakeDayOfMonth(c.year, m, max);
    }
  }

  lemma CappedByIndex(y: int, m: int, d: int)
    requires 0 <= m < 12
    ensures InMonthIndex(12 * y + m, d) == CappedDay(y, m, d)
  {
    hide CappedDay;
    assert (12 * y + m) / 12 == y && (12 * y + m) % 12 == m;
  }

  lemma StayPut(day: int)
    ensures 0 <= CivilOf(day).month < 12
    ensures InMonthIndex(MonthIndex(day), CivilOf(day).day) == day
  {
    hide CivilOf, InMonthIndex;
    CivilOfDay(day);
    NoMove(day);
  }

  /** January and December keep the day in every year. */
  lemma LongMonth(day: int, y: int)
    requires CivilOf(day).month == 0 || CivilOf(day).month == 11
    ensures CivilOf(CappedDay(y, CivilOf(day).month, CivilOf(day).day)) ==
            Civil(y, CivilOf(day).month, CivilOf(day).day)
  {
    hide CivilOf, CappedDay;
    CivilOfDay(day);
    CappedCivil(y, day);
  }

  // ---------------------------------------------------------------------------------------
  // Facts about one grid
  // ---------------------------------------------------------------------------------------

  lemma FirstIsFirst(day: int)
    ensures CivilOf(FirstOfMonth(day)).day == 1
  {
    hide CivilOf;
    OwnMonth(day);
    InMonthCivil(day, FirstOfMonth(day));
  }

  lemma RemainderFixed(a: int)
    ensures JsRem(a, 7) + (if JsRem(a, 7) < 0 then 7 else 0) == a % 7
  {}

  /** The facts about one cell that drawing needs. */
  lemma CellFacts(day: int, fdow: int, i: int, j: int)
    requires 0 <= i < 6 && 0 <= j < 7
    ensures var x := CellDay(day, fdow, i, j);
            && (CivilOf(x).month == CivilOf(day).month <==> InMonth(day, x))
            && (InMonth(day, x) && CivilOf(x).day == CivilOf(day).day <==> x == day)
  {
    hide CivilOf, Lead, InMonth, FirstOfMonth, LengthOfMonth;
    var x := CellDay(day, fdow, i, j);
    LeadInWeek(day, fdow);
    ShownMonth(day, fdow, x);
    OwnMonth(day);
    if InMonth(day, x) { MonthPosition(day, x); }
  }

  lemma LeadInWeek(day: int, fdow: int)
    ensures 0 <= Lead(day, fdow) < 7
  {}

  lemma MonthPosition(day: int, x: int)
    requires InMonth(day, x)
    ensures CivilOf(x).day == CivilOf(day).day <==> x == day
  {
    hide CivilOf;
    InMonthCivil(day, x);
  }

  lemma OwnCellInGrid(day: int, fdow: int)
    ensures var c := OwnCell(day, fdow);
            && 0 <= c.row < 6 && 0 <= c.col < 7
            && CellDay(day, fdow, c.row, c.col) == day
            && (forall i, j :: 0 <= i < 6 && 0 <= j < 7 && CellDay(day, fdow, i, j) == day ==> c == At(i, j))
  {
    hide InMonth, FirstShown;
    OwnMonth(day);
    GridShowsMonth(day, fdow, day);
  }
}
