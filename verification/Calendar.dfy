/** Civil-calendar arithmetic behind the monthly event windows: Gregorian
    month lengths, the way PHP `mktime` normalises an out-of-range month or
    day, the report's previous-month rule, and the two windows it queries.
    Times stay civil tuples; the conversion to epoch seconds in the server's
    time zone is not modelled. */
module Calendar {

  datatype YearMonth = YearMonth(year: int, month: int)

  datatype Date = Date(year: int, month: int, day: int)

  datatype CivilTime = CivilTime(date: Date, hour: int, minute: int, second: int)

  /** An inclusive time range, as passed to the event query. */
  datatype Window = Window(start: CivilTime, end: CivilTime)

  /** Proleptic Gregorian leap-year rule. */
  predicate IsLeapYear(year: int)
  {
    year % 4 == 0 && (year % 100 != 0 || year % 400 == 0)
  }

  function DaysInMonth(year: int, month: int): (days: int)
    requires 1 <= month <= 12
    ensures 28 <= days <= 31
    ensures month == 2 ==> (days == 29 <==> IsLeapYear(year))
  {
    if month == 2 then (if IsLeapYear(year) then 29 else 28)
    else if month == 4 || month == 6 || month == 9 || month == 11 then 30
    else 31
  }

  predicate ValidMonth(ym: YearMonth)
  {
    1 <= ym.month <= 12
  }

  predicate ValidDate(d: Date)
  {
    1 <= d.month <= 12 && 1 <= d.day <= DaysInMonth(d.year, d.month)
  }

  /** Months counted from January of year 0; month arithmetic is arithmetic on this number. */
  function MonthOrdinal(ym: YearMonth): int
  {
    12 * ym.year + ym.month - 1
  }

  /** A valid month is determined by its ordinal. */
  lemma OrdinalDeterminesMonth(a: YearMonth, b: YearMonth)
    requires ValidMonth(a) && ValidMonth(b)
    requires MonthOrdinal(a) == MonthOrdinal(b)
    ensures a == b
  {
  }

  /** `mktime`'s month normalisation: month 13 is January of the next year,
      month 0 is December of the previous year, and so on in both directions. */
  function NormalizeMonth(year: int, month: int): (ym: YearMonth)
    ensures ValidMonth(ym)
    ensures MonthOrdinal(ym) == 12 * year + month - 1
  {
    YearMonth(year + (month - 1) / 12, (month - 1) % 12 + 1)
  }

  function NextMonth(ym: YearMonth): (next: YearMonth)
    requires ValidMonth(ym)
    ensures ValidMonth(next)
    ensures MonthOrdinal(next) == MonthOrdinal(ym) + 1
  {
    if ym.month == 12 then YearMonth(ym.year + 1, 1) else YearMonth(ym.year, ym.month + 1)
  }

  /** The report's previous month: January steps back to December of the
      year before, any other month to the month before in the same year. */
  function PreviousMonth(ym: YearMonth): (prev: YearMonth)
    requires ValidMonth(ym)
    ensures ValidMonth(prev)
    ensures MonthOrdinal(prev) == MonthOrdinal(ym) - 1
    ensures ym.month == 1 ==> prev == YearMonth(ym.year - 1, 12)
    ensures ym.month != 1 ==> prev == YearMonth(ym.year, ym.month - 1)
  {
    var month := if ym.month == 1 then 12 else ym.month - 1;
    var year := if ym.month == 1 then ym.year - 1 else ym.year;
    YearMonth(year, month)
  }

  /** Days from January 1 of year 0 to January 1 of `year` on the proleptic
      Gregorian day line (negative for years before 0). */
  function DaysBeforeYear(year: int): int
  {
    365 * year + (year + 3) / 4 - (year + 99) / 100 + (year + 399) / 400
  }

  /** A year has 366 days exactly when it is a leap year. */
  lemma YearLength(year: int)
    ensures DaysBeforeYear(year + 1) - DaysBeforeYear(year) == if IsLeapYear(year) then 366 else 365
  {
    var q4, r4 := year / 4, year % 4;
    var q100, r100 := year / 100, year % 100;
    var q400, r400 := year / 400, year % 400;
    assert (year + 4) / 4 - (year + 3) / 4 == if r4 == 0 then 1 else 0 by {
      assert year + 3 == 4 * q4 + (r4 + 3) && year + 4 == 4 * q4 + (r4 + 4);
    }
    assert (year + 100) / 100 - (year + 99) / 100 == if r100 == 0 then 1 else 0 by {
      assert year + 99 == 100 * q100 + (r100 + 99) && year + 100 == 100 * q100 + (r100 + 100);
    }
    assert (year + 400) / 400 - (year + 399) / 400 == if r400 == 0 then 1 else 0 by {
      assert year + 399 == 400 * q400 + (r400 + 399) && year + 400 == 400 * q400 + (r400 + 400);
    }
  }

  /** Days from January 1 to the first of `month` within `year`. */
  function DaysBeforeMonth(year: int, month: int): int
    requires 1 <= month <= 12
  {
    if month == 1 then 0 else DaysBeforeMonth(year, month - 1) + DaysInMonth(year, month - 1)
  }

  /** The months before December take 334 days, one more in a leap year. */
  lemma DaysBeforeDecember(year: int)
    ensures DaysBeforeMonth(year, 12) == if IsLeapYear(year) then 335 else 334
  {
    var feb := DaysInMonth(year, 2);
    assert DaysBeforeMonth(year, 2) == 31;
    assert DaysBeforeMonth(year, 3) == 31 + feb;
    assert DaysBeforeMonth(year, 4) == 62 + feb;
    assert DaysBeforeMonth(year, 5) == 92 + feb;
    assert DaysBeforeMonth(year, 6) == 123 + feb;
    assert DaysBeforeMonth(year, 7) == 153 + feb;
    assert DaysBeforeMonth(year, 8) == 184 + feb;
    assert DaysBeforeMonth(year, 9) == 215 + feb;
    assert DaysBeforeMonth(year, 10) == 245 + feb;
    assert DaysBeforeMonth(year, 11) == 276 + feb;
  }

  /** Position of the first day of a month on the day line. */
  function FirstDay(ym: YearMonth): int
    requires ValidMonth(ym)
  {
    DaysBeforeYear(ym.year) + DaysBeforeMonth(ym.year, ym.month)
  }

  /** Position of a date on the day line. */
  function DayNumber(d: Date): int
    requires 1 <= d.month <= 12
  {
    FirstDay(YearMonth(d.year, d.month)) + d.day - 1
  }

  /** The next month begins right after the last day of this one. */
  lemma NextMonthFirstDay(ym: YearMonth)
    requires ValidMonth(ym)
    ensures FirstDay(NextMonth(ym)) == FirstDay(ym) + DaysInMonth(ym.year, ym.month)
  {
    if ym.month == 12 {
      YearLength(ym.year);
      DaysBeforeDecember(ym.year);
    }
  }

  /** A later month begins after every day of an earlier one. */
  lemma {:induction false} FirstDayMonotone(a: YearMonth, b: YearMonth)
    requires ValidMonth(a) && ValidMonth(b)
    requires MonthOrdinal(a) < MonthOrdinal(b)
    ensures FirstDay(a) + DaysInMonth(a.year, a.month) <= FirstDay(b)
    decreases MonthOrdinal(b) - MonthOrdinal(a)
  {
    var next := NextMonth(a);
    NextMonthFirstDay(a);
    if MonthOrdinal(next) == MonthOrdinal(b) {
      OrdinalDeterminesMonth(next, b);
    } else {
      FirstDayMonotone(next, b);
    }
  }

  /** Distinct valid dates sit at distinct positions on the day line, so a
      day number determines the date. */
  lemma DayNumberInjective(a: Date, b: Date)
    requires ValidDate(a) && ValidDate(b)
    requires DayNumber(a) == DayNumber(b)
    ensures a == b
  {
    var ma := YearMonth(a.year, a.month);
    var mb := YearMonth(b.year, b.month);
    if MonthOrdinal(ma) < MonthOrdinal(mb) {
      FirstDayMonotone(ma, mb);
    } else if MonthOrdinal(mb) < MonthOrdinal(ma) {
      FirstDayMonotone(mb, ma);
    } else {
      OrdinalDeterminesMonth(ma, mb);
    }
  }

  /** `mktime`'s day normalisation within a valid month: a day below 1 borrows
      the length of the month before (day 0 is that month's last day), a day
      past the month's end carries into the month after. The result is the
      date `day - 1` days after the first of the month. */
  function NormalizeDay(ym: YearMonth, day: int): (d: Date)
    requires ValidMonth(ym)
    ensures ValidDate(d)
    ensures DayNumber(d) == FirstDay(ym) + day - 1
    decreases if day < 1 then 1 else 0, if day < 1 then 1 - day else day
  {
    if day < 1 then
      var prev := PreviousMonth(ym);
      OrdinalDeterminesMonth(NextMonth(prev), ym);
      NextMonthFirstDay(prev);
      NormalizeDay(prev, day + DaysInMonth(prev.year, prev.month))
    else if day > DaysInMonth(ym.year, ym.month) then
      NextMonthFirstDay(ym);
      NormalizeDay(NextMonth(ym), day - DaysInMonth(ym.year, ym.month))
    else
      Date(ym.year, ym.month, day)
  }

  /** PHP `mktime(hour, minute, second, month, day, year)` as a civil time.
      The time-of-day fields are passed through: every call here uses in-range constants. */
  function MkTime(hour: int, minute: int, second: int, month: int, day: int, year: int): (t: CivilTime)
    ensures ValidDate(t.date)
    ensures DayNumber(t.date) == FirstDay(NormalizeMonth(year, month)) + day - 1
    ensures t.hour == hour && t.minute == minute && t.second == second
  {
    CivilTime(NormalizeDay(NormalizeMonth(year, month), day), hour, minute, second)
  }

  /** Day 32 of January is February 1. */
  lemma JanuaryOverflow(year: int)
    ensures MkTime(0, 0, 0, 1, 32, year).date == Date(year, 2, 1)
  {
    var jan := YearMonth(year, 1);
    assert NormalizeMonth(year, 1) == jan;
    assert DayNumber(Date(year, 2, 1)) == FirstDay(jan) + 31;
    DayNumberInjective(MkTime(0, 0, 0, 1, 32, year).date, Date(year, 2, 1));
  }

  /** Day 0 of March is February 29 in a leap year and February 28 otherwise. */
  lemma MarchDayZero(year: int)
    ensures MkTime(0, 0, 0, 3, 0, year).date == Date(year, 2, if IsLeapYear(year) then 29 else 28)
  {
    var feb := YearMonth(year, 2);
    var last := Date(year, 2, DaysInMonth(year, 2));
    assert NormalizeMonth(year, 3) == NextMonth(feb);
    NextMonthFirstDay(feb);
    assert DayNumber(last) == FirstDay(NextMonth(feb)) - 1;
    DayNumberInjective(MkTime(0, 0, 0, 3, 0, year).date, last);
  }

  /** The event window of a month: `mktime(0, 0, 0, month, 1, year)` to
      `mktime(23, 59, 59, month + 1, 0, year)`. Whatever `month` is, the window
      runs from the first to the last day of the one normalised month. */
  function MonthWindow(year: int, month: int): (w: Window)
    ensures var ym := NormalizeMonth(year, month);
      && w.start == CivilTime(Date(ym.year, ym.month, 1), 0, 0, 0)
      && w.end == CivilTime(Date(ym.year, ym.month, DaysInMonth(ym.year, ym.month)), 23, 59, 59)
  {
    var ym := NormalizeMonth(year, month);
    NextMonthNormalizes(year, month);
    LastDayIsDayZeroOfNext(ym);
    Window(MkTime(0, 0, 0, month, 1, year), MkTime(23, 59, 59, month + 1, 0, year))
  }

  lemma NextMonthNormalizes(year: int, month: int)
    ensures NormalizeMonth(year, month + 1) == NextMonth(NormalizeMonth(year, month))
  {
    OrdinalDeterminesMonth(NormalizeMonth(year, month + 1), NextMonth(NormalizeMonth(year, month)));
  }

  /** Day 0 of the following month is the last day of this month. */
  lemma LastDayIsDayZeroOfNext(ym: YearMonth)
    requires ValidMonth(ym)
    ensures NormalizeDay(NextMonth(ym), 0) == Date(ym.year, ym.month, DaysInMonth(ym.year, ym.month))
  {
    var next := NextMonth(ym);
    OrdinalDeterminesMonth(PreviousMonth(next), ym);
  }

  /** The day after a valid date, by the same normalisation. */
  function NextDay(d: Date): Date
    requires ValidDate(d)
  {
    NormalizeDay(YearMonth(d.year, d.month), d.day + 1)
  }

  /** The two windows the report queries for the month `now`: the current
      month's and the previous month's. */
  function ReportWindows(now: YearMonth): (ws: (Window, Window))
    requires ValidMonth(now)
    ensures ws.0 == Window(CivilTime(Date(now.year, now.month, 1), 0, 0, 0),
                           CivilTime(Date(now.year, now.month, DaysInMonth(now.year, now.month)), 23, 59, 59))
    ensures var prev := PreviousMonth(now);
      ws.1 == Window(CivilTime(Date(prev.year, prev.month, 1), 0, 0, 0),
                     CivilTime(Date(prev.year, prev.month, DaysInMonth(prev.year, prev.month)), 23, 59, 59))
  {
    var prev := PreviousMonth(now);
    assert NormalizeMonth(now.year, now.month) == now;
    assert NormalizeMonth(prev.year, prev.month) == prev;
    (MonthWindow(now.year, now.month), MonthWindow(prev.year, prev.month))
  }

  /** The previous month's window ends at 23:59:59 on the day before the
      current month's window starts at 00:00:00: no day is missed or counted twice. */
  lemma ReportWindowsAdjacent(now: YearMonth)
    requires ValidMonth(now)
    ensures var ws := ReportWindows(now);
      && NextDay(ws.1.end.date) == ws.0.start.date
      && ws.1.end.hour == 23 && ws.1.end.minute == 59 && ws.1.end.second == 59
      && ws.0.start.hour == 0 && ws.0.start.minute == 0 && ws.0.start.second == 0
  {
    var prev := PreviousMonth(now);
    var last := DaysInMonth(prev.year, prev.month);
    OrdinalDeterminesMonth(NextMonth(prev), now);
    assert NormalizeDay(prev, last + 1) == NormalizeDay(now, 1);
  }

  /** In January the previous window is the whole of December of the year
      before, ending on December 31. */
  lemma JanuaryReportsDecember(year: int)
    ensures ReportWindows(YearMonth(year, 1)).1
         == Window(CivilTime(Date(year - 1, 12, 1), 0, 0, 0), CivilTime(Date(year - 1, 12, 31), 23, 59, 59))
  {
  }

  /** February's window ends on the 29th exactly in leap years. */
  lemma FebruaryWindowEnd(year: int)
    ensures MonthWindow(year, 2).end.date.day == (if IsLeapYear(year) then 29 else 28)
  {
  }

  /** December's window ends on December 31, the `month + 1 == 13` case of `mktime`. */
  lemma DecemberWindowEnd(year: int)
    ensures MonthWindow(year, 12).end == CivilTime(Date(year, 12, 31), 23, 59, 59)
  {
  }
}
