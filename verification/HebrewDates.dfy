/** Hebrew months, and the conversion between Hebrew dates and R.D. days. */
module HebrewDates {
  import opened Arithmetic
  import opened HebrewYear

  /** Months count from Nisan, though the year begins with Tishri, month 7. */
  datatype HebrewDate = HebrewDate(year: int, month: nat, day: nat)

  predicate LongHeshvan(year: int) {
    TruncMod(DaysInYear(year), 10) == 5
  }

  predicate ShortKislev(year: int) {
    TruncMod(DaysInYear(year), 10) == 3
  }

  function LastDayOfMonth(month: nat, year: int): nat {
    if || month in {2, 4, 6, 10, 13}
       || (month == 8 && !LongHeshvan(year))
       || (month == 9 && ShortKislev(year))
       || (month == 12 && !IsLeap(year))
    then 29
    else 30
  }

  /** Days in the months `from`, ..., `to - 1`. */
  function DaysInMonths(year: int, from: nat, to: nat): nat {
    if to <= from then 0 else DaysInMonths(year, from, to - 1) + LastDayOfMonth(to - 1, year)
  }

  /** Days of the year before `month`. */
  function DaysBeforeMonth(year: int, month: nat): nat {
    if month < 7 then DaysInMonths(year, 7, LastMonth(year) + 1) + DaysInMonths(year, 1, month)
    else DaysInMonths(year, 7, month)
  }

  /** R.D. day of 1 Tishri of year 1. */
  const FIRST_DAY := -1373427

  /** R.D. day of 1 Tishri. */
  function NewYear(year: int): int {
    ElapsedDays(year) - 1373428
  }

  /** R.D. day of a Hebrew date. */
  function Fixed(h: HebrewDate): int {
    NewYear(h.year) + DaysBeforeMonth(h.year, h.month) + h.day - 1
  }

  /** Does the month table of the year have the month, and the day in it? */
  predicate InTable(h: HebrewDate) {
    1 <= h.month <= LastMonth(h.year) && 1 <= h.day <= LastDayOfMonth(h.month, h.year)
  }

  /** A date that exists, in the years the calendar counts. */
  predicate IsDate(h: HebrewDate) {
    h.year >= 1 && InTable(h)
  }

  /** Days in all the months of the table of a year. */
  function TableDays(year: int): nat {
    DaysInMonths(year, 7, LastMonth(year) + 1) + DaysInMonths(year, 1, 7)
  }

  // --- Months fill the year ----------------------------------------------------------------------

  lemma {:induction false} DaysInMonthsSplit(year: int, a: nat, b: nat, c: nat)
    requires a <= b <= c
    ensures DaysInMonths(year, a, c) == DaysInMonths(year, a, b) + DaysInMonths(year, b, c)
  {
    hide LastDayOfMonth;
    if b < c {
      DaysInMonthsSplit(year, a, b, c - 1);
    }
  }

  lemma TableDaysByLength(year: int)
    ensures TableDays(year) == 354 + (if LongHeshvan(year) then 1 else 0) - (if ShortKislev(year) then 1 else 0)
                               + (if IsLeap(year) then 30 else 0)
  {
    hide LongHeshvan, ShortKislev, IsLeap;
    SpringMonths(year);
    var n := DaysInMonths(year, 7, 13);
    assert n == DaysInMonths(year, 7, 12) + LastDayOfMonth(12, year);
    assert DaysInMonths(year, 7, 12) == DaysInMonths(year, 7, 11) + 30;
    assert DaysInMonths(year, 7, 11) == DaysInMonths(year, 7, 10) + 29;
    assert DaysInMonths(year, 7, 10) == DaysInMonths(year, 7, 9) + LastDayOfMonth(9, year);
    assert DaysInMonths(year, 7, 9) == DaysInMonths(year, 7, 8) + LastDayOfMonth(8, year);
    assert DaysInMonths(year, 7, 8) == 30;
  }

  /** The month table sums to the length the postponement rules give the year. */
  lemma MonthsFillYear(year: int)
    requires year >= 1
    ensures DaysInMonths(year, 7, LastMonth(year) + 1) + DaysInMonths(year, 1, 7) == DaysInYear(year)
  {
    hide ElapsedDays, DaysInMonths;
    KeviotExhaustive(year);
    TableDaysByLength(year);
  }

  /** Nisan to Elul last 177 days in every year. */
  lemma SpringMonths(year: int)
    ensures DaysInMonths(year, 1, 7) == 177
  {
    hide LongHeshvan, ShortKislev, IsLeap;
    assert DaysInMonths(year, 1, 2) == 30;
    assert DaysInMonths(year, 1, 4) == 89;
    assert DaysInMonths(year, 1, 6) == 148;
  }

  // --- Where the months begin ---------------------------------------------------------------------

  /** R.D. day of the first of a month. */
  function MonthStart(year: int, month: nat): int {
    Fixed(HebrewDate(year, month, 1))
  }

  /** From Nisan on, months of 30 and 29 days take turns, in every year. */
  lemma SpringMonthStarts(year: int, month: nat)
    requires 1 <= month <= 6
    ensures MonthStart(year, month) == MonthStart(year, 1) + (59 * (month - 1) + 1) / 2
  {
    hide NewYear, LongHeshvan, ShortKislev, IsLeap;
    assert DaysInMonths(year, 1, 1) == 0;
    assert DaysInMonths(year, 1, 2) == 30;
    assert DaysInMonths(year, 1, 3) == 59;
    assert DaysInMonths(year, 1, 4) == 89;
    assert DaysInMonths(year, 1, 5) == 118;
    assert DaysInMonths(year, 1, 6) == 148;
  }

  /** From Tishri on: only Heshvan and Kislev vary, and a leap year has 30 days of Adar before its last month. */
  lemma AutumnMonthStarts(year: int)
    ensures MonthStart(year, 7) == NewYear(year)
    ensures MonthStart(year, 8) == MonthStart(year, 7) + 30
    ensures 29 <= MonthStart(year, 9) - MonthStart(year, 8) <= 30 && 29 <= MonthStart(year, 10) - MonthStart(year, 9) <= 30
    ensures MonthStart(year, 11) == MonthStart(year, 10) + 29
    ensures MonthStart(year, 12) == MonthStart(year, 11) + 30
    ensures MonthStart(year, 1) == MonthStart(year, 12) + (if IsLeap(year) then 59 else 29)
    ensures IsLeap(year) ==> MonthStart(year, 13) == MonthStart(year, 12) + 30
  {
    hide NewYear, LongHeshvan, ShortKislev, IsLeap;
    assert DaysInMonths(year, 7, 7) == 0;
    assert DaysInMonths(year, 7, 8) == 30;
    assert DaysInMonths(year, 7, 9) == 30 + LastDayOfMonth(8, year);
    assert DaysInMonths(year, 7, 10) == DaysInMonths(year, 7, 9) + LastDayOfMonth(9, year);
    assert DaysInMonths(year, 7, 11) == DaysInMonths(year, 7, 10) + 29;
    assert DaysInMonths(year, 7, 12) == DaysInMonths(year, 7, 11) + 30;
    assert DaysInMonths(year, 7, 13) == DaysInMonths(year, 7, 12) + LastDayOfMonth(12, year);
    assert DaysInMonths(year, 1, 1) == 0;
  }

  /** Heshvan has 30 days in the long years alone, and Kislev 29 in the short years alone. */
  lemma VaryingMonths(year: int)
    requires year >= 1
    ensures MonthStart(year, 9) - MonthStart(year, 8) == 30 <==> DaysInYear(year) in {355, 385}
    ensures MonthStart(year, 10) - MonthStart(year, 9) == 29 <==> DaysInYear(year) in {353, 383}
  {
    hide ElapsedDays, NewYear;
    KeviotExhaustive(year);
    assert DaysInMonths(year, 7, 8) == 30;
    assert DaysInMonths(year, 7, 9) == 30 + LastDayOfMonth(8, year);
    assert DaysInMonths(year, 7, 10) == DaysInMonths(year, 7, 9) + LastDayOfMonth(9, year);
  }

  /** The last month of the year, Elul, has 29 days. */
  lemma ElulEnds(year: int)
    requires year >= 1
    ensures NewYear(year + 1) == MonthStart(year, 6) + 29
  {
    hide NewYear, LastDayOfMonth, DaysInYear, DaysBeforeMonth;
    MonthEnds(year, 6);
    NewYearGap(year);
    LastOfElul(year);
  }

  lemma LastOfElul(year: int)
    ensures LastDayOfMonth(6, year) == 29
  {
  }

  /** Days of a month follow one another. */
  lemma DayOfMonth(year: int, month: nat, day: nat)
    ensures Fixed(HebrewDate(year, month, day)) == MonthStart(year, month) + day - 1
  {
  }

  /** A month ends where the next one in the year's order begins, or where the table or the year ends. */
  lemma MonthEnds(year: int, month: nat)
    requires 1 <= month <= LastMonth(year)
    ensures month == 6 ==> DaysBeforeMonth(year, 6) + LastDayOfMonth(6, year) == TableDays(year)
    ensures month == 6 && year >= 1 ==> TableDays(year) == DaysInYear(year)
    ensures month == LastMonth(year) ==>
              DaysBeforeMonth(year, month) + LastDayOfMonth(month, year) == DaysBeforeMonth(year, 1)
    ensures month != 6 && month != LastMonth(year) ==>
              DaysBeforeMonth(year, month) + LastDayOfMonth(month, year) == DaysBeforeMonth(year, month + 1)
  {
    hide LastDayOfMonth, DaysInYear;
    if year >= 1 {
      MonthsFillYear(year);
    }
  }

  /** The month that ends later in the year begins after the other has ended. */
  lemma MonthsInOrder(year: int, m: nat, n: nat)
    requires year >= 1 && 1 <= m <= LastMonth(year) && 1 <= n <= LastMonth(year)
    requires if m < 7 then m < n < 7 else m < n || n < 7
    ensures DaysBeforeMonth(year, m) + LastDayOfMonth(m, year) <= DaysBeforeMonth(year, n)
  {
    hide LastDayOfMonth;
    if m >= 7 && n < 7 {
      DaysInMonthsSplit(year, 7, m + 1, LastMonth(year) + 1);
    } else if m < 7 {
      DaysInMonthsSplit(year, 1, m + 1, n);
    } else {
      DaysInMonthsSplit(year, 7, m + 1, n);
    }
  }

  /** A date lies within its year. */
  lemma DateWithinYear(h: HebrewDate)
    requires IsDate(h)
    ensures NewYear(h.year) <= Fixed(h) < NewYear(h.year + 1)
  {
    hide ElapsedDays, DaysInMonths, InTable, Fixed;
    MonthsFillYear(h.year);
    WithinTable(h);
  }

  lemma WithinTable(h: HebrewDate)
    requires InTable(h)
    ensures NewYear(h.year) <= Fixed(h) < NewYear(h.year) + TableDays(h.year)
  {
    hide ElapsedDays, LastDayOfMonth;
    if h.month < 7 {
      DaysInMonthsSplit(h.year, 1, h.month, 7);
      DaysInMonthsSplit(h.year, h.month, h.month + 1, 7);
    } else {
      DaysInMonthsSplit(h.year, 7, h.month, LastMonth(h.year) + 1);
      DaysInMonthsSplit(h.year, h.month, h.month + 1, LastMonth(h.year) + 1);
    }
  }

  lemma {:induction false} NewYearsIncrease(a: int, b: int)
    requires -8 <= a <= b
    ensures NewYear(b) >= NewYear(a) + 353 * (b - a)
    decreases b - a
  {
    hide ElapsedDays;
    if a < b {
      NewYearsIncrease(a, b - 1);
      if b >= 2 {
        KeviotExhaustive(b - 1);
      } else {
        hide NewYear;
        NewYearBeforeFirst(b - 1);
        NewYearBeforeFirst(b);
      }
    }
  }

  /** New Years of the years just before the first. */
  lemma NewYearBeforeFirst(year: int)
    requires -9 <= year <= 1
    ensures NewYear(year) ==
      match year
      case -9 => -1377059
      case -8 => -1376703
      case -7 => -1376320
      case -6 => -1375966
      case -5 => -1375611
      case -4 => -1375228
      case -3 => -1374873
      case -2 => -1374519
      case -1 => -1374134
      case 0 => -1373781
      case _ => -1373427
  {
    hide ElapsedDays;
    match year
    case -9 => ElapsedBeforeEpoch(-9, -123, -3631, -1215);
    case -8 => ElapsedBeforeEpoch(-8, -111, -3276, -17619);
    case -7 => ElapsedBeforeEpoch(-7, -98, -2892, -20270);
    case -6 => ElapsedBeforeEpoch(-6, -86, -2538, -10754);
    case -5 => ElapsedBeforeEpoch(-5, -74, -2184, -1238);
    case -4 => ElapsedBeforeEpoch(-4, -61, -1800, -3889);
    case -3 => ElapsedBeforeEpoch(-3, -49, -1445, -20293);
    case -2 => ElapsedBeforeEpoch(-2, -37, -1091, -10777);
    case -1 => ElapsedBeforeEpoch(-1, -24, -707, -13428);
    case 0 => ElapsedBeforeEpoch(0, -12, -353, -3912);
    case _ => FirstNewYear();
  }

  /** The month table has room for each of the eight years before the first, and not for the one before those. */
  lemma TableBeforeFirst(year: int)
    requires -9 <= year <= 0
    ensures NewYear(year + 1) <= NewYear(year) + TableDays(year) <==> year >= -8
    ensures year == -9 ==> TableDays(year) == 354
  {
    hide ElapsedDays, DaysInMonths, NewYear, TableDays;
    NewYearBeforeFirst(year);
    NewYearBeforeFirst(year + 1);
    NewYearGap(year);
    TableDaysByLength(year);
  }

  /** A year is short enough for the estimate of the search never to overshoot. */
  lemma NewYearBound(year: int)
    requires year >= -8
    ensures NewYear(year) <= 366 * year - 1373429
  {
    if year >= 1 {
      var months := MonthsElapsed(year);
      MonthsElapsedStep(year);
      MonthsElapsedIsLinear(year);
      MoladIsLinear(months);
      PostponedIsDelay(MoladDay(months), MoladParts(months), IsLeap(year), IsLeap(year - 1));
      DelayRange(MoladDay(months) % 7, MoladParts(months), IsLeap(year), IsLeap(year - 1));
      hide MonthsElapsed, MoladDay, MoladParts, Postponed, Delay;
      assert NewYear(year) <= MoladDay(months) + 2 - 1373428;
    } else {
      hide NewYear;
      NewYearBeforeFirst(year);
    }
  }

  /** Two dates on the same day are the same date. */
  lemma FixedInjective(g: HebrewDate, h: HebrewDate)
    requires IsDate(g) && IsDate(h) && Fixed(g) == Fixed(h)
    ensures g == h
  {
    hide NewYear, LastDayOfMonth, DaysBeforeMonth;
    DateWithinYear(g);
    DateWithinYear(h);
    if g.year < h.year {
      NewYearsIncrease(g.year + 1, h.year);
    } else if h.year < g.year {
      NewYearsIncrease(h.year + 1, g.year);
    } else if g.month != h.month {
      if (if g.month < 7 then g.month < h.month < 7 else g.month < h.month || h.month < 7) {
        MonthsInOrder(g.year, g.month, h.month);
      } else {
        MonthsInOrder(g.year, h.month, g.month);
      }
    }
  }

  // --- The conversions ---------------------------------------------------------------------------

  /** R.D. day of a Hebrew date, by accumulating month lengths. */
  method FixedFromHebrew(h: HebrewDate) returns (f: int)
    ensures f == Fixed(h)
  {
    var total: int := h.day;
    if h.month < 7 {
      var m: nat := 7;
      while m <= LastMonth(h.year)
        invariant 7 <= m <= LastMonth(h.year) + 1
        invariant total == h.day + DaysInMonths(h.year, 7, m)
      {
        total := total + LastDayOfMonth(m, h.year);
        m := m + 1;
      }
      m := 1;
      while m < h.month
        invariant 1 <= m && (m <= h.month || h.month == 0)
        invariant h.month == 0 ==> m == 1
        invariant total == h.day + DaysInMonths(h.year, 7, LastMonth(h.year) + 1) + DaysInMonths(h.year, 1, m)
      {
        total := total + LastDayOfMonth(m, h.year);
        m := m + 1;
      }
    } else {
      var m: nat := 7;
      while m < h.month
        invariant 7 <= m <= h.month
        invariant total == h.day + DaysInMonths(h.year, 7, m)
      {
        total := total + LastDayOfMonth(m, h.year);
        m := m + 1;
      }
    }
    f := total + ElapsedDays(h.year) - 1373429;
  }

  /** The search for the year: the first from `year` on that has not ended by day `f`. */
  function YearFrom(year: int, f: int): (y: int)
    ensures y >= year && f < NewYear(y + 1) && (y > year ==> NewYear(y) <= f)
    decreases Max(f - FIRST_DAY, 0) - year + 1
  {
    hide NewYear;
    if f < NewYear(year + 1) then year
    else
      YearSearchEnds(year, f);
      YearFrom(year + 1, f)
  }

  lemma YearSearchEnds(year: int, f: int)
    requires f >= NewYear(year + 1)
    ensures Max(f - FIRST_DAY, 0) - year >= 0
  {
    hide NewYear;
    if year >= 0 {
      FirstNewYear();
      NewYearsIncrease(1, year + 1);
    }
  }

  /** The search for the month: the first from `month` on whose last day is not before day `f`. */
  function MonthFrom(year: int, month: nat, f: int): nat
    decreases Max(7 - month, 0), Max(f - NewYear(year) - DaysBeforeMonth(year, month) + 1, 0)
  {
    hide NewYear, LastDayOfMonth, DaysBeforeMonth;
    if f <= Fixed(HebrewDate(year, month, LastDayOfMonth(month, year))) then month
    else
      MonthSearchEnds(year, month);
      MonthFrom(year, month + 1, f)
  }

  /** The date the conversion gives to day `f`, whether or not the calendar counts that day. */
  function DateOn(f: int): HebrewDate {
    var year := YearFrom((f + 1373429) / 366, f);
    var month := MonthFrom(year, if f < Fixed(HebrewDate(year, 1, 1)) then 7 else 1, f);
    HebrewDate(year, month, WrapU32(f - Fixed(HebrewDate(year, month, 1)) + 1))
  }

  /**
   The Hebrew date of a day: the year by an estimate and a search, then the month by a search that starts from
   Tishri or from Nisan. From 1 Tishri of year 1 on, and on no earlier day, it is a date of the calendar: the one
   date on that day.
   */
  method HebrewFromFixed(f: int) returns (h: HebrewDate)
    ensures h == DateOn(f)
    ensures IsDate(h) <==> f >= FIRST_DAY
    ensures f >= FIRST_DAY ==> Fixed(h) == f && forall g :: IsDate(g) && Fixed(g) == f ==> g == h
  {
    hide NewYear, LastDayOfMonth, DaysInMonths, IsLeap, ElapsedDays, InTable;
    var year := (f + 1373429) / 366;
    var next := FixedFromHebrew(HebrewDate(year + 1, 7, 1));
    TishriFirst(year + 1);
    while f >= next
      invariant next == NewYear(year + 1)
      invariant YearFrom(year, f) == YearFrom((f + 1373429) / 366, f)
      decreases Max(f - FIRST_DAY, 0) - year + 1
    {
      YearSearchEnds(year, f);
      year := year + 1;
      next := FixedFromHebrew(HebrewDate(year + 1, 7, 1));
      TishriFirst(year + 1);
    }
    var nisan := FixedFromHebrew(HebrewDate(year, 1, 1));
    var month: nat := if f < nisan then 7 else 1;
    ghost var start := month;
    var end := FixedFromHebrew(HebrewDate(year, month, LastDayOfMonth(month, year)));
    while f > end
      invariant end == Fixed(HebrewDate(year, month, LastDayOfMonth(month, year)))
      invariant MonthFrom(year, month, f) == MonthFrom(year, start, f)
      decreases Max(7 - month, 0), Max(f - NewYear(year) - DaysBeforeMonth(year, month) + 1, 0)
    {
      MonthSearchEnds(year, month);
      month := month + 1;
      end := FixedFromHebrew(HebrewDate(year, month, LastDayOfMonth(month, year)));
    }
    var first := FixedFromHebrew(HebrewDate(year, month, 1));
    h := HebrewDate(year, month, WrapU32(f - first + 1));
    hide YearFrom, MonthFrom, Fixed;
    assert h == DateOn(f);
    YearOfDate(f);
    if f >= FIRST_DAY {
      NamedFrom(f);
      OnlyDate(h);
    }
  }

  lemma MonthSearchEnds(year: int, month: nat)
    ensures month >= 7 ==>
              DaysBeforeMonth(year, month + 1) == DaysBeforeMonth(year, month) + LastDayOfMonth(month, year)
    ensures LastDayOfMonth(month, year) >= 29
  {
    hide LongHeshvan, ShortKislev, IsLeap;
  }

  // --- Which days the conversion serves ----------------------------------------------------------------

  /** 1 Tishri of year -8. */
  const FIRST_NAMED := -1376703

  /** The conversion names a month and a day of the table, and that date is on day `f`. */
  predicate ConvertsBack(f: int) {
    InTable(DateOn(f)) && Fixed(DateOn(f)) == f
  }

  /** The year found encloses the day, from the first day that can be named on. */
  lemma YearFound(f: int)
    requires f >= FIRST_NAMED
    ensures var y := DateOn(f).year;
            y >= -8 && NewYear(y) <= f < NewYear(y + 1) && (y >= 1 <==> f >= FIRST_DAY)
  {
    hide NewYear, YearFrom, DateOn;
    YearOf(f);
    var estimate := (f + 1373429) / 366;
    var y := DateOn(f).year;
    assert estimate >= -9;
    NewYearBeforeFirst(-8);
    NewYearBeforeFirst(1);
    if y == estimate && y >= -8 {
      NewYearBound(y);
    }
    if y >= 1 {
      NewYearsIncrease(1, y);
    } else if y >= -8 {
      NewYearsIncrease(y + 1, 1);
    }
  }

  lemma YearOf(f: int)
    ensures var estimate, y := (f + 1373429) / 366, DateOn(f).year;
            y == YearFrom(estimate, f) && y >= estimate && f < NewYear(y + 1) && (y > estimate ==> NewYear(y) <= f)
  {
    hide NewYear, MonthFrom, Fixed;
  }

  /** A day gets a year from 1 on exactly if it is not before 1 Tishri of year 1. */
  lemma YearOfDate(f: int)
    ensures DateOn(f).year >= 1 <==> f >= FIRST_DAY
  {
    hide NewYear, MonthFrom;
    FirstNewYear();
    if f >= FIRST_DAY {
      YearFound(f);
    } else if DateOn(f).year >= 1 {
      NewYearsIncrease(1, DateOn(f).year);
    }
  }

  /** A day inside the table of its year gets the month and the day of the table. */
  lemma {:induction false} MonthFound(year: int, month: nat, f: int)
    requires NewYear(year) + DaysBeforeMonth(year, month) <= f < NewYear(year) + TableDays(year)
    requires if f < NewYear(year) + DaysBeforeMonth(year, 1) then 7 <= month <= LastMonth(year) else 1 <= month <= 6
    ensures var m := MonthFrom(year, month, f);
            var first := NewYear(year) + DaysBeforeMonth(year, m);
            1 <= m <= LastMonth(year) && first <= f < first + LastDayOfMonth(m, year)
    decreases 13 - month
  {
    hide NewYear, LastDayOfMonth, DaysBeforeMonth, IsLeap, TableDays;
    if f > Fixed(HebrewDate(year, month, LastDayOfMonth(month, year))) {
      MonthEnds(year, month);
      MonthFound(year, month + 1, f);
    }
  }

  lemma NamedFrom(f: int)
    requires f >= FIRST_NAMED
    ensures ConvertsBack(f)
  {
    hide NewYear, DateOn, TableDays, ConvertsBack;
    YearFound(f);
    var year := DateOn(f).year;
    if year >= 1 {
      MonthsFillYear(year);
      NewYearGap(year);
      TableDaysAre(year);
    } else {
      TableBeforeFirst(year);
    }
    InsideTable(f);
  }

  lemma InsideTable(f: int)
    requires var year := DateOn(f).year; NewYear(year) <= f < NewYear(year) + TableDays(year)
    ensures ConvertsBack(f)
  {
    hide NewYear, LastDayOfMonth, DaysBeforeMonth, IsLeap, TableDays, YearFrom, MonthFrom;
    var year := DateOn(f).year;
    TishriFirst(year);
    var start := if f < Fixed(HebrewDate(year, 1, 1)) then 7 else 1;
    MonthFound(year, start, f);
    ShortMonth(DateOn(f).month, year);
  }

  lemma ShortMonth(month: nat, year: int)
    ensures LastDayOfMonth(month, year) <= 30
  {
  }

  lemma TableDaysAre(year: int)
    ensures TableDays(year) == DaysInMonths(year, 7, LastMonth(year) + 1) + DaysInMonths(year, 1, 7)
  {
  }

  /**
   Exactly from when on days convert to a month and a day of the table and back: from 1 Tishri of year -8. The
   day before is in a year of 356 days whose table has 354.
   */
  lemma ConversionDomain(from: int)
    ensures (forall f :: f >= from ==> ConvertsBack(f)) <==> from >= FIRST_NAMED
  {
    hide ConvertsBack;
    if from >= FIRST_NAMED {
      forall f | f >= from
        ensures ConvertsBack(f)
      {
        NamedFrom(f);
      }
    } else {
      LastUnnamed();
      assert !ConvertsBack(FIRST_NAMED - 1);
    }
  }

  lemma LastUnnamed()
    ensures !ConvertsBack(FIRST_NAMED - 1)
  {
    hide NewYear, LastDayOfMonth, DaysBeforeMonth, TableDays, MonthFrom;
    var f := FIRST_NAMED - 1;
    NewYearBeforeFirst(-9);
    NewYearBeforeFirst(-8);
    TableBeforeFirst(-9);
    var h := DateOn(f);
    assert h.year == -9;
    if ConvertsBack(f) {
      WithinTable(h);
    }
  }

  /** Dates and days from 1 Tishri of year 1 on are in bijection: the other direction. */
  lemma DateRoundTrip(g: HebrewDate)
    requires IsDate(g)
    ensures Fixed(g) >= FIRST_DAY && DateOn(Fixed(g)) == g
  {
    hide NewYear, Fixed, InTable, DateOn;
    DateWithinYear(g);
    FirstNewYear();
    NewYearsIncrease(1, g.year);
    NamedFrom(Fixed(g));
    YearOfDate(Fixed(g));
    FixedInjective(g, DateOn(Fixed(g)));
  }

  lemma OnlyDate(h: HebrewDate)
    requires IsDate(h)
    ensures forall g :: IsDate(g) && Fixed(g) == Fixed(h) ==> g == h
  {
    hide Fixed, IsDate;
    forall g | IsDate(g) && Fixed(g) == Fixed(h)
      ensures g == h
    {
      FixedInjective(g, h);
    }
  }

  lemma TishriFirst(year: int)
    ensures DaysBeforeMonth(year, 7) == 0
  {
  }

  lemma FirstNewYear()
    ensures NewYear(1) == FIRST_DAY
  {
    hide MoladDay, MoladParts;
    FirstMolad();
  }

  lemma FirstMolad()
    ensures MonthsElapsed(1) == 0 && MoladDay(0) == 1 && MoladParts(0) == 5604
  {
    assert HoursElapsed(0) == 5;
  }

  lemma NewYearGap(year: int)
    ensures NewYear(year + 1) == NewYear(year) + DaysInYear(year)
  {
  }
}
