/** The arithmetic Persian calendar: 683 leap years in 2820, spread by blocks of 768 years. */
module Persian {
  import opened Arithmetic
  import Julian

  datatype PersianDate = PersianDate(year: int, month: nat, day: nat)

  /** R.D. day of the epoch, 19 March 622 of the Julian calendar. */
  function Epoch(): int {
    Julian.Fixed(Julian.JulianDate(622, 3, 19))
  }

  predicate IsLeap(year: int) {
    var a := if year >= 0 then year + 2346 else year + 2347;
    var inner := a % 2820 % 768;
    inner * 683 % 2820 < 683
  }

  function LastDayOfMonth(month: nat, year: int): nat {
    if month < 7 then 31 else if month < 12 || IsLeap(year) then 30 else 29
  }

  function DaysBeforeMonth(year: int, month: nat): nat {
    if month <= 1 then 0 else DaysBeforeMonth(year, month - 1) + LastDayOfMonth(month - 1, year)
  }

  /** Leap days before the year of index `x`, counted from year -2345. */
  function LeapDays(x: int): int {
    683 * (x / 2820) + 186 * (x % 2820 / 768) + 683 * (x % 2820 % 768) / 2820
  }

  /** R.D. day of a Persian date. A year before the first is moved into the cycle that starts with year 1. */
  function Fixed(d: PersianDate): int
    decreases d.year < 0
  {
    if d.year < 0 then
      Fixed(PersianDate(1 + d.year % 2820, d.month, d.day)) + 1029983 * (d.year / 2820)
    else
      Epoch() - 1 + 365 * (d.year - 1) + LeapDays(d.year + 2345) - 568 + DaysBeforeMonth(d.year, d.month) + d.day
  }

  /** The year of a day: cycles, blocks and a division, with one correction. */
  function YearFromFixed(f: int): int {
    var d0 := f - Fixed(PersianDate(-2345, 1, 1));
    var year := YearIndex(d0) - 2345;
    if year < 1 then year - 1 else year
  }

  function YearIndex(d0: int): int {
    var n2820, d1 := d0 / 1029983, d0 % 1029983;
    var n768, d2 := d1 / 280506, d1 % 280506;
    var n1 := 2820 * (d2 + 366) / 1029983;
    2820 * n2820 + 768 * n768 + if d1 == 1029617 then n1 - 1 else n1
  }

  // --- The calendar as the leap rule and the month table describe it -------------------------------

  /** A date that exists; there is no year 0. */
  predicate IsDate(d: PersianDate) {
    d.year != 0 && 1 <= d.month <= 12 && 1 <= d.day <= LastDayOfMonth(d.month, d.year)
  }

  /** Years in order, without the gap at 0: year -2345 has index 1. */
  function Index(year: int): int {
    if year < 0 then year + 2346 else year + 2345
  }

  /** First day of the year of index `x`. */
  function YearStart(x: int): int {
    Epoch() - 568 + 365 * (x - 2346) + LeapDays(x)
  }

  /** The closed form counts exactly the years the leap rule names. */
  lemma LeapDaysStep(year: int)
    ensures LeapDays(Index(year) + 1) == LeapDays(Index(year)) + if IsLeap(year) then 1 else 0
  {
    var x := Index(year);
    var n, r := (x + 1) / 2820, (x + 1) % 2820;
    var q, i := r / 768, r % 768;
    if r == 0 {
      DivModUnique(x, 2820, n - 1, 2819);
    } else {
      DivModUnique(x, 2820, n, r - 1);
      if i == 0 {
        DivModUnique(r - 1, 768, q - 1, 767);
      } else {
        DivModUnique(r - 1, 768, q, i - 1);
        LeapWithinBlock(i);
      }
    }
  }

  lemma LeapWithinBlock(i: int)
    requires 1 <= i
    ensures 683 * i / 2820 == 683 * (i - 1) / 2820 + if i * 683 % 2820 < 683 then 1 else 0
  {
    var q, r := 683 * i / 2820, 683 * i % 2820;
    if r < 683 {
      DivModUnique(683 * i - 683, 2820, q - 1, r + 2820 - 683);
    } else {
      DivModUnique(683 * i - 683, 2820, q, r - 683);
    }
  }

  lemma DaysBeforeMonthTable(year: int, month: nat)
    requires 1 <= month <= 12
    ensures DaysBeforeMonth(year, month) == if month <= 7 then 31 * (month - 1) else 186 + 30 * (month - 7)
  {
    hide IsLeap;
    if month > 1 {
      DaysBeforeMonthTable(year, month - 1);
    }
  }

  /** Before and after the epoch, a date is counted from the start of its year. */
  lemma FixedFromYearStart(d: PersianDate)
    requires 1 <= d.month <= 12 && d.year != 0
    ensures Fixed(d) == YearStart(Index(d.year)) + DaysBeforeMonth(d.year, d.month) + d.day - 1
  {
    hide Epoch, LeapDays, DaysBeforeMonth;
    if d.year < 0 {
      var k := d.year / 2820;
      LeapDaysPeriod(Index(d.year), k);
      DaysBeforeMonthTable(d.year, d.month);
      DaysBeforeMonthTable(1 + d.year % 2820, d.month);
    }
  }

  lemma LeapDaysPeriod(x: int, k: int)
    ensures LeapDays(x) == LeapDays(x - 2820 * k) + 683 * k
  {
    DivModUnique(x - 2820 * k, 2820, x / 2820 - k, x % 2820);
  }

  lemma YearStartStep(year: int)
    ensures YearStart(Index(year) + 1) == YearStart(Index(year)) + if IsLeap(year) then 366 else 365
  {
    hide LeapDays, IsLeap, Epoch;
    LeapDaysStep(year);
  }

  // --- The year of a day ---------------------------------------------------------------------------

  /** Days of a 768-year block before its `i`-th year. */
  function BlockDays(i: int): int {
    365 * (i - 1) + 683 * i / 2820
  }

  /** 683 and 2820 have no common factor: the leap fraction is never whole inside a cycle. */
  lemma NeverWhole(i: int)
    requires 1 <= i < 2820
    ensures 683 * i % 2820 != 0
  {
    var k, r := 683 * i / 2820, 683 * i % 2820;
    assert i == 2147 * r + 2820 * (2147 * k - 520 * i);
  }

  /** The division inverts the block's closed form. */
  lemma BlockYear(d2: int, i: int)
    requires 1 <= i < 2819
    ensures 2820 * (d2 + 366) / 1029983 == i <==> BlockDays(i) <= d2 < BlockDays(i + 1)
  {
    BlockBound(d2, i);
    BlockBound(d2, i + 1);
  }

  lemma BlockBound(d2: int, i: int)
    requires 1 <= i < 2820
    ensures 2820 * (d2 + 366) >= 1029983 * i <==> BlockDays(i) <= d2
  {
    NeverWhole(i);
    var w := d2 + 366 - 365 * i;
    assert 2820 * (d2 + 366) - 1029983 * i == 2820 * w - 683 * i;
  }

  /** A year's start, by cycle, block and year of the block. The last year of a cycle is a day late. */
  lemma YearStartInCycle(n: int, m: int, i: int)
    requires 0 <= m <= 3 && 1 <= i <= 768 && 768 * m + i <= 2820
    ensures YearStart(2820 * n + 768 * m + i) - YearStart(1)
         == 1029983 * n + 280506 * m + BlockDays(i) + if 768 * m + i == 2820 then 1 else 0
  {
    hide Epoch;
    var x := 2820 * n + 768 * m + i;
    assert LeapDays(1) == 0;
    if 768 * m + i == 2820 {
      DivModUnique(x, 2820, n + 1, 0);
    } else {
      DivModUnique(x, 2820, n, 768 * m + i);
      if i == 768 {
        DivModUnique(768 * m + i, 768, m + 1, 0);
      } else {
        DivModUnique(768 * m + i, 768, m, i);
      }
    }
  }

  /** Every day lies in the year the formula names; 1029617 is the one day the division puts too late. */
  lemma YearIndexFound(d0: int)
    ensures YearStart(YearIndex(d0)) <= d0 + YearStart(1) < YearStart(YearIndex(d0) + 1)
  {
    hide YearStart;
    var n, d1 := d0 / 1029983, d0 % 1029983;
    var m, d2 := d1 / 280506, d1 % 280506;
    var e := 2820 * (d2 + 366) / 1029983;
    assert 1 <= e <= 768;
    assert m == 3 ==> d2 <= 188464;
    BlockYear(d2, e);
    var i := if d1 == 1029617 then e - 1 else e;
    if d1 == 1029617 {
      assert m == 3 && d2 == 188099;
      assert e == 516;
    }
    YearStartInCycle(n, m, i);
    if 768 * m + i == 2820 {
      YearStartInCycle(n + 1, 0, 1);
    } else if i == 768 {
      YearStartInCycle(n, m + 1, 1);
    } else {
      YearStartInCycle(n, m, i + 1);
    }
  }

  lemma {:induction false} YearStartsIncrease(x: int, y: int)
    requires x <= y
    ensures YearStart(y) >= YearStart(x) + 365 * (y - x)
    decreases y - x
  {
    hide YearStart;
    if x < y {
      YearStartsIncrease(x, y - 1);
      YearStartStep(if y - 1 <= 2345 then y - 1 - 2346 else y - 1 - 2345);
    }
  }

  lemma YearOfDay(f: int)
    ensures var year := YearFromFixed(f);
            && year != 0
            && YearStart(Index(year)) <= f < YearStart(Index(year) + 1)
  {
    hide YearStart, YearIndex, Fixed;
    FixedFromYearStart(PersianDate(-2345, 1, 1));
    YearIndexFound(f - Fixed(PersianDate(-2345, 1, 1)));
  }

  lemma DateWithinYear(d: PersianDate)
    requires IsDate(d)
    ensures YearStart(Index(d.year)) <= Fixed(d) < YearStart(Index(d.year) + 1)
  {
    hide YearStart, IsLeap, Fixed, DaysBeforeMonth;
    FixedFromYearStart(d);
    DaysBeforeMonthTable(d.year, d.month);
    YearStartStep(d.year);
  }

  /** Two dates on the same day are the same date. */
  lemma FixedInjective(g: PersianDate, h: PersianDate)
    requires IsDate(g) && IsDate(h) && Fixed(g) == Fixed(h)
    ensures g == h
  {
    hide YearStart, IsLeap, Fixed, DaysBeforeMonth;
    DateWithinYear(g);
    DateWithinYear(h);
    if Index(g.year) < Index(h.year) {
      YearStartsIncrease(Index(g.year) + 1, Index(h.year));
    } else if Index(h.year) < Index(g.year) {
      YearStartsIncrease(Index(h.year) + 1, Index(g.year));
    }
    FixedFromYearStart(g);
    FixedFromYearStart(h);
    DaysBeforeMonthTable(g.year, g.month);
    DaysBeforeMonthTable(h.year, h.month);
  }

  // --- The conversions -----------------------------------------------------------------------------

  /** R.D. day of a Persian date, by accumulating month lengths. */
  method FixedFromPersian(d: PersianDate) returns (f: int)
    ensures f == Fixed(d)
    decreases d.year < 0
  {
    if d.year < 0 {
      f := FixedFromPersian(PersianDate(1 + d.year % 2820, d.month, d.day));
      f := f + 1029983 * (d.year / 2820);
      return;
    }
    var prior: int := 0;
    var m: nat := 1;
    while m < d.month
      invariant 1 <= m && (m <= d.month || m == 1)
      invariant prior == DaysBeforeMonth(d.year, m)
    {
      prior := prior + LastDayOfMonth(m, d.year);
      m := m + 1;
    }
    f := Epoch() - 1 + 365 * (d.year - 1) + LeapDays(d.year + 2345) - 568 + prior + d.day;
  }

  /** The only Persian date of any day, before or after the epoch. */
  method FromFixed(f: int) returns (d: PersianDate)
    ensures IsDate(d) && Fixed(d) == f
    ensures forall g :: IsDate(g) && Fixed(g) == f ==> g == d
  {
    hide YearStart, IsLeap, Fixed, DaysBeforeMonth, LastDayOfMonth, YearFromFixed;
    YearOfDay(f);
    var year := YearFromFixed(f);
    FirstOfYear(year);
    var month: nat := 1;
    var end := FixedFromPersian(PersianDate(year, month, LastDayOfMonth(month, year)));
    while f > end
      invariant 1 <= month <= 12
      invariant Fixed(PersianDate(year, month, 1)) <= f
      invariant end == Fixed(PersianDate(year, month, LastDayOfMonth(month, year)))
      decreases 12 - month
    {
      MonthEnds(year, month);
      month := month + 1;
      end := FixedFromPersian(PersianDate(year, month, LastDayOfMonth(month, year)));
    }
    var first := FixedFromPersian(PersianDate(year, month, 1));
    DayOfMonth(year, month, LastDayOfMonth(month, year));
    var day := f - first + 1;
    DayOfMonth(year, month, day);
    d := PersianDate(year, month, day);
    OnlyDate(d);
  }

  lemma FirstOfYear(year: int)
    requires year != 0
    ensures Fixed(PersianDate(year, 1, 1)) == YearStart(Index(year))
  {
    hide YearStart, Fixed;
    FixedFromYearStart(PersianDate(year, 1, 1));
  }

  lemma DayOfMonth(year: int, month: nat, day: nat)
    requires year != 0 && 1 <= month <= 12
    ensures Fixed(PersianDate(year, month, day)) == Fixed(PersianDate(year, month, 1)) + day - 1
  {
    hide YearStart, Fixed, DaysBeforeMonth;
    FixedFromYearStart(PersianDate(year, month, 1));
    FixedFromYearStart(PersianDate(year, month, day));
  }

  lemma MonthEnds(year: int, month: nat)
    requires year != 0 && 1 <= month <= 12
    ensures var end := Fixed(PersianDate(year, month, LastDayOfMonth(month, year)));
            if month == 12 then end + 1 == YearStart(Index(year) + 1)
            else end + 1 == Fixed(PersianDate(year, month + 1, 1))
  {
    hide YearStart, Fixed, IsLeap, DaysBeforeMonth;
    FixedFromYearStart(PersianDate(year, month, LastDayOfMonth(month, year)));
    DaysBeforeMonthTable(year, month);
    YearStartStep(year);
    if month < 12 {
      FixedFromYearStart(PersianDate(year, month + 1, 1));
      DaysBeforeMonthTable(year, month + 1);
    }
  }

  lemma OnlyDate(h: PersianDate)
    requires IsDate(h)
    ensures forall g :: IsDate(g) && Fixed(g) == Fixed(h) ==> g == h
  {
    hide Fixed, IsDate;
    forall g | IsDate(g) && Fixed(g) == Fixed(h)
      ensures g == h
    {
      FixedInjective(g, h);
    }
  }

  /** Six months of 31 days, then months of 30; a leap year ends with its thirtieth day of the twelfth. */
  lemma MonthStarts(year: int, month: nat)
    requires year != 0 && 1 <= month <= 12
    ensures Fixed(PersianDate(year, month, 1)) == Fixed(PersianDate(year, 1, 1))
                                                  + if month <= 7 then 31 * (month - 1) else 186 + 30 * (month - 7)
    ensures Fixed(PersianDate(if year == -1 then 1 else year + 1, 1, 1))
         == Fixed(PersianDate(year, 12, 1)) + if IsLeap(year) then 30 else 29
  {
    hide LeapDays, IsLeap, Epoch, Fixed, YearStart;
    FixedFromYearStart(PersianDate(year, month, 1));
    FixedFromYearStart(PersianDate(year, 12, 1));
    FirstOfYear(year);
    FirstOfYear(if year == -1 then 1 else year + 1);
    DaysBeforeMonthTable(year, month);
    DaysBeforeMonthTable(year, 12);
    YearStartStep(year);
  }
}
