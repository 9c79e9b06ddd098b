/** The arithmetic Islamic calendar. */
module Islamic {
  import opened Wrappers
  import opened Arithmetic
  import Julian

  datatype IslamicDate = IslamicDate(year: int, month: nat, day: nat)

  /** R.D. day of the epoch, 16 July 622 of the Julian calendar. */
  function Epoch(): int {
    Julian.Fixed(Julian.JulianDate(622, 7, 16))
  }

  /** Eleven leap years in a cycle of thirty. */
  predicate IsLeap(year: int) {
    year % 30 in {2, 5, 7, 10, 13, 16, 18, 21, 24, 26, 29}
  }

  function LastDayOfMonth(month: nat, year: int): nat {
    if month % 2 == 1 || (month == 12 && IsLeap(year)) then 30 else 29
  }

  /** Days of the year up to a day of a month. */
  function DayNumber(month: nat, day: nat): int {
    29 * (month - 1) + month / 2 + day
  }

  /** Leap days before a year, as one division. */
  function LeapDaysBefore(year: int): int {
    TruncDiv(3 + 11 * year, 30)
  }

  /** R.D. day of an Islamic date. */
  function Fixed(d: IslamicDate): int {
    DayNumber(d.month, d.day) + (d.year - 1) * 354 + LeapDaysBefore(d.year) + Epoch() - 1
  }

  predicate IsDate(d: IslamicDate) {
    d.year >= 1 && 1 <= d.month <= 12 && 1 <= d.day <= LastDayOfMonth(d.month, d.year)
  }

  function NewYear(year: int): int {
    (year - 1) * 354 + LeapDaysBefore(year) + Epoch()
  }

  /** The division counts exactly the years the leap rule names. */
  lemma LeapDaysStep(year: int)
    requires year >= 0
    ensures LeapDaysBefore(year + 1) == LeapDaysBefore(year) + if IsLeap(year) then 1 else 0
    ensures LeapDaysBefore(1) == 0
  {
    var q, r := year / 30, year % 30;
    var a, b := (3 + 11 * r) / 30, (3 + 11 * r) % 30;
    DivModUnique(3 + 11 * year, 30, 11 * q + a, b);
    var c, e := (14 + 11 * r) / 30, (14 + 11 * r) % 30;
    DivModUnique(14 + 11 * year, 30, 11 * q + c, e);
  }

  /** Months follow one another within the year, and twelve of them fill it. */
  lemma DateWithinYear(d: IslamicDate)
    requires IsDate(d)
    ensures NewYear(d.year) <= Fixed(d) < NewYear(d.year + 1)
  {
    hide LeapDaysBefore, Epoch, IsLeap;
    LeapDaysStep(d.year);
  }

  lemma MonthEnds(year: int, month: nat)
    requires year >= 1 && 1 <= month <= 12
    ensures var end := Fixed(IslamicDate(year, month, LastDayOfMonth(month, year)));
            if month == 12 then end + 1 == NewYear(year + 1)
            else end + 1 == Fixed(IslamicDate(year, month + 1, 1))
  {
    hide LeapDaysBefore, Epoch, IsLeap;
    LeapDaysStep(year);
  }

  lemma {:induction false} NewYearsIncrease(a: int, b: int)
    requires 1 <= a <= b
    ensures NewYear(b) >= NewYear(a) + 354 * (b - a)
    decreases b - a
  {
    hide LeapDaysBefore, Epoch;
    if a < b {
      NewYearsIncrease(a, b - 1);
      LeapDaysStep(b - 1);
    }
  }

  lemma MonthsInOrder(g: IslamicDate, h: IslamicDate)
    requires IsDate(g) && IsDate(h) && g.year == h.year && g.month < h.month
    ensures Fixed(g) < Fixed(h)
  {
    hide LeapDaysBefore, Epoch, IsLeap;
  }

  /** Two dates on the same day are the same date. */
  lemma FixedInjective(g: IslamicDate, h: IslamicDate)
    requires IsDate(g) && IsDate(h) && Fixed(g) == Fixed(h)
    ensures g == h
  {
    hide NewYear, LeapDaysBefore, Epoch, LastDayOfMonth;
    DateWithinYear(g);
    DateWithinYear(h);
    if g.year < h.year {
      NewYearsIncrease(g.year + 1, h.year);
    } else if h.year < g.year {
      NewYearsIncrease(h.year + 1, g.year);
    } else if g.month < h.month {
      MonthsInOrder(g, h);
    } else if h.month < g.month {
      MonthsInOrder(h, g);
    }
  }

  /** The only date of a day from the epoch on; no date before it. The search starts from a low estimate. */
  method FromFixed(f: int) returns (d: Option<IslamicDate>)
    ensures d.Some? <==> f >= Epoch()
    ensures d.Some? ==> IsDate(d.value) && Fixed(d.value) == f
    ensures forall g :: IsDate(g) && Fixed(g) == f ==> d == Some(g)
  {
    hide LeapDaysBefore, Epoch, LastDayOfMonth, Fixed, NewYear;
    if f < Epoch() {
      NoDateBefore(f);
      return None;
    }
    FirstOfYear(1);
    var year := (f - Epoch()) / 355;
    EstimateIsLow(year);
    FirstOfYear(year + 1);
    while f >= Fixed(IslamicDate(year + 1, 1, 1))
      invariant year >= 0 && (year >= 1 ==> NewYear(year) <= f)
      invariant Fixed(IslamicDate(year + 1, 1, 1)) == NewYear(year + 1)
      decreases f - Epoch() - year
    {
      NewYearsIncrease(1, year + 1);
      year := year + 1;
      FirstOfYear(year + 1);
    }
    FirstOfYear(year);
    var month: nat := 1;
    while f > Fixed(IslamicDate(year, month, LastDayOfMonth(month, year)))
      invariant 1 <= month <= 12
      invariant Fixed(IslamicDate(year, month, 1)) <= f
      decreases 12 - month
    {
      MonthEnds(year, month);
      month := month + 1;
    }
    DayOfMonth(year, month, LastDayOfMonth(month, year));
    var day := f - Fixed(IslamicDate(year, month, 1)) + 1;
    DayOfMonth(year, month, day);
    d := Some(IslamicDate(year, month, day));
    OnlyDate(d.value);
  }

  lemma FirstOfYear(year: int)
    ensures Fixed(IslamicDate(year, 1, 1)) == NewYear(year)
    ensures NewYear(1) == Epoch()
  {
    hide Epoch, LeapDaysBefore, IsLeap, DayNumber;
    FirstDay();
  }

  lemma FirstDay()
    ensures DayNumber(1, 1) == 1 && LeapDaysBefore(1) == 0
  {
    DivModUnique(14, 30, 0, 14);
  }

  lemma DayOfMonth(year: int, month: nat, day: nat)
    ensures Fixed(IslamicDate(year, month, day)) == Fixed(IslamicDate(year, month, 1)) + day - 1
  {
  }

  lemma EstimateIsLow(year: int)
    requires year >= 0
    ensures NewYear(year) <= Epoch() + 355 * year
  {
    hide Epoch;
  }

  lemma NoDateBefore(f: int)
    requires f < Epoch()
    ensures forall g :: IsDate(g) ==> Fixed(g) != f
  {
    hide Fixed, Epoch;
    forall g | IsDate(g)
      ensures Fixed(g) != f
    {
      DateWithinYear(g);
      NewYearsIncrease(1, g.year);
      LeapDaysStep(1);
    }
  }

  lemma OnlyDate(h: IslamicDate)
    requires IsDate(h)
    ensures forall g :: IsDate(g) && Fixed(g) == Fixed(h) ==> g == h
  {
    hide Fixed, IsDate;
    forall g | IsDate(g) && Fixed(g) == Fixed(h)
      ensures g == h
    {
      FixedInjective(g, h);
    }
  }

  /** Months of 30 and 29 days take turns from the New Year on, and a leap year has a day more at its end. */
  lemma MonthStarts(year: int, month: nat)
    requires year >= 1 && 1 <= month <= 12
    ensures Fixed(IslamicDate(year, month, 1)) == NewYear(year) + (59 * (month - 1) + 1) / 2
    ensures NewYear(year + 1) == NewYear(year) + 354 + if IsLeap(year) then 1 else 0
  {
    LeapDaysStep(year);
    hide LeapDaysBefore, Epoch, IsLeap;
    assert 29 * (month - 1) + month / 2 == (59 * (month - 1) + 1) / 2;
  }
}
