/** The arithmetic French Revolutionary calendar: five leap years by decree, then a rule. */
module French {
  import opened Wrappers
  import opened Arithmetic
  import Gregorian

  /** Month 13 is the five or six days at the end of the year. */
  datatype FrenchDate = FrenchDate(year: int, month: nat, day: nat)

  /** R.D. day of the epoch, 22 September 1792. */
  function Epoch(): int {
    Gregorian.Rd(Gregorian.Date(1792, 9, 22))
  }

  predicate IsLeap(year: int) {
    || year in {3, 7, 11, 15, 20}
    || (year > 20 && year % 4 == 0 && year % 400 !in {100, 200, 300} && year % 4000 != 0)
  }

  function LastDayOfMonth(month: nat, year: int): nat {
    if month < 13 then 30 else if IsLeap(year) then 6 else 5
  }

  /** Leap days before a year, in closed form. */
  function LeapDaysBefore(year: int): int {
    if year < 20 then TruncDiv(year, 4)
    else (year - 1) / 4 - (year - 1) / 100 + (year - 1) / 400 - (year - 1) / 4000
  }

  function NewYear(year: int): int {
    365 * (year - 1) + LeapDaysBefore(year) + Epoch()
  }

  /** R.D. day of a French date. */
  function Fixed(d: FrenchDate): int {
    365 * (d.year - 1) + LeapDaysBefore(d.year) + 30 * (d.month - 1) + d.day + Epoch() - 1
  }

  predicate IsDate(d: FrenchDate) {
    d.year >= 1 && 1 <= d.month <= 13 && 1 <= d.day <= LastDayOfMonth(d.month, d.year)
  }

  /** The closed form counts exactly the years the leap rule names, on both sides of year 20. */
  lemma LeapDaysStep(year: int)
    requires year >= 1
    ensures LeapDaysBefore(year + 1) == LeapDaysBefore(year) + if IsLeap(year) then 1 else 0
    ensures LeapDaysBefore(1) == 0
  {
    if year >= 20 {
      QuotientStep(year, 4);
      QuotientStep(year, 100);
      QuotientStep(year, 400);
      QuotientStep(year, 4000);
      Centuries(year);
    }
  }

  lemma QuotientStep(n: int, k: int)
    requires n >= 1 && k > 1
    ensures n / k == (n - 1) / k + if n % k == 0 then 1 else 0
  {
    var q, r := n / k, n % k;
    if r == 0 {
      assert n - 1 == k * (q - 1) + (k - 1);
      DivModUnique(n - 1, k, q - 1, k - 1);
    } else {
      DivModUnique(n - 1, k, q, r - 1);
    }
  }

  lemma Centuries(year: int)
    ensures year % 100 == 0 <==> year % 400 in {0, 100, 200, 300}
    ensures year % 100 == 0 ==> year % 4 == 0
    ensures year % 400 == 0 ==> year % 100 == 0
    ensures year % 4000 == 0 ==> year % 400 == 0
  {
    var q, r := year / 400, year % 400;
    DivModUnique(year, 100, 4 * q + r / 100, r % 100);
    DivModUnique(year, 4, 100 * q + r / 4, r % 4);
    var k, s := year / 4000, year % 4000;
    DivModUnique(year, 400, 10 * k + s / 400, s % 400);
  }

  lemma FirstOfYear(year: int)
    ensures Fixed(FrenchDate(year, 1, 1)) == NewYear(year)
    ensures NewYear(1) == Epoch()
  {
    hide Epoch;
  }

  lemma DateWithinYear(d: FrenchDate)
    requires IsDate(d)
    ensures NewYear(d.year) <= Fixed(d) < NewYear(d.year + 1)
  {
    hide LeapDaysBefore, Epoch, IsLeap;
    LeapDaysStep(d.year);
  }

  lemma MonthEnds(year: int, month: nat)
    requires year >= 1 && 1 <= month <= 13
    ensures var end := Fixed(FrenchDate(year, month, LastDayOfMonth(month, year)));
            if month == 13 then end + 1 == NewYear(year + 1)
            else end + 1 == Fixed(FrenchDate(year, month + 1, 1))
  {
    hide LeapDaysBefore, Epoch, IsLeap;
    LeapDaysStep(year);
  }

  lemma {:induction false} NewYearsIncrease(a: int, b: int)
    requires 1 <= a <= b
    ensures NewYear(b) >= NewYear(a) + 365 * (b - a)
    decreases b - a
  {
    hide LeapDaysBefore, Epoch;
    if a < b {
      NewYearsIncrease(a, b - 1);
      LeapDaysStep(b - 1);
    }
  }

  /** Two dates on the same day are the same date. */
  lemma FixedInjective(g: FrenchDate, h: FrenchDate)
    requires IsDate(g) && IsDate(h) && Fixed(g) == Fixed(h)
    ensures g == h
  {
    hide LeapDaysBefore, Epoch, IsLeap, NewYear;
    DateWithinYear(g);
    DateWithinYear(h);
    if g.year < h.year {
      NewYearsIncrease(g.year + 1, h.year);
    } else if h.year < g.year {
      NewYearsIncrease(h.year + 1, g.year);
    }
  }

  /** The only date of a day from the epoch on; no date before it. The search starts from a low estimate. */
  method FromFixed(f: int) returns (d: Option<FrenchDate>)
    ensures d.Some? <==> f >= Epoch()
    ensures d.Some? ==> IsDate(d.value) && Fixed(d.value) == f
    ensures forall g :: IsDate(g) && Fixed(g) == f ==> d == Some(g)
  {
    hide LeapDaysBefore, Epoch, LastDayOfMonth, Fixed, NewYear;
    if f < Epoch() {
      NoDateBefore(f);
      return None;
    }
    FirstOfYear(1);
    var year := (f - Epoch()) / 366;
    EstimateIsLow(year);
    FirstOfYear(year + 1);
    while f >= Fixed(FrenchDate(year + 1, 1, 1))
      invariant year >= 0 && (year >= 1 ==> NewYear(year) <= f)
      invariant Fixed(FrenchDate(year + 1, 1, 1)) == NewYear(year + 1)
      decreases f - Epoch() - year
    {
      NewYearsIncrease(1, year + 1);
      year := year + 1;
      FirstOfYear(year + 1);
    }
    FirstOfYear(year);
    var month: nat := 1;
    while f > Fixed(FrenchDate(year, month, LastDayOfMonth(month, year)))
      invariant 1 <= month <= 13
      invariant Fixed(FrenchDate(year, month, 1)) <= f
      decreases 13 - month
    {
      MonthEnds(year, month);
      month := month + 1;
    }
    DayOfMonth(year, month, LastDayOfMonth(month, year));
    var day := f - Fixed(FrenchDate(year, month, 1)) + 1;
    DayOfMonth(year, month, day);
    d := Some(FrenchDate(year, month, day));
    OnlyDate(d.value);
  }

  lemma DayOfMonth(year: int, month: nat, day: nat)
    ensures Fixed(FrenchDate(year, month, day)) == Fixed(FrenchDate(year, month, 1)) + day - 1
  {
    hide LeapDaysBefore, Epoch;
  }

  lemma EstimateIsLow(year: int)
    requires year >= 0
    ensures year >= 1 ==> NewYear(year) <= Epoch() + 366 * year
  {
    hide Epoch;
  }

  lemma NoDateBefore(f: int)
    requires f < Epoch()
    ensures forall g :: IsDate(g) ==> Fixed(g) != f
  {
    hide Fixed, Epoch, NewYear;
    forall g | IsDate(g)
      ensures Fixed(g) != f
    {
      DateWithinYear(g);
      NewYearsIncrease(1, g.year);
      FirstOfYear(1);
    }
  }

  lemma OnlyDate(h: FrenchDate)
    requires IsDate(h)
    ensures forall g :: IsDate(g) && Fixed(g) == Fixed(h) ==> g == h
  {
    hide Fixed, IsDate;
    forall g | IsDate(g) && Fixed(g) == Fixed(h)
      ensures g == h
    {
      FixedInjective(g, h);
    }
  }

  /** Twelve months of 30 days, and what is left of the year. */
  lemma MonthStarts(year: int, month: nat)
    requires year >= 1 && 1 <= month <= 13
    ensures Fixed(FrenchDate(year, month, 1)) == NewYear(year) + 30 * (month - 1)
    ensures NewYear(year + 1) == NewYear(year) + if IsLeap(year) then 366 else 365
  {
    LeapDaysStep(year);
    FirstOfYear(year);
    hide LeapDaysBefore, IsLeap, Epoch;
  }
}
