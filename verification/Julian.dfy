/** The Julian calendar, whose years run ..., -2, -1, 1, 2, ... without a year 0. */
module Julian {
  import opened Arithmetic

  datatype JulianDate = JulianDate(year: int, month: nat, day: nat)

  const EPOCH := -1

  /** Every fourth year; before year 1 the rule is shifted by the missing year 0. */
  predicate IsLeap(year: int) {
    year % 4 == if year > 0 then 0 else 3
  }

  /** R.D. day before the first of a year. */
  function DaysBeforeYear(year: int): int {
    var y := if year < 0 then year + 1 else year;
    EPOCH - 1 + 365 * (y - 1) + (y - 1) / 4
  }

  /** R.D. day of a Julian date. */
  function Fixed(d: JulianDate): int {
    DaysBeforeYear(d.year) + Staircase(d.month)
    + (if d.month <= 2 then 0 else if IsLeap(d.year) then -1 else -2) + d.day
  }

  /** Days before a month in a year whose February has 30 days. */
  function Staircase(month: int): int {
    (367 * month - 362) / 12
  }

  function YearFromFixed(f: int): int {
    var approx := (4 * (f - EPOCH) + 1464) / 1461;
    if approx <= 0 then approx - 1 else approx
  }

  function MonthOf(days: int): int {
    (12 * days + 373) / 367
  }

  /** The Julian date of an R.D. day. */
  function FromFixed(f: int): (d: JulianDate)
    ensures IsDate(d) && Fixed(d) == f
  {
    hide YearFromFixed, MonthOf, Staircase, IsLeap, DaysInMonth, DaysBeforeYear;
    var year := YearFromFixed(f);
    var prior := f - Fixed(JulianDate(year, 1, 1));
    YearFound(f);
    var correction := if f < Fixed(JulianDate(year, 3, 1)) then 0 else if IsLeap(year) then 1 else 2;
    FixedByStaircase(year, prior);
    StaircaseInverse(prior + correction, MonthOf(prior + correction));
    var month := MonthOf(prior + correction);
    MonthFits(year, prior + correction, month);
    var day := f - Fixed(JulianDate(year, month, 1)) + 1;
    JulianDate(year, month, day)
  }

  // --- The calendar as the leap rule and the month table describe it -------------------------------

  function DaysInMonth(year: int, month: nat): nat {
    match month
    case 1 | 3 | 5 | 7 | 8 | 10 | 12 => 31
    case 4 | 6 | 9 | 11 => 30
    case _ => if IsLeap(year) then 29 else 28
  }

  predicate IsDate(d: JulianDate) {
    d.year != 0 && 1 <= d.month <= 12 && 1 <= d.day <= DaysInMonth(d.year, d.month)
  }

  function YearAfter(year: int): int {
    if year == -1 then 1 else year + 1
  }

  function Next(d: JulianDate): JulianDate {
    if d.day < DaysInMonth(d.year, d.month) then JulianDate(d.year, d.month, d.day + 1)
    else if d.month < 12 then JulianDate(d.year, d.month + 1, 1)
    else JulianDate(YearAfter(d.year), 1, 1)
  }

  /** The closed form steps with the simple calendar, across the missing year 0 too. */
  lemma FixedOfNext(d: JulianDate)
    requires IsDate(d)
    ensures IsDate(Next(d)) && Fixed(Next(d)) == Fixed(d) + 1
  {
    hide DaysBeforeYear, IsLeap;
    YearStep(d.year);
  }

  lemma YearStep(year: int)
    requires year != 0
    ensures DaysBeforeYear(YearAfter(year)) == DaysBeforeYear(year) + if IsLeap(year) then 366 else 365
  {
  }

  /** The inverse is exact: every date is the date of its own day. */
  lemma RoundTrip(d: JulianDate)
    requires IsDate(d)
    ensures FromFixed(Fixed(d)) == d
  {
    hide YearFromFixed, MonthOf, Staircase;
    var f := Fixed(d);
    YearOfDate(d);
    var e := FromFixed(f);
    var days := Staircase(d.month) + d.day - 1;
    MonthEnds(d);
    DayOfYearRange(d);
    StaircaseInverse(days, d.month);
    FixedByStaircase(d.year, f - Fixed(JulianDate(d.year, 1, 1)));
  }

  /** The estimate names the year a date is in. */
  lemma YearOfDate(d: JulianDate)
    requires IsDate(d)
    ensures YearFromFixed(Fixed(d)) == d.year
  {
    var y := if d.year < 0 then d.year + 1 else d.year;
    var a, b := (y - 1) / 4, (y - 1) % 4;
    var doy := Fixed(d) - Fixed(JulianDate(d.year, 1, 1));
    DayOfYearRange(d);
    var e := 1460 * b + 4 * doy + 1464;
    assert 4 * (Fixed(d) - EPOCH) + 1464 == 1461 * (4 * a + b + 1) + e - 1461 * (b + 1);
    DivModUnique(4 * (Fixed(d) - EPOCH) + 1464, 1461, 4 * a + b + 1, e - 1461 * (b + 1));
  }

  lemma DayOfYearRange(d: JulianDate)
    requires IsDate(d)
    ensures 0 <= Fixed(d) - Fixed(JulianDate(d.year, 1, 1)) < if IsLeap(d.year) then 366 else 365
  {
  }

  lemma YearFound(f: int)
    ensures var year := YearFromFixed(f);
            year != 0 && 0 <= f - Fixed(JulianDate(year, 1, 1)) < if IsLeap(year) then 366 else 365
  {
    var n := 4 * (f - EPOCH) + 1464;
    var approx := n / 1461;
    var a, b := (approx - 1) / 4, (approx - 1) % 4;
  }

  /** The month formula inverts the staircase. */
  lemma StaircaseInverse(days: int, month: int)
    ensures MonthOf(days) == month <==> Staircase(month) <= days < Staircase(month + 1)
  {
  }

  /** The correction restores the missing days of February. */
  lemma FixedByStaircase(year: int, prior: int)
    requires 0 <= prior < if IsLeap(year) then 366 else 365
    ensures var start := Fixed(JulianDate(year, 1, 1));
            var march := Fixed(JulianDate(year, 3, 1));
            && march == start + (if IsLeap(year) then 60 else 59)
            && Staircase(1) == 0
  {
    hide IsLeap, DaysBeforeYear;
  }

  lemma MonthFits(year: int, days: int, month: int)
    requires Staircase(month) <= days < Staircase(month + 1) && 0 <= days < 367
    requires days < 61 ==> days < if IsLeap(year) then 60 else 59
    ensures 1 <= month <= 12 && days - Staircase(month) < DaysInMonth(year, month)
    ensures month <= 2 <==> days < 61
  {
    hide IsLeap;
  }

  lemma MonthEnds(d: JulianDate)
    requires IsDate(d)
    ensures Staircase(1) == 0 && Staircase(3) == 61
    ensures Staircase(d.month) + d.day - 1 < Staircase(d.month + 1)
    ensures if d.month <= 2 then Staircase(d.month) + d.day - 1 < if IsLeap(d.year) then 60 else 59
            else Staircase(d.month) >= 61
  {
    hide IsLeap;
  }
}
