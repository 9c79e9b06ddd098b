/** The Coptic and Ethiopic calendars: twelve months of 30 days and a short thirteenth, from two epochs. */
module Coptic {
  import opened Arithmetic

  datatype CopticDate = CopticDate(year: int, month: nat, day: nat)

  const COPTIC_EPOCH := 103605
  const ETHIOPIC_EPOCH := 2796

  function DaysBeforeYear(year: int): int {
    365 * (year - 1) + year / 4
  }

  /** R.D. day of a date, for a calendar that starts at `epoch`. */
  function Fixed(epoch: int, d: CopticDate): int {
    epoch - 1 + DaysBeforeYear(d.year) + 30 * (d.month - 1) + d.day
  }

  function YearFromFixed(epoch: int, f: int): int {
    (4 * (f - epoch) + 1463) / 1461
  }

  /** The date of an R.D. day. */
  function FromFixed(epoch: int, f: int): (d: CopticDate)
    ensures IsDate(d) && Fixed(epoch, d) == f
  {
    hide YearFromFixed, DaysBeforeYear, IsLeap;
    YearFound(epoch, f);
    var year := YearFromFixed(epoch, f);
    var month := 1 + (f - Fixed(epoch, CopticDate(year, 1, 1))) / 30;
    var day := f + 1 - Fixed(epoch, CopticDate(year, month, 1));
    CopticDate(year, month, day)
  }

  /** The year before each fourth one has a sixth day in its last month. */
  predicate IsLeap(year: int) {
    year % 4 == 3
  }

  predicate IsDate(d: CopticDate) {
    && 1 <= d.month <= 13
    && 1 <= d.day <= if d.month < 13 then 30 else if IsLeap(d.year) then 6 else 5
  }

  lemma YearFound(epoch: int, f: int)
    ensures var year := YearFromFixed(epoch, f);
            0 <= f - epoch - DaysBeforeYear(year) < if IsLeap(year) then 366 else 365
  {
    var year := YearFromFixed(epoch, f);
    var a, b := year / 4, year % 4;
  }

  /** A day of the year stays in the year the formula names. */
  lemma YearExact(epoch: int, year: int, dayOfYear: int)
    requires 0 <= dayOfYear < if IsLeap(year) then 366 else 365
    ensures YearFromFixed(epoch, epoch + DaysBeforeYear(year) + dayOfYear) == year
  {
    var a, b := year / 4, year % 4;
    var e := 4 * dayOfYear + 3 - b;
    assert 4 * (DaysBeforeYear(year) + dayOfYear) + 1463 == 1461 * year + e;
    DivModUnique(1461 * year + e, 1461, year, e);
  }

  /** The inverse is exact: every date is the date of its own day, whatever the epoch. */
  lemma RoundTrip(epoch: int, d: CopticDate)
    requires IsDate(d)
    ensures FromFixed(epoch, Fixed(epoch, d)) == d
  {
    hide YearFromFixed, DaysBeforeYear, IsLeap;
    YearExact(epoch, d.year, 30 * (d.month - 1) + d.day - 1);
  }

  function Next(d: CopticDate): CopticDate {
    if IsDate(d.(day := d.day + 1)) then d.(day := d.day + 1)
    else if d.month < 13 then CopticDate(d.year, d.month + 1, 1)
    else CopticDate(d.year + 1, 1, 1)
  }

  /** The closed form steps with the leap rule and the month lengths. */
  lemma FixedOfNext(epoch: int, d: CopticDate)
    requires IsDate(d)
    ensures IsDate(Next(d)) && Fixed(epoch, Next(d)) == Fixed(epoch, d) + 1
  {
  }

  /** The two calendars name the same days 276 years apart. */
  lemma EthiopicIsCoptic(d: CopticDate)
    ensures Fixed(ETHIOPIC_EPOCH, d.(year := d.year + 276)) == Fixed(COPTIC_EPOCH, d)
  {
    DivModUnique(d.year + 276, 4, d.year / 4 + 69, d.year % 4);
  }
}
