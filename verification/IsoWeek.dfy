/** ISO week dates: one direction works from the week's Thursday, the other from January 4. */
module IsoWeek {
  import opened Arithmetic
  import opened Gregorian

  datatype WeekDate = WeekDate(year: int, week: int, weekday: int)

  function AddDays(d: Date, n: int): Date {
    FromSerial(ToSerial(d) + n)
  }

  /** Monday is 1 and Sunday is 7. */
  function IsoWeekday(d: Date): int {
    (Weekday(d) + 6) % 7 + 1
  }

  function OfDate(d: Date): WeekDate {
    var weekday := IsoWeekday(d);
    var thursday := AddDays(d, 4 - weekday);
    var jan1 := Date(thursday.year, 1, 1);
    WeekDate(thursday.year, TruncDiv(ToSerial(thursday) - ToSerial(jan1), 7) + 1, weekday)
  }

  function ToDate(w: WeekDate): (d: Date)
    ensures IsDate(d)
  {
    var jan4 := Date(w.year, 1, 4);
    var week1Monday := ToSerial(jan4) - (IsoWeekday(jan4) - 1);
    FromSerial(week1Monday + (w.week - 1) * 7 + (w.weekday - 1))
  }

  /** A year has 53 weeks when it starts on a Thursday, or is leap and starts on a Wednesday. */
  function WeeksInYear(year: int): int {
    var start := IsoWeekday(Date(year, 1, 1));
    if start == 4 || (start == 3 && IsLeap(year)) then 53 else 52
  }

  /** A week date that names a day. */
  predicate IsWeekDate(w: WeekDate) {
    1 <= w.week <= WeeksInYear(w.year) && 1 <= w.weekday <= 7
  }

  lemma IsoWeekdayOfSerial(d: Date)
    ensures IsoWeekday(d) == (ToSerial(d) + 3) % 7 + 1
  {
    hide ToSerial;
    WeekdayModulus(ToSerial(d));
    Sunday6(ToSerial(d));
  }

  lemma Sunday6(serial: int)
    ensures ((serial + 4) % 7 + 6) % 7 == (serial + 3) % 7
  {
  }

  /** Serial day of the Thursday of week 1: the first Thursday of the year. */
  function FirstThursday(year: int): int {
    var jan1 := ToSerial(Date(year, 1, 1));
    jan1 + (7 - jan1 % 7) % 7
  }

  /** The date computed from January 4 is counted from the year's first Thursday. */
  lemma SerialOfWeekDate(w: WeekDate)
    ensures ToSerial(ToDate(w)) == FirstThursday(w.year) + 7 * (w.week - 1) + w.weekday - 4
  {
    hide ToSerial, FromSerial, IsoWeekday;
    var jan1, jan4 := Date(w.year, 1, 1), Date(w.year, 1, 4);
    SerialFromMarch(jan1);
    SerialFromMarch(jan4);
    IsoWeekdayOfSerial(jan4);
    ThursdayFromFourth(ToSerial(jan1));
    SerialRoundTrip(ToSerial(jan4) - (IsoWeekday(jan4) - 1) + (w.week - 1) * 7 + (w.weekday - 1));
  }

  lemma ThursdayFromFourth(jan1: int)
    ensures jan1 + 3 - (jan1 + 6) % 7 + 3 == jan1 + (7 - jan1 % 7) % 7
  {
  }

  /** The first Thursday and the number of weeks between them decide which Thursdays are in the year. */
  lemma ThursdaysOfYear(year: int, k: int)
    ensures ToSerial(Date(year, 1, 1)) <= FirstThursday(year) + 7 * k < ToSerial(Date(year + 1, 1, 1))
            <==> 0 <= k < WeeksInYear(year)
  {
    hide ToSerial, IsoWeekday, IsLeap;
    var jan1 := Date(year, 1, 1);
    SerialWithinYear(jan1);
    IsoWeekdayOfSerial(jan1);
  }

  /** The parts of the week date of a day, read off the Thursday of its week. */
  lemma OfDateByThursday(d: Date, w: WeekDate)
    requires IsDate(d) && 1 <= w.weekday <= 7
    requires ToSerial(d) == FirstThursday(w.year) + 7 * (w.week - 1) + w.weekday - 4
    ensures OfDate(d) == w <==> 1 <= w.week <= WeeksInYear(w.year)
    ensures IsWeekDate(OfDate(d))
  {
    hide ToSerial, FromSerial, IsoWeekday, WeeksInYear;
    IsoWeekdayOfSerial(d);
    WeekdayFromThursday(ToSerial(Date(w.year, 1, 1)), w.week - 1, w.weekday);
    var thursday := ToSerial(d) + 4 - w.weekday;
    SerialRoundTrip(thursday);
    YearOfSerial(thursday, w.year);
    ThursdaysOfYear(w.year, w.week - 1);
    OfDateRange(d);
  }

  lemma WeekdayFromThursday(jan1: int, k: int, weekday: int)
    requires 1 <= weekday <= 7
    ensures (jan1 + (7 - jan1 % 7) % 7 + 7 * k + weekday - 4 + 3) % 7 + 1 == weekday
  {
    var m := (jan1 + (7 - jan1 % 7) % 7) / 7;
    assert jan1 + (7 - jan1 % 7) % 7 == 7 * m;
    DivModUnique(7 * m + 7 * k + weekday - 1, 7, m + k, weekday - 1);
  }

  /** Any two Thursdays are whole weeks apart. */
  lemma ThursdayOffset(thursday: int, jan1: int)
    requires thursday % 7 == 0 && thursday >= jan1
    ensures thursday == jan1 + (7 - jan1 % 7) % 7 + 7 * TruncDiv(thursday - jan1, 7)
  {
    var o := (7 - jan1 % 7) % 7;
    var m := (thursday - jan1 - o) / 7;
    assert (jan1 + o) % 7 == 0;
    assert thursday - jan1 == 7 * m + o;
    DivModUnique(thursday - jan1, 7, m, o);
  }

  /** The week date of a day counts whole weeks from the first Thursday of a year that owns that Thursday. */
  lemma OfDateRange(d: Date)
    requires IsDate(d)
    ensures var w := OfDate(d);
            && IsWeekDate(w)
            && ToSerial(d) == FirstThursday(w.year) + 7 * (w.week - 1) + w.weekday - 4
  {
    hide ToSerial, FromSerial, IsoWeekday, WeeksInYear;
    IsoWeekdayOfSerial(d);
    var w := OfDate(d);
    var thursday := ToSerial(d) + 4 - w.weekday;
    ThursdayOfWeek(ToSerial(d));
    SerialRoundTrip(thursday);
    YearOfSerial(thursday, w.year);
    ThursdayOffset(thursday, ToSerial(Date(w.year, 1, 1)));
    ThursdaysOfYear(w.year, w.week - 1);
  }

  lemma ThursdayOfWeek(serial: int)
    ensures (serial + 4 - ((serial + 3) % 7 + 1)) % 7 == 0
  {
  }

  /** `ToDate` undoes `OfDate` for every date, and weeks run from 1 to 52 or 53. */
  lemma DateRoundTripsThroughWeek(d: Date)
    requires IsDate(d)
    ensures ToDate(OfDate(d)) == d
    ensures 1 <= OfDate(d).week <= 53 && 1 <= OfDate(d).weekday <= 7
  {
    hide ToSerial, FromSerial, OfDate, ToDate;
    OfDateRange(d);
    SerialOfWeekDate(OfDate(d));
    SerialInjective(d, ToDate(OfDate(d)));
  }

  /** A week date survives the trip through the calendar exactly when its week exists in its year. */
  lemma WeekRoundTripsThroughDate(w: WeekDate)
    requires 1 <= w.weekday <= 7
    ensures OfDate(ToDate(w)) == w <==> IsWeekDate(w)
  {
    hide ToSerial, FromSerial, OfDate;
    SerialOfWeekDate(w);
    OfDateByThursday(ToDate(w), w);
  }
}
