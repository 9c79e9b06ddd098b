/** The proleptic Gregorian calendar: Hinnant's closed forms against the month-length table. */
module Gregorian {
  import opened Arithmetic

  datatype Date = Date(year: int, month: nat, day: nat)

  predicate IsLeap(year: int) {
    (year % 4 == 0 && year % 100 != 0) || year % 400 == 0
  }

  function DaysInMonth(year: int, month: nat): nat {
    match month
    case 1 | 3 | 5 | 7 | 8 | 10 | 12 => 31
    case 4 | 6 | 9 | 11 => 30
    case 2 => if IsLeap(year) then 29 else 28
    case _ => 30
  }

  /** A date that exists. */
  predicate IsDate(d: Date) {
    1 <= d.month <= 12 && 1 <= d.day <= DaysInMonth(d.year, d.month)
  }

  // --- The closed forms -------------------------------------------------------------------------

  /** The 400-year era of `y`, with the source's truncating division. */
  function Era(y: int, width: int): int
    requires width > 0
  {
    TruncDiv(if y >= 0 then y else y - (width - 1), width)
  }

  /** Days of an era before the March-based year `yoe`. */
  function DaysBeforeYear(yoe: int): int {
    yoe * 365 + yoe / 4 - yoe / 100
  }

  /** Day of the March-based year, counted from 0 on March 1. */
  function DayOfYear(month: nat, day: nat): int {
    (153 * (month + if month > 2 then -3 else 9) + 2) / 5 + day - 1
  }

  /** Days since 1970-01-01. */
  function ToSerial(d: Date): int {
    var y := d.year - if d.month <= 2 then 1 else 0;
    var era := Era(y, 400);
    var yoe := y - era * 400;
    var doe := DaysBeforeYear(yoe) + DayOfYear(d.month, d.day);
    era * 146097 + doe - 719468
  }

  function YearOfEra(doe: int): int {
    (doe - doe / 1460 + doe / 36524 - doe / 146096) / 365
  }

  /** The date of a serial day. */
  function FromSerial(serial: int): (d: Date)
    ensures IsDate(d)
  {
    var z := serial + 719468;
    var era := Era(z, 146097);
    var doe := z - era * 146097;
    EraIsFloor(z, 146097);
    YearOfEraBounds(doe);
    var yoe := YearOfEra(doe);
    var y := yoe + era * 400;
    var doy := doe - DaysBeforeYear(yoe);
    LeapMarchIsLeap(yoe, era);
    var mp := (5 * doy + 2) / 153;
    var day := doy - (153 * mp + 2) / 5 + 1;
    var month := if mp < 10 then mp + 3 else mp - 9;
    Date(y + if month <= 2 then 1 else 0, month, day)
  }

  lemma EraIsFloor(y: int, width: int)
    requires width > 0
    ensures Era(y, width) == y / width
    ensures 0 <= y - Era(y, width) * width < width
  {
    var q, r := y / width, y % width;
    if y < 0 {
      var n := -(y - (width - 1));
      assert n == width * (-q) + (width - 1 - r);
      DivModUnique(n, width, -q, width - 1 - r);
    }
  }

  /** Does the March-based year `yoe` of an era end in a February 29? */
  predicate LeapMarch(yoe: int) {
    (yoe % 4 == 3 && yoe % 100 != 99) || yoe == 399
  }

  lemma LeapMarchIsLeap(yoe: int, era: int)
    requires 0 <= yoe < 400
    ensures LeapMarch(yoe) <==> IsLeap(yoe + era * 400 + 1)
  {
    var y := yoe + era * 400 + 1;
    var n := yoe + 1;
    DivModUnique(y, 4, n / 4 + era * 100, n % 4);
    DivModUnique(y, 100, n / 100 + era * 4, n % 100);
    DivModUnique(y, 400, n / 400 + era, n % 400);
  }

  /** The year-of-era formula on a day given by century, four-year block, year and day. */
  lemma YearOfEraSplit(c: int, q: int, k: int, t: int)
    requires 0 <= c <= 3 && 0 <= q <= 24 && 0 <= k <= 3
    requires 0 <= t < 365 + if LeapMarch(100 * c + 4 * q + k) then 1 else 0
    ensures YearOfEra(36524 * c + 1461 * q + 365 * k + t) == 100 * c + 4 * q + k
  {
    var doe := 36524 * c + 1461 * q + 365 * k + t;
    var r := 24 * c + q + 365 * k + t;
    assert doe == 1460 * (25 * c + q) + r;
    var e1 := if r >= 1460 then 1 else 0;
    DivModUnique(doe, 1460, 25 * c + q + e1, r - 1460 * e1);
    var s := 1461 * q + 365 * k + t;
    var e2 := if s >= 36524 then 1 else 0;
    DivModUnique(doe, 36524, c + e2, s - 36524 * e2);
  }

  lemma DaysBeforeYearSplit(c: int, q: int, k: int)
    requires 0 <= q <= 24 && 0 <= k <= 3
    ensures DaysBeforeYear(100 * c + 4 * q + k) == 36524 * c + 1461 * q + 365 * k
  {
    DivModUnique(100 * c + 4 * q + k, 100, c, 4 * q + k);
    DivModUnique(100 * c + 4 * q + k, 4, 25 * c + q, k);
  }

  /** Every day of an era lies in exactly the March-based year the formula names. */
  lemma YearOfEraBounds(doe: int)
    requires 0 <= doe < 146097
    ensures 0 <= YearOfEra(doe) < 400
    ensures 0 <= doe - DaysBeforeYear(YearOfEra(doe)) < 365 + if LeapMarch(YearOfEra(doe)) then 1 else 0
  {
    var c := Min(doe / 36524, 3);
    var r := doe - 36524 * c;
    var q := Min(r / 1461, 24);
    var s := r - 1461 * q;
    var k := Min(s / 365, 3);
    var t := s - 365 * k;
    YearOfEraSplit(c, q, k, t);
    DaysBeforeYearSplit(c, q, k);
  }

  lemma YearOfEraExact(yoe: int, doy: int)
    requires 0 <= yoe < 400
    requires 0 <= doy < 365 + if LeapMarch(yoe) then 1 else 0
    ensures YearOfEra(DaysBeforeYear(yoe) + doy) == yoe
    ensures 0 <= DaysBeforeYear(yoe) + doy < 146097
  {
    var c := yoe / 100;
    var q := yoe % 100 / 4;
    var k := yoe % 100 % 4;
    DaysBeforeYearSplit(c, q, k);
    YearOfEraSplit(c, q, k, doy);
  }

  /** A month and a day of the month are recovered from the day of the March-based year. */
  lemma MonthExact(month: nat, day: nat)
    requires 1 <= month <= 12 && 1 <= day <= 31
    requires month in {4, 6, 9, 11} ==> day <= 30
    requires month == 2 ==> day <= 29
    ensures var doy := DayOfYear(month, day);
            var mp := (5 * doy + 2) / 153;
            && 0 <= doy < 366
            && (doy == 365 <==> month == 2 && day == 29)
            && (if mp < 10 then mp + 3 else mp - 9) == month
            && doy - (153 * mp + 2) / 5 + 1 == day
  {
    var mp := month + if month > 2 then -3 else 9;
    var doy := DayOfYear(month, day);
    var e := 5 * doy + 2 - 153 * mp;
    assert 0 <= e < 153;
    DivModUnique(5 * doy + 2, 153, mp, e);
  }

  /** Serial day of March 1 of year `y`. */
  function MarchFirst(y: int): int {
    y / 400 * 146097 + DaysBeforeYear(y % 400) - 719468
  }

  /** The March-based year a date belongs to. */
  function MarchYear(d: Date): int {
    d.year - if d.month <= 2 then 1 else 0
  }

  /** The serial day counted from the March 1 that opens the date's March-based year. */
  lemma SerialFromMarch(d: Date)
    ensures ToSerial(d) == MarchFirst(MarchYear(d)) + DayOfYear(d.month, d.day)
  {
    hide DaysBeforeYear, DayOfYear;
    var y := MarchYear(d);
    EraIsFloor(y, 400);
    assert y - y / 400 * 400 == y % 400;
  }

  lemma MarchFirstStep(y: int)
    ensures MarchFirst(y + 1) == MarchFirst(y) + 365 + if IsLeap(y + 1) then 1 else 0
  {
    var era, yoe := y / 400, y % 400;
    LeapMarchIsLeap(yoe, era);
    if yoe == 399 {
      DivModUnique(y + 1, 400, era + 1, 0);
    } else {
      DivModUnique(y + 1, 400, era, yoe + 1);
      DaysBeforeYearStep(yoe);
    }
  }

  lemma DaysBeforeYearStep(yoe: int)
    requires 0 <= yoe < 399
    ensures DaysBeforeYear(yoe + 1) == DaysBeforeYear(yoe) + 365 + if LeapMarch(yoe) then 1 else 0
  {
  }

  /** A date is the date of its own serial day. */
  lemma DateRoundTrip(d: Date)
    requires IsDate(d)
    ensures FromSerial(ToSerial(d)) == d
  {
    var y := MarchYear(d);
    var era, yoe := y / 400, y % 400;
    var doy := DayOfYear(d.month, d.day);
    MonthExact(d.month, d.day);
    LeapMarchIsLeap(yoe, era);
    SerialFromMarch(d);
    DateOfMarchYear(d, era, yoe, doy, ToSerial(d));
  }

  lemma DateOfMarchYear(d: Date, era: int, yoe: int, doy: int, serial: int)
    requires 0 <= yoe < 400 && d.year == yoe + era * 400 + if d.month <= 2 then 1 else 0
    requires 0 <= doy < 365 + if LeapMarch(yoe) then 1 else 0
    requires var mp := (5 * doy + 2) / 153;
             && (if mp < 10 then mp + 3 else mp - 9) == d.month
             && doy - (153 * mp + 2) / 5 + 1 == d.day
    requires serial == era * 146097 + DaysBeforeYear(yoe) - 719468 + doy
    ensures FromSerial(serial) == d
  {
    hide DaysBeforeYear, DayOfYear, YearOfEra, IsDate;
    YearOfEraExact(yoe, doy);
    var doe := DaysBeforeYear(yoe) + doy;
    EraIsFloor(era * 146097 + doe, 146097);
    DivModUnique(era * 146097 + doe, 146097, era, doe);
  }

  /** Every integer is the serial day of the date computed from it. */
  lemma SerialRoundTrip(serial: int)
    ensures ToSerial(FromSerial(serial)) == serial
  {
    hide DaysBeforeYear, DayOfYear, YearOfEra, ToSerial, IsDate;
    var z := serial + 719468;
    EraIsFloor(z, 146097);
    var era := Era(z, 146097);
    var doe := z - era * 146097;
    YearOfEraBounds(doe);
    var yoe := YearOfEra(doe);
    DayOfYearExact(doe - DaysBeforeYear(yoe));
    DivModUnique(yoe + era * 400, 400, era, yoe);
    SerialFromMarch(FromSerial(serial));
  }

  lemma DayOfYearExact(doy: int)
    requires 0 <= doy < 366
    ensures var mp := (5 * doy + 2) / 153;
            && doy - (153 * mp + 2) / 5 + 1 >= 1
            && DayOfYear(if mp < 10 then mp + 3 else mp - 9, doy - (153 * mp + 2) / 5 + 1) == doy
  {
  }

  /** Two dates on the same serial day are the same date. */
  lemma SerialInjective(a: Date, b: Date)
    requires IsDate(a) && IsDate(b) && ToSerial(a) == ToSerial(b)
    ensures a == b
  {
    DateRoundTrip(a);
    DateRoundTrip(b);
  }

  /** The serial days of the dates the closed forms are anchored to. */
  lemma Anchors()
    ensures ToSerial(Date(1970, 1, 1)) == 0
    ensures ToSerial(Date(1, 1, 1)) == -719162
  {
    hide ToSerial, MarchFirst;
    SerialFromMarch(Date(1970, 1, 1));
    SerialFromMarch(Date(1, 1, 1));
    MarchFirstOfEra(1969, 4, 369);
    MarchFirstOfEra(0, 0, 0);
  }

  /** January 1 of the least 32-bit year and of the one after the greatest. */
  lemma Int32Anchors()
    ensures ToSerial(Date(-0x8000_0000, 1, 1)) == -784353015833
    ensures ToSerial(Date(0x8000_0000, 1, 1)) == 784351576777
  {
    hide ToSerial, MarchFirst;
    SerialFromMarch(Date(-0x8000_0000, 1, 1));
    SerialFromMarch(Date(0x8000_0000, 1, 1));
    MarchFirstOfEra(-0x8000_0000 - 1, -5368710, 351);
    MarchFirstOfEra(0x8000_0000 - 1, 5368709, 47);
  }

  lemma MarchFirstOfEra(y: int, era: int, yoe: int)
    requires y == yoe + era * 400 && 0 <= yoe < 400
    ensures MarchFirst(y) == era * 146097 + DaysBeforeYear(yoe) - 719468
  {
    hide DaysBeforeYear;
    DivModUnique(y, 400, era, yoe);
  }

  // --- The calendar as the leap rule and the table of month lengths describe it ------------------

  /** The day after `d`: the next day of the month, else the next month, else the next year. */
  function Next(d: Date): Date {
    if d.day < DaysInMonth(d.year, d.month) then Date(d.year, d.month, d.day + 1)
    else if d.month < 12 then Date(d.year, d.month + 1, 1)
    else Date(d.year + 1, 1, 1)
  }

  /** One step of the closed form is one step of the simple calendar. */
  lemma SerialOfNext(d: Date)
    requires IsDate(d)
    ensures IsDate(Next(d)) && ToSerial(Next(d)) == ToSerial(d) + 1
  {
    hide ToSerial, MarchFirst, IsLeap;
    SerialFromMarch(d);
    SerialFromMarch(Next(d));
    MarchFirstStep(d.year - 1);
  }

  /** The closed forms refine the simple calendar, for every integer day: stepping from 1970-01-01. */
  lemma FromSerialSteps(serial: int)
    ensures FromSerial(serial + 1) == Next(FromSerial(serial))
    ensures FromSerial(0) == Date(1970, 1, 1)
  {
    hide FromSerial, ToSerial;
    Anchors();
    DateRoundTrip(Date(1970, 1, 1));
    var d := FromSerial(serial);
    SerialRoundTrip(serial);
    SerialOfNext(d);
    DateRoundTrip(Next(d));
  }

  // --- Years ------------------------------------------------------------------------------------

  /** Consecutive New Years are a year apart, and a date lies in its own year. */
  lemma SerialWithinYear(d: Date)
    requires IsDate(d)
    ensures ToSerial(Date(d.year, 1, 1)) <= ToSerial(d) < ToSerial(Date(d.year + 1, 1, 1))
    ensures ToSerial(Date(d.year + 1, 1, 1)) == ToSerial(Date(d.year, 1, 1)) + if IsLeap(d.year) then 366 else 365
  {
    hide ToSerial, MarchFirst, IsLeap;
    SerialFromMarch(d);
    SerialFromMarch(Date(d.year, 1, 1));
    SerialFromMarch(Date(d.year + 1, 1, 1));
    MarchFirstStep(d.year - 1);
  }

  lemma {:induction false} NewYearsIncrease(a: int, b: int)
    requires a <= b
    ensures ToSerial(Date(b, 1, 1)) >= ToSerial(Date(a, 1, 1)) + 365 * (b - a)
    decreases b - a
  {
    hide ToSerial;
    if a < b {
      NewYearsIncrease(a, b - 1);
      SerialWithinYear(Date(b - 1, 1, 1));
    }
  }

  /** A date's year is the one whose New Year's days enclose it. */
  lemma YearOfSerial(serial: int, year: int)
    ensures FromSerial(serial).year == year
            <==> ToSerial(Date(year, 1, 1)) <= serial < ToSerial(Date(year + 1, 1, 1))
  {
    hide ToSerial, FromSerial;
    var d := FromSerial(serial);
    SerialRoundTrip(serial);
    SerialWithinYear(d);
    if d.year < year {
      NewYearsIncrease(d.year + 1, year);
    } else if year < d.year {
      NewYearsIncrease(year + 1, d.year);
    }
  }

  /**
   The source keeps the year in 32 bits. The narrowing is exact on precisely this interval of days,
   from January 1 of the least year to December 31 of the greatest.
   */
  lemma YearFitsInt32(serial: int)
    ensures -0x8000_0000 <= FromSerial(serial).year < 0x8000_0000
            <==> -784353015833 <= serial <= 784351576776
  {
    var lo, hi := -0x8000_0000, 0x8000_0000;
    hide ToSerial, FromSerial;
    Int32Anchors();
    var year := FromSerial(serial).year;
    YearOfSerial(serial, year);
    if year < lo {
      NewYearsIncrease(year + 1, lo);
    } else if year < hi {
      NewYearsIncrease(lo, year);
      NewYearsIncrease(year + 1, hi);
    } else {
      NewYearsIncrease(hi, year);
    }
  }

  // --- Weekdays and R.D. numbers ------------------------------------------------------------------

  /** Day of the week, 0 for Sunday. */
  function Weekday(d: Date): (w: int)
    ensures 0 <= w < 7
  {
    (TruncMod(ToSerial(d), 7) + 4) % 7
  }

  /** R.D. number: day 1 is January 1 of year 1. */
  function Rd(d: Date): int {
    ToSerial(d) - ToSerial(Date(1, 1, 1)) + 1
  }

  function FromRd(f: int): (d: Date)
    ensures IsDate(d)
  {
    FromSerial(f + ToSerial(Date(1, 1, 1)) - 1)
  }

  /** R.D. numbers and dates are in bijection; the weekday is the R.D. number modulo 7. */
  lemma RdBijection(f: int, d: Date)
    requires IsDate(d)
    ensures Rd(FromRd(f)) == f && FromRd(Rd(d)) == d
    ensures Weekday(d) == Rd(d) % 7
    ensures Rd(Date(1970, 1, 1)) == 719163
  {
    hide ToSerial, FromSerial;
    Anchors();
    WeekdayModulus(ToSerial(d));
    SerialRoundTrip(f + ToSerial(Date(1, 1, 1)) - 1);
    DateRoundTrip(d);
  }

  lemma WeekdayModulus(serial: int)
    ensures (TruncMod(serial, 7) + 4) % 7 == (serial + 719163) % 7 == (serial + 4) % 7
  {
    if serial < 0 {
      var q, r := (-serial) / 7, (-serial) % 7;
      assert TruncMod(serial, 7) == -r;
    }
  }
}
