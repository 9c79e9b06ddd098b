/** Hebrew anniversaries of a death and of a birth, and the diary entries that recognise them. */
module Anniversaries {
  import opened Wrappers
  import opened Arithmetic
  import opened HebrewYear
  import opened HebrewDates
  import G = Gregorian

  // --- Yahrzeit -----------------------------------------------------------------------------------

  /** R.D. day on which the death date `d` is commemorated in Hebrew `year`. */
  function Yahrzeit(d: HebrewDate, year: int): int {
    if d.month == 8 && d.day == 30 && LastDayOfMonth(8, d.year + 1) != 30 then
      Fixed(HebrewDate(year, 9, 1)) - 1
    else if d.month == 9 && d.day == 30 && LastDayOfMonth(9, d.year + 1) != 30 then
      Fixed(HebrewDate(year, 10, 1)) - 1
    else if d.month == 13 then
      Fixed(HebrewDate(year, LastMonth(year), d.day))
    else if d.day == 30 && d.month == 12 && !IsLeap(year) then
      Fixed(HebrewDate(year, 11, 30))
    else
      Fixed(HebrewDate(year, d.month, d.day))
  }

  /**
   The commemoration as a date of the calendar: the same day where the year has it. The 30th of Heshvan
   or Kislev becomes, in a year that lacks it, the 29th if the first anniversary lacked it too, else the
   first of the next month. Adar II falls in the last month, and 30 Adar I on 30 Shevat in a common year.
   */
  function YahrzeitDate(d: HebrewDate, year: int): HebrewDate {
    if d.month in {8, 9} && d.day > LastDayOfMonth(d.month, year) then
      if LastDayOfMonth(d.month, d.year + 1) == 30 then HebrewDate(year, d.month + 1, 1)
      else HebrewDate(year, d.month, 29)
    else if d.month == 13 then
      HebrewDate(year, LastMonth(year), d.day)
    else if d.month == 12 && d.day == 30 && !IsLeap(year) then
      HebrewDate(year, 11, 30)
    else
      HebrewDate(year, d.month, d.day)
  }

  /** The days counted off by the yahrzeit rules are real dates. */
  lemma YahrzeitIsDate(d: HebrewDate, year: int)
    requires IsDate(d) && year >= 1
    ensures IsDate(YahrzeitDate(d, year)) && Fixed(YahrzeitDate(d, year)) == Yahrzeit(d, year)
  {
    hide NewYear, LongHeshvan, ShortKislev, IsLeap;
    MonthEnds(year, 8);
    MonthEnds(year, 9);
  }

  /** The yahrzeit of a year is a real date of that year, the one the rules describe. */
  lemma YahrzeitWithinYear(d: HebrewDate, year: int)
    requires IsDate(d) && year >= 1
    ensures IsDate(YahrzeitDate(d, year)) && YahrzeitDate(d, year).year == year
    ensures Fixed(YahrzeitDate(d, year)) == Yahrzeit(d, year)
    ensures NewYear(year) <= Yahrzeit(d, year) < NewYear(year + 1)
  {
    hide *;
    YahrzeitIsDate(d, year);
    DateWithinYear(YahrzeitDate(d, year));
    YahrzeitDateYear(d, year);
  }

  lemma YahrzeitDateYear(d: HebrewDate, year: int)
    ensures YahrzeitDate(d, year).year == year
  {
  }

  /** The year of a day is the only one whose New Years enclose it. */
  lemma OneYearForDay(f: int, y: int, z: int)
    requires y >= 1 && z >= 1
    requires NewYear(y) <= f < NewYear(y + 1) && NewYear(z) <= f < NewYear(z + 1)
    ensures y == z
  {
    hide NewYear;
    if y < z {
      NewYearsIncrease(y + 1, z);
    } else if z < y {
      NewYearsIncrease(z + 1, y);
    }
  }

  /**
   Is the day a yahrzeit of the death date? In each later year the day computed for that year is recognised, with
   the number of years since the death, if it lies in the year; for a death date that exists it always does.
   */
  method HebrewYahrzeit(d: HebrewDate, on: G.Date) returns (elapsed: Option<int>)
    ensures elapsed.Some? ==> elapsed.value > 0 && G.Rd(on) == Yahrzeit(d, d.year + elapsed.value)
    ensures G.Rd(on) >= FIRST_DAY ==>
              forall y :: y > d.year && y >= 1 ==>
                (elapsed == Some(y - d.year) <==> G.Rd(on) == Yahrzeit(d, y) && NewYear(y) <= G.Rd(on) < NewYear(y + 1))
    ensures G.Rd(on) >= FIRST_DAY && IsDate(d) ==>
              forall y :: y > d.year ==> (elapsed == Some(y - d.year) <==> G.Rd(on) == Yahrzeit(d, y))
  {
    hide NewYear, Yahrzeit, Fixed, G.Rd, LastDayOfMonth, LastMonth, DateOn, InTable;
    var abs := G.Rd(on);
    var h := HebrewFromFixed(abs);
    var diff := h.year - d.year;
    if Yahrzeit(d, h.year) == abs && diff > 0 {
      elapsed := Some(diff);
    } else {
      elapsed := None;
    }
    if abs >= FIRST_DAY {
      DateWithinYear(h);
      forall y | y >= 1 && NewYear(y) <= abs < NewYear(y + 1)
        ensures y == h.year
      {
        OneYearForDay(abs, h.year, y);
      }
      if IsDate(d) {
        forall y | y > d.year && abs == Yahrzeit(d, y)
          ensures y == h.year
        {
          YahrzeitWithinYear(d, y);
          OneYearForDay(abs, h.year, y);
        }
      }
    }
  }

  /** The civil dates of the yahrzeits of a range of Hebrew years, each with its year. */
  function YahrzeitDates(d: HebrewDate, from: int, to: int): seq<(int, G.Date)> {
    seq(Max(0, to - from + 1), i requires i >= 0 => (from + i, G.FromRd(Yahrzeit(d, from + i))))
  }

  /** Every later year in the range is listed once, in order, with the civil date of its yahrzeit. */
  lemma YahrzeitDatesListed(d: HebrewDate, from: int, to: int, year: int)
    requires from <= year <= to
    ensures var list := YahrzeitDates(d, from, to);
            && |list| == to - from + 1
            && list[year - from].0 == year
            && G.IsDate(list[year - from].1)
            && G.Rd(list[year - from].1) == Yahrzeit(d, year)
  {
    hide G.Rd, G.FromRd, Yahrzeit;
    G.RdBijection(Yahrzeit(d, year), G.FromRd(Yahrzeit(d, year)));
  }

  // --- Birthdays ----------------------------------------------------------------------------------

  /** R.D. day of the anniversary of the birth date `b` in Hebrew `year`. */
  function Birthday(b: HebrewDate, year: int): int {
    if b.month == LastMonth(b.year) then
      Fixed(HebrewDate(year, LastMonth(year), b.day))
    else
      Fixed(HebrewDate(year, b.month, 1)) + b.day - 1
  }

  /**
   The anniversary as a date: in the last month if the birth was in the last month of its year; otherwise in the
   same month, on the same day where the month has it, else on the first of the next month.
   */
  function BirthdayDate(b: HebrewDate, year: int): HebrewDate {
    if b.month == LastMonth(b.year) then HebrewDate(year, LastMonth(year), b.day)
    else if b.day <= LastDayOfMonth(b.month, year) then HebrewDate(year, b.month, b.day)
    else HebrewDate(year, if b.month == 12 then 1 else b.month + 1, 1)
  }

  /** The birthday of a year is a real date of that year, the one the rule describes. */
  lemma BirthdayIsDate(b: HebrewDate, year: int)
    requires IsDate(b) && year >= 1
    ensures IsDate(BirthdayDate(b, year)) && BirthdayDate(b, year).year == year
    ensures Fixed(BirthdayDate(b, year)) == Birthday(b, year)
  {
    hide NewYear, DaysBeforeMonth, LongHeshvan, ShortKislev, IsLeap;
    if b.month <= LastMonth(year) {
      MonthEnds(year, b.month);
    }
  }

  /** A birthday stays in its year, and opens the year exactly when the birth was on 1 Tishri. */
  lemma BirthdayWithinYear(b: HebrewDate, year: int)
    requires IsDate(b) && year >= 1
    ensures NewYear(year) <= Birthday(b, year) < NewYear(year + 1)
    ensures Birthday(b, year) == NewYear(year) <==> b.month == 7 && b.day == 1
  {
    hide NewYear, DaysBeforeMonth, LongHeshvan, ShortKislev, IsLeap;
    TishriFirst(year);
    var last := LastMonth(year);
    if b.month == LastMonth(b.year) {
      DateWithinYear(HebrewDate(year, last, b.day));
      MonthsInOrder(year, 7, last);
    } else {
      var month := b.month;
      DateWithinYear(HebrewDate(year, month, 1));
      DateWithinYear(HebrewDate(year, month, LastDayOfMonth(month, year)));
      MonthEnds(year, month);
      if month != 6 {
        DateWithinYear(HebrewDate(year, if month == last then 1 else month + 1, 1));
      }
      if month != 7 {
        MonthsInOrder(year, 7, month);
      }
    }
  }

  /**
   What a diary line for the birth date `b` should say on the day `abs`: the age on the birthday itself, in
   every later year, and on its eve. The eve is missed exactly when the birth was on 1 Tishri: that eve lies
   in the year before, whose own birthday is the one compared.
   */
  ghost predicate Announces(b: HebrewDate, abs: int, r: Option<(int, bool)>) {
    && (r.Some? ==> r.value.0 > 0)
    && (forall y :: y > b.year ==> (r == Some((y - b.year, false)) <==> abs == Birthday(b, y)))
    && (forall y :: y > b.year ==>
          (r == Some((y - b.year, true)) <==> abs + 1 == Birthday(b, y) && !(b.month == 7 && b.day == 1)))
  }

  /** What the line says: the birthday compared is that of the Hebrew year the day is in. */
  function BirthdayEntry(b: HebrewDate, abs: int): Option<(int, bool)> {
    var year := DateOn(abs).year;
    var birthday := Birthday(b, year);
    if year > b.year && (birthday == abs || birthday == abs + 1) then Some((year - b.year, birthday != abs)) else None
  }

  lemma BirthdayAnnounced(b: HebrewDate, abs: int)
    requires IsDate(b) && abs >= FIRST_DAY
    ensures Announces(b, abs, BirthdayEntry(b, abs))
  {
    hide NewYear, Birthday, DateOn, InTable;
    YearFound(abs);
    var year := DateOn(abs).year;
    BirthdayWithinYear(b, year);
    forall y | y > b.year && abs == Birthday(b, y)
      ensures y == year
    {
      BirthdayWithinYear(b, y);
      OneYearForDay(abs, year, y);
    }
    forall y | y > b.year && abs + 1 == Birthday(b, y)
      ensures y == year <==> !(b.month == 7 && b.day == 1)
    {
      BirthdayWithinYear(b, y);
      if abs + 1 != NewYear(y) {
        OneYearForDay(abs, year, y);
      }
    }
  }

  /** The evening before every birthday of someone born on 1 Tishri is passed over without a word. */
  lemma NewYearEveMissed(b: HebrewDate, year: int)
    requires IsDate(b) && b.month == 7 && b.day == 1 && year > b.year
    ensures Birthday(b, year) == NewYear(year) && BirthdayEntry(b, NewYear(year) - 1) == None
  {
    hide NewYear, Birthday, DateOn, InTable;
    BirthdayWithinYear(b, year);
    BirthdayWithinYear(b, year - 1);
    FirstNewYear();
    NewYearsIncrease(1, year);
    NewYearsIncrease(year - 1, year);
    YearFound(NewYear(year) - 1);
    OneYearForDay(NewYear(year) - 1, year - 1, DateOn(NewYear(year) - 1).year);
  }

  /** Born on 30 September 2000, 1 Tishri 5761: a first birthday on 18 September 2001, and no eve of it. */
  lemma EveMissedInSeptember2001()
    ensures DateOn(730393) == HebrewDate(5761, 7, 1)
    ensures BirthdayEntry(DateOn(730393), 730746) == Some((1, false))
    ensures BirthdayEntry(DateOn(730393), 730745) == None
  {
    hide ElapsedDays, Birthday, DateOn;
    ElapsedFromMolad(5761, 71242, 2103819, 20830);
    ElapsedFromMolad(5762, 71254, 2104174, 4426);
    var b := HebrewDate(5761, 7, 1);
    TishriFirst(5761);
    hide NewYear, DaysBeforeMonth, BirthdayEntry;
    assert IsDate(b) && Fixed(b) == 730393;
    DateRoundTrip(b);
    NewYearEveMissed(b, 5762);
    BirthdayAnnounced(b, 730746);
  }

  /** The Hebrew birthday of a civil birth date on a day: the age, and whether the day is only the eve. */
  method HebrewBirthday(birth: G.Date, afterSunset: bool, on: G.Date) returns (r: Option<(int, bool)>)
    ensures var f := G.Rd(birth) + if afterSunset then 1 else 0;
            && r == BirthdayEntry(DateOn(f), G.Rd(on))
            && (f >= FIRST_DAY && G.Rd(on) >= FIRST_DAY ==> IsDate(DateOn(f)) && Announces(DateOn(f), G.Rd(on), r))
  {
    hide NewYear, Birthday, Fixed, G.Rd, LastDayOfMonth, LastMonth, DateOn, InTable, Announces;
    var b := HebrewFromFixed(G.Rd(birth) + if afterSunset then 1 else 0);
    var abs := G.Rd(on);
    var h := HebrewFromFixed(abs);
    var birthday := Birthday(b, h.year);
    var age := h.year - b.year;
    if age > 0 && (birthday == abs || birthday == abs + 1) {
      r := Some((age, birthday != abs));
    } else {
      r := None;
    }
    if IsDate(b) && abs >= FIRST_DAY {
      BirthdayAnnounced(b, abs);
    }
  }
}
