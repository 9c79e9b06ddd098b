/** The Hebrew New Year: the molad arithmetic, the postponement rules and the lengths of years. */
module HebrewYear {
  import opened Arithmetic

  predicate IsLeap(year: int) {
    (7 * year + 1) % 19 < 7
  }

  function LastMonth(year: int): nat {
    if IsLeap(year) then 13 else 12
  }

  /** Months from the epoch to Tishri of `year`, by the nineteen-year cycle. */
  function MonthsElapsed(year: int): int {
    var cy := year - 1;
    235 * TruncDiv(cy, 19) + 12 * TruncMod(cy, 19) + TruncDiv(7 * TruncMod(cy, 19) + 1, 19)
  }

  function PartsElapsed(months: int): int {
    204 + 793 * TruncMod(months, 1080)
  }

  function HoursElapsed(months: int): int {
    5 + 12 * months + 793 * TruncDiv(months, 1080) + TruncDiv(PartsElapsed(months), 1080)
  }

  /** Day of the molad of Tishri after `months` months. */
  function MoladDay(months: int): int {
    1 + 29 * months + TruncDiv(HoursElapsed(months), 24)
  }

  /** Parts of that day (1080 to the hour) before the molad. */
  function MoladParts(months: int): int {
    1080 * TruncMod(HoursElapsed(months), 24) + TruncMod(PartsElapsed(months), 1080)
  }

  /** The postponements of the New Year after its molad. */
  function Postponed(day: int, parts: int, leap: bool, previousLeap: bool): int {
    var moved :=
      if || parts >= 19440
         || (TruncMod(day, 7) == 2 && parts >= 9924 && !leap)
         || (TruncMod(day, 7) == 1 && parts >= 16789 && previousLeap)
      then day + 1
      else day;
    if TruncMod(moved, 7) in {0, 3, 5} then moved + 1 else moved
  }

  /** Days from the epoch to 1 Tishri of `year`. */
  function ElapsedDays(year: int): int {
    var months := MonthsElapsed(year);
    Postponed(MoladDay(months), MoladParts(months), IsLeap(year), IsLeap(year - 1))
  }

  function DaysInYear(year: int): int {
    ElapsedDays(year + 1) - ElapsedDays(year)
  }

  // --- The molad is one linear form --------------------------------------------------------------

  /** Splitting months by 1080 and parts by hours loses nothing: the molad is linear in the months. */
  lemma MoladIsLinear(months: int)
    requires months >= 0
    ensures MoladDay(months) * 25920 + MoladParts(months) == 25920 + 5604 + 765433 * months
    ensures 0 <= MoladParts(months) < 25920 && MoladDay(months) >= 1
  {
    var a, b := months / 1080, months % 1080;
    var h, p := HoursElapsed(months), PartsElapsed(months);
    assert p == 1080 * (p / 1080) + p % 1080;
    assert h == 24 * (h / 24) + h % 24;
  }

  /** A leap year is one that adds a thirteenth month. */
  lemma MonthsElapsedStep(year: int)
    requires year >= 1
    ensures MonthsElapsed(year + 1) == MonthsElapsed(year) + if IsLeap(year) then 13 else 12
    ensures MonthsElapsed(year) >= 0
  {
    hide MonthsElapsed;
    MonthsElapsedIsLinear(year);
    MonthsElapsedIsLinear(year + 1);
    var q, r := (235 * year - 234) / 19, (235 * year - 234) % 19;
    var carry := if r + 7 >= 19 then 1 else 0;
    DivModUnique(235 * year + 1, 19, q + 12 + carry, r + 7 - 19 * carry);
    DivModUnique(7 * year + 1, 19, q + 12 + carry - 12 * year, r + 7 - 19 * carry);
  }

  lemma MonthsElapsedIsLinear(year: int)
    requires year >= 1
    ensures MonthsElapsed(year) == (235 * year - 234) / 19
  {
    var q, r := (year - 1) / 19, (year - 1) % 19;
    var e := (7 * r + 1) % 19;
    assert 235 * year - 234 == 19 * (235 * q + 12 * r + (7 * r + 1) / 19) + e;
    DivModUnique(235 * year - 234, 19, 235 * q + 12 * r + (7 * r + 1) / 19, e);
  }

  /** Leap years never touch. */
  lemma LeapYearsApart(year: int)
    ensures !(IsLeap(year) && IsLeap(year + 1))
  {
  }

  /** From one molad of Tishri to the next: 354 days and 9516 parts, or 383 days and 23269 parts. */
  lemma NextMolad(months: int, leap: bool)
    requires months >= 0
    ensures var gap := if leap then 23269 else 9516;
            var carry := if MoladParts(months) + gap >= 25920 then 1 else 0;
            var next := months + if leap then 13 else 12;
            && MoladDay(next) == MoladDay(months) + (if leap then 383 else 354) + carry
            && MoladParts(next) == MoladParts(months) + gap - 25920 * carry
  {
    hide MoladDay, MoladParts;
    MoladIsLinear(months);
    MoladIsLinear(months + if leap then 13 else 12);
  }

  // --- Year lengths ------------------------------------------------------------------------------

  /** How many days the New Year is postponed, by the weekday of its molad. */
  function Delay(weekday: int, parts: int, leap: bool, previousLeap: bool): int {
    var moved :=
      if || parts >= 19440
         || (weekday == 2 && parts >= 9924 && !leap)
         || (weekday == 1 && parts >= 16789 && previousLeap)
      then 1 else 0;
    if (weekday + moved) % 7 in {0, 3, 5} then moved + 1 else moved
  }

  lemma PostponedIsDelay(day: int, parts: int, leap: bool, previousLeap: bool)
    requires day >= 0
    ensures Postponed(day, parts, leap, previousLeap) == day + Delay(day % 7, parts, leap, previousLeap)
    ensures Postponed(day, parts, leap, previousLeap) % 7 !in {0, 3, 5}
  {
  }

  /** The combinations of New Year weekday and year length that the rules leave. */
  predicate IsKeviah(weekday: int, length: int, leap: bool) {
    match weekday
    case 1 => if leap then length in {383, 385} else length in {353, 355}
    case 2 => length == if leap then 384 else 354
    case 4 => if leap then length in {383, 385} else length in {354, 355}
    case 6 => if leap then length in {383, 385} else length in {353, 355}
    case _ => false
  }

  /** The whole case analysis: two consecutive moladot and their postponements. */
  lemma KeviahOfMolad(weekday: int, parts: int, previousLeap: bool, leap: bool, nextLeap: bool)
    requires 0 <= weekday < 7 && 0 <= parts < 25920
    requires !(previousLeap && leap) && !(leap && nextLeap)
    ensures var gap := if leap then 23269 else 9516;
            var carry := if parts + gap >= 25920 then 1 else 0;
            var molads := (if leap then 383 else 354) + carry;
            var start := Delay(weekday, parts, leap, previousLeap);
            var end := Delay((weekday + molads) % 7, parts + gap - 25920 * carry, nextLeap, leap);
            IsKeviah((weekday + start) % 7, molads + end - start, leap)
  {
  }

  /**
   The fourteen keviot are exhaustive: from year 1 on, the weekday of the New Year and the length of
   the year form one of seven pairs when the year is common and one of seven when it is leap.
   */
  lemma KeviotExhaustive(year: int)
    requires year >= 1
    ensures IsKeviah(ElapsedDays(year) % 7, DaysInYear(year), IsLeap(year))
    ensures ElapsedDays(year) >= 1
  {
    hide IsKeviah, Delay, Postponed, MoladDay, MoladParts, MonthsElapsed, IsLeap;
    var months := MonthsElapsed(year);
    MonthsElapsedStep(year);
    MoladIsLinear(months);
    MoladIsLinear(MonthsElapsed(year + 1));
    NextMolad(months, IsLeap(year));
    LeapYearsApart(year - 1);
    LeapYearsApart(year);
    var day, parts := MoladDay(months), MoladParts(months);
    var day', parts' := MoladDay(MonthsElapsed(year + 1)), MoladParts(MonthsElapsed(year + 1));
    PostponedIsDelay(day, parts, IsLeap(year), IsLeap(year - 1));
    PostponedIsDelay(day', parts', IsLeap(year + 1), IsLeap(year));
    KeviahOfMolad(day % 7, parts, IsLeap(year - 1), IsLeap(year), IsLeap(year + 1));
    ModOfSum(day, day' - day);
    ModOfSum(day, Delay(day % 7, parts, IsLeap(year), IsLeap(year - 1)));
    DelayRange(day % 7, parts, IsLeap(year), IsLeap(year - 1));
  }

  lemma DelayRange(weekday: int, parts: int, leap: bool, previousLeap: bool)
    ensures 0 <= Delay(weekday, parts, leap, previousLeap) <= 2
  {
  }

  lemma ModOfSum(a: int, b: int)
    ensures (a + b) % 7 == (a % 7 + b) % 7
  {
    var q := a / 7;
    assert a + b == 7 * q + (a % 7 + b);
    DivModUnique(a + b, 7, q + (a % 7 + b) / 7, (a % 7 + b) % 7);
  }

  // --- Before the epoch -----------------------------------------------------------------------------

  /** In the years just before the epoch the linear form is split into a day and parts that are not positive. */
  lemma MoladBeforeEpoch(months: int)
    requires -1080 < months < 0
    ensures MoladDay(months) * 25920 + MoladParts(months) == 25920 + 5604 + 765433 * months
    ensures -25920 < MoladParts(months) <= 0
  {
    assert TruncDiv(months, 1080) == 0 && TruncMod(months, 1080) == months;
    var p := 204 + 793 * months;
    var h := 5 + 12 * months + TruncDiv(p, 1080);
    assert PartsElapsed(months) == p && HoursElapsed(months) == h;
    TruncSplit(p, 1080);
    TruncSplit(h, 24);
  }

  lemma TruncSplit(a: int, b: int)
    requires a < 0 < b
    ensures a == b * TruncDiv(a, b) + TruncMod(a, b) && -b < TruncMod(a, b) <= 0
  {
  }

  /** There no rule applies but the last, and that one only to a molad on a Sunday. */
  lemma ElapsedBeforeEpoch(year: int, months: int, day: int, parts: int)
    requires -18 < year <= 0 && 19 * months <= 235 * (year - 1) + 19 < 19 * months + 19
    requires day * 25920 + parts == 25920 + 5604 + 765433 * months && -25920 < parts <= 0
    ensures ElapsedDays(year) == if day % 7 == 0 then day + 1 else day
  {
    hide MoladDay, MoladParts, IsLeap, Postponed, MonthsElapsed;
    MonthsBeforeEpoch(year, months);
    MoladBeforeEpoch(months);
    DivModUnique(-(day * 25920 + parts), 25920, -day, -parts);
    DivModUnique(-(day * 25920 + parts), 25920, -MoladDay(months), -MoladParts(months));
    PostponedBeforeEpoch(day, parts, IsLeap(year), IsLeap(year - 1));
  }

  lemma MonthsBeforeEpoch(year: int, months: int)
    requires -18 < year <= 0 && 19 * months <= 235 * (year - 1) + 19 < 19 * months + 19
    ensures MonthsElapsed(year) == months
  {
    var cy := year - 1;
    DivModUnique(-cy, 19, 0, -cy);
    DivModUnique(-(7 * cy + 1), 19, 12 * cy - months, -(7 * cy + 1) - 19 * (12 * cy - months));
  }

  lemma PostponedBeforeEpoch(day: int, parts: int, leap: bool, previousLeap: bool)
    requires day <= 0 && parts <= 0
    ensures Postponed(day, parts, leap, previousLeap) == if day % 7 == 0 then day + 1 else day
  {
  }

  /**
   Exactly from when on the postponement rules hold: every year from `from` on is one of the fourteen kinds if
   and only if no year before the first is among them. Year 0 is a leap year of 354 days that starts on a Thursday.
   */
  lemma RulesHoldFromYearOne(from: int)
    ensures (forall year :: year >= from ==> IsKeviah(ElapsedDays(year) % 7, DaysInYear(year), IsLeap(year)))
            <==> from >= 1
  {
    hide ElapsedDays, DaysInYear, IsKeviah;
    if from >= 1 {
      forall year | year >= from
        ensures IsKeviah(ElapsedDays(year) % 7, DaysInYear(year), IsLeap(year))
      {
        KeviotExhaustive(year);
      }
    } else {
      YearZero();
    }
  }

  /** Earlier a New Year can even fall on a Wednesday. */
  lemma NoRulesBeforeYearOne()
    ensures ElapsedDays(-6) == -2538 && ElapsedDays(-6) % 7 == 3
  {
    hide ElapsedDays;
    ElapsedBeforeEpoch(-6, -86, -2538, -10754);
  }

  lemma YearZero()
    ensures ElapsedDays(0) == -353 && ElapsedDays(1) == 1 && IsLeap(0)
    ensures !IsKeviah(ElapsedDays(0) % 7, DaysInYear(0), IsLeap(0))
  {
    hide ElapsedDays;
    ElapsedBeforeEpoch(0, -12, -353, -3912);
    ElapsedFromMolad(1, 0, 1, 5604);
  }

  // --- None of the fourteen is idle -----------------------------------------------------------------

  /** The elapsed days of a year whose molad is known. */
  lemma ElapsedFromMolad(year: int, months: int, day: int, parts: int)
    requires year >= 1 && 19 * months <= 235 * year - 234 < 19 * months + 19
    requires day * 25920 + parts == 25920 + 5604 + 765433 * months && 0 <= parts < 25920
    ensures ElapsedDays(year) == day + Delay(day % 7, parts, IsLeap(year), IsLeap(year - 1))
  {
    hide MonthsElapsed, MoladDay, MoladParts, Postponed, Delay, IsLeap;
    MonthsElapsedIsLinear(year);
    DivModUnique(235 * year - 234, 19, months, 235 * year - 234 - 19 * months);
    assert months >= 0;
    MoladIsLinear(months);
    DivModUnique(day * 25920 + parts, 25920, day, parts);
    DivModUnique(day * 25920 + parts, 25920, MoladDay(months), MoladParts(months));
    PostponedIsDelay(day, parts, IsLeap(year), IsLeap(year - 1));
  }

  /** The first year of each kind. */
  function FirstOfKind(weekday: int, length: int, leap: bool): int
    requires IsKeviah(weekday, length, leap)
  {
    match (weekday, length)
    case (1, 353) => 15
    case (1, 355) => 1
    case (2, 354) => 4
    case (4, 354) => 7
    case (4, 355) => 23
    case (6, 353) => 26
    case (6, 355) => 2
    case (1, 383) => 8
    case (1, 385) => 14
    case (2, 384) => 27
    case (4, 383) => 3
    case (4, 385) => 6
    case (6, 383) => 19
    case (6, 385) => 25
    case _ => assert false; 0
  }

  lemma MondayKeviahOccurs(length: int, leap: bool)
    requires IsKeviah(1, length, leap)
    ensures OfKind(FirstOfKind(1, length, leap), 1, length, leap)
  {
    hide ElapsedDays, OfKind;
    match length
    case 353 => KindFromMolads(15, 173, 5110, 233, 185, 5464, 9749);
    case 355 => KindFromMolads(1, 0, 1, 5604, 12, 355, 15120);
    case 383 => KindFromMolads(8, 86, 2540, 21962, 99, 2924, 19311);
    case 385 => KindFromMolads(14, 160, 4726, 2884, 173, 5110, 233);
    case _ =>
  }

  lemma TuesdayKeviahOccurs(length: int, leap: bool)
    requires IsKeviah(2, length, leap)
    ensures OfKind(FirstOfKind(2, length, leap), 2, length, leap)
  {
    hide ElapsedDays, OfKind;
    match length
    case 354 => KindFromMolads(4, 37, 1093, 21985, 49, 1448, 5581);
    case 384 => KindFromMolads(27, 321, 9480, 13917, 334, 9864, 11266);
    case _ =>
  }

  lemma ThursdayKeviahOccurs(length: int, leap: bool)
    requires IsKeviah(4, length, leap)
    ensures OfKind(FirstOfKind(4, length, leap), 4, length, leap)
  {
    hide ElapsedDays, OfKind;
    match length
    case 354 => KindFromMolads(7, 74, 2186, 12446, 86, 2540, 21962);
    case 355 => KindFromMolads(23, 272, 8033, 13940, 284, 8387, 23456);
    case 383 => KindFromMolads(3, 24, 709, 24636, 37, 1093, 21985);
    case 385 => KindFromMolads(6, 61, 1802, 15097, 74, 2186, 12446);
    case _ =>
  }

  lemma SaturdayKeviahOccurs(length: int, leap: bool)
    requires IsKeviah(6, length, leap)
    ensures OfKind(FirstOfKind(6, length, leap), 6, length, leap)
  {
    hide ElapsedDays, OfKind;
    match length
    case 353 => KindFromMolads(26, 309, 9126, 4401, 321, 9480, 13917);
    case 355 => KindFromMolads(2, 12, 355, 15120, 24, 709, 24636);
    case 383 => KindFromMolads(19, 222, 6557, 210, 235, 6940, 23479);
    case 385 => KindFromMolads(25, 296, 8742, 7052, 309, 9126, 4401);
    case _ =>
  }

  /** Is this the first day's weekday, the length and the leap flag of the year? */
  predicate OfKind(year: int, weekday: int, length: int, leap: bool) {
    year >= 1 && IsLeap(year) == leap && ElapsedDays(year) % 7 == weekday && DaysInYear(year) == length
  }

  /** The kind of a year, from the molads of its Tishri and the next. */
  lemma KindFromMolads(year: int, months: int, day: int, parts: int, months': int, day': int, parts': int)
    requires year >= 1 && 19 * months <= 235 * year - 234 < 19 * months + 19
    requires 19 * months' <= 235 * year + 1 < 19 * months' + 19
    requires day * 25920 + parts == 25920 + 5604 + 765433 * months && 0 <= parts < 25920
    requires day' * 25920 + parts' == 25920 + 5604 + 765433 * months' && 0 <= parts' < 25920
    ensures var start := day + Delay(day % 7, parts, IsLeap(year), IsLeap(year - 1));
            var end := day' + Delay(day' % 7, parts', IsLeap(year + 1), IsLeap(year));
            OfKind(year, start % 7, end - start, IsLeap(year))
  {
    hide ElapsedDays, Delay, IsLeap;
    ElapsedFromMolad(year, months, day, parts);
    ElapsedFromMolad(year + 1, months', day', parts');
  }

  /** Every keviah does occur: no kind of year is idle. */
  lemma EveryKeviahOccurs(weekday: int, length: int, leap: bool)
    requires IsKeviah(weekday, length, leap)
    ensures exists year :: OfKind(year, weekday, length, leap)
  {
    hide OfKind, FirstOfKind;
    match weekday
    case 1 => MondayKeviahOccurs(length, leap);
    case 2 => TuesdayKeviahOccurs(length, leap);
    case 4 => ThursdayKeviahOccurs(length, leap);
    case _ => SaturdayKeviahOccurs(length, leap);
  }
}
