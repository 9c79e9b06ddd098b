/** The weekly portion: every Saturday of every Hebrew year finds its table and its place in it. */
module Parasha {
  import opened Wrappers
  import opened Arithmetic
  import opened Gregorian
  import Y = HebrewYear
  import H = HebrewDates
  import opened ParashaTables

  datatype YearKind = Complete | Incomplete | Regular

  /** The kind of a year, read back off the lengths of Heshvan and Kislev. */
  function Kind(year: int): YearKind {
    match (H.LastDayOfMonth(8, year) == 30, H.LastDayOfMonth(9, year) == 29)
    case (true, false) => Complete
    case (false, true) => Incomplete
    case _ => Regular
  }

  /** The table for a New Year weekday, a year kind and a Passover weekday. */
  function SelectTable(newYear: int, kind: YearKind, passover: int): Option<Table> {
    match (newYear, kind, passover)
    case (6, Incomplete, 0) => Some(SaturdayIncompleteSunday())
    case (6, Complete, 2) => Some(SaturdayCompleteTuesday())
    case (1, Incomplete, 2) => Some(MondayIncompleteTuesday())
    case (1, Complete, 4) => Some(MondayCompleteThursday())
    case (2, Regular, 4) => Some(TuesdayRegularThursday())
    case (4, Regular, 6) => Some(ThursdayRegularSaturday())
    case (4, Complete, 0) => Some(ThursdayCompleteSunday())
    case (6, Incomplete, 2) => Some(SaturdayIncompleteTuesday())
    case (6, Complete, 4) => Some(SaturdayCompleteThursday())
    case (1, Incomplete, 4) => Some(MondayIncompleteThursday())
    case (1, Complete, 6) => Some(MondayCompleteSaturday())
    case (2, Regular, 6) => Some(TuesdayRegularSaturday())
    case (4, Incomplete, 0) => Some(ThursdayIncompleteSunday())
    case (4, Complete, 2) => Some(ThursdayCompleteTuesday())
    case _ => None
  }

  function Passover(year: int): int {
    H.Fixed(H.HebrewDate(year, 1, 15))
  }

  function TableOf(year: int): Option<Table> {
    SelectTable(H.NewYear(year) % 7, Kind(year), Passover(year) % 7)
  }

  /** The Saturday on or after the New Year. */
  function FirstSaturday(year: int): int {
    H.NewYear(year) + 6 - H.NewYear(year) % 7
  }

  /** The portion due when the year begins on the given weekday. */
  function DueOn(newYear: int): int {
    if newYear in {1, 2} then 51 else 52
  }

  function DueAtNewYear(year: int): int {
    DueOn(H.NewYear(year) % 7)
  }

  // --- The keviah ---------------------------------------------------------------------------------

  lemma NewYearWeekday(year: int)
    ensures H.NewYear(year) % 7 == Y.ElapsedDays(year) % 7
  {
    hide Y.ElapsedDays;
    DivModUnique(H.NewYear(year), 7, Y.ElapsedDays(year) / 7 - 196204, Y.ElapsedDays(year) % 7);
  }

  /** Passover is always 163 days before the next New Year. */
  lemma PassoverBeforeNewYear(year: int)
    requires year >= 1
    ensures Passover(year) == H.NewYear(year + 1) - 163
  {
    hide Y.DaysInYear, H.LastDayOfMonth, H.NewYear;
    H.MonthsFillYear(year);
    H.SpringMonths(year);
    H.NewYearGap(year);
  }

  lemma KindOfLength(year: int)
    requires year >= 1
    ensures Kind(year) == KindOf(Y.DaysInYear(year))
  {
    hide Y.ElapsedDays;
    Y.KeviotExhaustive(year);
  }

  function KindOf(length: int): YearKind {
    if length % 10 == 5 then Complete else if length % 10 == 3 then Incomplete else Regular
  }

  /** A table that has a slot for each Saturday of the year and reads on to what the next year is due. */
  predicate Serves(table: Option<Table>, newYear: int, length: int) {
    match table
    case None => false
    case Some(t) =>
      && |t.slots| == (length - 1 - (6 - newYear)) / 7 + 1
      && t.Due(Diaspora, DueOn(newYear)) == DueOn((newYear + length) % 7)
      && t.Due(Israel, DueOn(newYear)) == DueOn((newYear + length) % 7)
  }

  lemma CommonKeviahServed(newYear: int, length: int)
    requires Y.IsKeviah(newYear, length, false)
    ensures Serves(SelectTable(newYear, KindOf(length), (newYear + length - 163) % 7), newYear, length)
  {
    hide Table.Due, SaturdayIncompleteSunday, SaturdayCompleteTuesday, MondayIncompleteTuesday, MondayCompleteThursday,
         TuesdayRegularThursday, ThursdayRegularSaturday, ThursdayCompleteSunday, SaturdayIncompleteTuesday,
         SaturdayCompleteThursday, MondayIncompleteThursday, MondayCompleteSaturday, TuesdayRegularSaturday,
         ThursdayIncompleteSunday, ThursdayCompleteTuesday;
  }

  lemma LeapKeviahServed(newYear: int, length: int)
    requires Y.IsKeviah(newYear, length, true)
    ensures Serves(SelectTable(newYear, KindOf(length), (newYear + length - 163) % 7), newYear, length)
  {
    hide Table.Due, SaturdayIncompleteSunday, SaturdayCompleteTuesday, MondayIncompleteTuesday, MondayCompleteThursday,
         TuesdayRegularThursday, ThursdayRegularSaturday, ThursdayCompleteSunday, SaturdayIncompleteTuesday,
         SaturdayCompleteThursday, MondayIncompleteThursday, MondayCompleteSaturday, TuesdayRegularSaturday,
         ThursdayIncompleteSunday, ThursdayCompleteTuesday;
  }

  /** Each of the seven and seven keviot selects a table that serves it. */
  lemma KeviahServed(newYear: int, length: int, leap: bool)
    requires Y.IsKeviah(newYear, length, leap)
    ensures Serves(SelectTable(newYear, KindOf(length), (newYear + length - 163) % 7), newYear, length)
  {
    hide SelectTable, Serves, KindOf;
    if leap {
      LeapKeviahServed(newYear, length);
    } else {
      CommonKeviahServed(newYear, length);
    }
  }

  /** The table of a year, by the weekday it starts on and its length alone. */
  lemma TableByKeviah(year: int)
    requires year >= 1
    ensures var newYear, length := H.NewYear(year) % 7, Y.DaysInYear(year);
            && TableOf(year) == SelectTable(newYear, KindOf(length), (newYear + length - 163) % 7)
            && Y.IsKeviah(newYear, length, Y.IsLeap(year))
            && (newYear + length) % 7 == H.NewYear(year + 1) % 7
  {
    hide SelectTable, Kind, KindOf, Passover, H.NewYear, Y.DaysInYear, Y.IsKeviah;
    NewYearWeekday(year);
    PassoverBeforeNewYear(year);
    KindOfLength(year);
    H.NewYearGap(year);
    Y.KeviotExhaustive(year);
    Y.ModOfSum(H.NewYear(year), Y.DaysInYear(year));
    Y.ModOfSum(H.NewYear(year), Y.DaysInYear(year) - 163);
    Y.ModOfSum(H.NewYear(year) % 7 + Y.DaysInYear(year), -163);
  }

  /** No Hebrew year falls through to the fallback: every one selects a table that serves it. */
  lemma EveryYearServed(year: int)
    requires year >= 1
    ensures Serves(TableOf(year), H.NewYear(year) % 7, Y.DaysInYear(year))
    ensures (H.NewYear(year) % 7 + Y.DaysInYear(year)) % 7 == H.NewYear(year + 1) % 7
  {
    hide TableOf, SelectTable, Serves, KindOf, H.NewYear, Y.DaysInYear, Y.IsKeviah;
    TableByKeviah(year);
    KeviahServed(H.NewYear(year) % 7, Y.DaysInYear(year), Y.IsLeap(year));
  }

  /** The table has exactly one slot for each Saturday of the year, and no Saturday is without one. */
  lemma SlotForEverySaturday(year: int, f: int)
    requires year >= 1 && f % 7 == 6
    ensures TableOf(year).Some?
    ensures H.NewYear(year) <= f < H.NewYear(year + 1)
            <==> 0 <= (f - FirstSaturday(year)) / 7 < |TableOf(year).value.slots|
    ensures f == FirstSaturday(year) + 7 * ((f - FirstSaturday(year)) / 7)
  {
    hide TableOf, H.NewYear, Y.DaysInYear, Table.Due;
    EveryYearServed(year);
    H.NewYearGap(year);
    Y.KeviotExhaustive(year);
    NewYearWeekday(year);
    SaturdayCount(H.NewYear(year), Y.DaysInYear(year), f);
  }

  lemma SaturdayCount(newYear: int, length: int, f: int)
    requires f % 7 == 6 && newYear % 7 != 0 && length > 6
    ensures var w := newYear % 7;
            var index := (f - (newYear + 6 - w)) / 7;
            && f == newYear + 6 - w + 7 * index
            && (newYear <= f < newYear + length <==> 0 <= index < (length - 1 - (6 - w)) / 7 + 1)
  {
    var w := newYear % 7;
    var index := f / 7 - newYear / 7;
    assert f - (newYear + 6 - w) == 7 * index;
  }

  /** The slot of the year's table that belongs to day `d`. */
  ghost predicate IsSlotOf(year: int, d: int, slot: Option<Slot>) {
    && TableOf(year).Some?
    && 0 <= (d - FirstSaturday(year)) / 7 < |TableOf(year).value.slots|
    && slot == TableOf(year).value.slots[(d - FirstSaturday(year)) / 7]
  }

  /** What the entry of day `d` shows: the year is that of the date the conversion gives the day. */
  function ParashaOn(d: int): Option<Slot> {
    var year := H.DateOn(d).year;
    if d % 7 != 6 then None else SlotFrom(TableOf(year), H.NewYear(year), d)
  }

  /**
   The weekly portion of a day: what its year's table says for a Saturday, nothing for another day. In the year
   before the first, none of the fourteen arms is reached.
   */
  method HebrewParasha(on: Date) returns (slot: Option<Slot>)
    ensures slot == ParashaOn(Rd(on))
    ensures Rd(on) % 7 != 6 ==> slot == None
    ensures Rd(on) % 7 == 6 && Rd(on) >= H.FIRST_DAY ==>
              exists h :: H.IsDate(h) && H.Fixed(h) == Rd(on) && IsSlotOf(h.year, Rd(on), slot)
    ensures H.NewYear(0) <= Rd(on) < H.FIRST_DAY ==> slot == None
  {
    hide SelectTable, H.NewYear, H.Fixed, H.InTable, Rd, H.LastDayOfMonth, H.DateOn;
    var d := Rd(on);
    if H.NewYear(0) <= d < H.FIRST_DAY {
      NoPortionInYearZero(d);
    }
    if d % 7 != 6 {
      return None;
    }
    var h := H.HebrewFromFixed(d);
    var newYear := H.FixedFromHebrew(H.HebrewDate(h.year, 7, 1));
    var passover := H.FixedFromHebrew(H.HebrewDate(h.year, 1, 15));
    var longHeshvan := H.LastDayOfMonth(8, h.year) == 30;
    var shortKislev := H.LastDayOfMonth(9, h.year) == 29;
    var kind := match (longHeshvan, shortKislev)
                case (true, false) => Complete
                case (false, true) => Incomplete
                case _ => Regular;
    TishriNewYear(h.year);
    slot := SlotFrom(SelectTable(newYear % 7, kind, passover % 7), newYear, d);
    if d >= H.FIRST_DAY {
      hide SlotFrom, TableOf;
      SaturdayFound(h, d);
    }
  }

  lemma TishriNewYear(year: int)
    ensures H.Fixed(H.HebrewDate(year, 7, 1)) == H.NewYear(year)
  {
    hide H.NewYear;
    H.TishriFirst(year);
  }

  /** The slot of day `d` in a table, if there is such a slot, in a year that begins on day `newYear`. */
  function SlotFrom(selected: Option<Table>, newYear: int, d: int): Option<Slot> {
    match selected
    case None => None
    case Some(table) =>
      var firstSaturday := newYear + 6 - newYear % 7;
      var saturday := TruncDiv(d - firstSaturday, 7);
      if 0 <= saturday < |table.slots| then table.slots[saturday] else None
  }

  /** A Saturday has a slot in the table of its year. */
  lemma SaturdayFound(h: H.HebrewDate, d: int)
    requires H.IsDate(h) && H.Fixed(h) == d && d % 7 == 6
    ensures IsSlotOf(h.year, d, SlotFrom(TableOf(h.year), H.NewYear(h.year), d))
  {
    hide TableOf, H.NewYear, H.LastDayOfMonth, H.Fixed, H.InTable;
    H.DateWithinYear(h);
    SlotForEverySaturday(h.year, d);
  }

  // --- Where the fourteen arms end -----------------------------------------------------------------

  /** Year 0 is a regular year from a Thursday with its Passover on a Monday: it reaches the fallback. */
  lemma YearZeroFallsThrough()
    ensures TableOf(0) == None
  {
    hide Y.ElapsedDays, SelectTable, H.NewYear, H.LastDayOfMonth;
    Y.YearZero();
    H.NewYearBeforeFirst(0);
    H.TableDaysByLength(0);
    H.SpringMonths(0);
    assert Y.DaysInYear(0) == 354 && H.NewYear(0) % 7 == 4;
    RegularYear(0);
    assert Passover(0) == H.NewYear(0) + 221;
    RegularThursdayMonday();
  }

  lemma RegularYear(year: int)
    requires Y.DaysInYear(year) == 354
    ensures Kind(year) == Regular && !H.LongHeshvan(year) && !H.ShortKislev(year)
  {
    hide Y.DaysInYear;
  }

  lemma RegularThursdayMonday()
    ensures SelectTable(4, Regular, 1) == None
  {
    hide SaturdayIncompleteSunday, SaturdayCompleteTuesday, MondayIncompleteTuesday, MondayCompleteThursday,
         TuesdayRegularThursday, ThursdayRegularSaturday, ThursdayCompleteSunday, SaturdayIncompleteTuesday,
         SaturdayCompleteThursday, MondayIncompleteThursday, MondayCompleteSaturday, TuesdayRegularSaturday,
         ThursdayIncompleteSunday, ThursdayCompleteTuesday;
  }

  /** Exactly from when on every year selects a table: from year 1. */
  lemma TablesFromYearOne(from: int)
    ensures (forall year :: year >= from ==> TableOf(year).Some?) <==> from >= 1
  {
    hide TableOf, H.NewYear, Y.DaysInYear;
    if from >= 1 {
      forall year | year >= from
        ensures TableOf(year).Some?
      {
        EveryYearServed(year);
      }
    } else {
      YearZeroFallsThrough();
    }
  }

  lemma NoPortionInYearZero(d: int)
    requires H.NewYear(0) <= d < H.FIRST_DAY
    ensures ParashaOn(d) == None
  {
    hide TableOf, H.NewYear, H.DateOn;
    H.NewYearBeforeFirst(0);
    H.YearFound(d);
    H.YearOfDate(d);
    var year := H.DateOn(d).year;
    if year < 0 {
      H.NewYearsIncrease(year + 1, 0);
    }
    YearZeroFallsThrough();
  }

  // --- The reading cycle over the years ------------------------------------------------------------

  /** Everything a community reads on the Saturdays of `n` consecutive years. */
  function ReadingsOver(year: int, n: nat, c: Community): seq<nat>
    requires year >= 1
  {
    if n == 0 then [] else
      match TableOf(year + n - 1)
      case None => []
      case Some(t) => ReadingsOver(year, n - 1, c) + t.Readings(c)
  }

  /**
   The fourteen tables join into one unbroken cycle. Over any run of Hebrew years, in the diaspora and
   in Israel alike, the Saturdays read the 53 portions in order, over and over, none skipped or repeated,
   although festivals displace some weeks and combine others.
   */
  lemma {:induction false} CycleUnbroken(year: int, n: nat, c: Community)
    requires year >= 1
    ensures var readings := ReadingsOver(year, n, c);
            && (forall i :: 0 <= i < |readings| ==> readings[i] == (DueAtNewYear(year) + i) % PORTIONS)
            && DueAtNewYear(year + n) == (DueAtNewYear(year) + |readings|) % PORTIONS
  {
    hide TableOf, H.NewYear, Y.DaysInYear, Table.Due, Table.Readings;
    if n > 0 {
      CycleUnbroken(year, n - 1, c);
      var last := year + n - 1;
      EveryYearServed(last);
      var t := TableOf(last).value;
      ReadInTurn(t, c, DueAtNewYear(last));
      ContinueCycle(DueAtNewYear(year), ReadingsOver(year, n - 1, c), t.Readings(c));
    }
  }

  lemma ContinueCycle(start: int, before: seq<nat>, after: seq<nat>)
    requires forall i :: 0 <= i < |before| ==> before[i] == (start + i) % PORTIONS
    requires forall i :: 0 <= i < |after| ==> after[i] == ((start + |before|) % PORTIONS + i) % PORTIONS
    ensures forall i :: 0 <= i < |before + after| ==> (before + after)[i] == (start + i) % PORTIONS
    ensures ((start + |before|) % PORTIONS + |after|) % PORTIONS == (start + |before + after|) % PORTIONS
  {
    forall i | |before| <= i < |before + after|
      ensures (before + after)[i] == (start + i) % PORTIONS
    {
      PortionOfSum(start + |before|, i - |before|);
    }
    PortionOfSum(start + |before|, |after|);
  }

  lemma PortionOfSum(a: int, b: int)
    ensures (a % PORTIONS + b) % PORTIONS == (a + b) % PORTIONS
  {
    var s := a % PORTIONS + b;
    DivModUnique(a + b, PORTIONS, a / PORTIONS + s / PORTIONS, s % PORTIONS);
  }
}
