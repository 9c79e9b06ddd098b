/** The weekly portion by its date: which Saturdays a festival displaces, and which portions are read together. */
module ParashaWeeks {
  import opened Wrappers
  import opened Arithmetic
  import opened ParashaTables
  import opened Parasha
  import Y = HebrewYear
  import H = HebrewDates

  // --- The rules, in days since the New Year ----------------------------------------------------------

  /** Day of the year of a Saturday. */
  function DayOf(newYear: int, i: nat): int {
    6 - newYear + 7 * i
  }

  /** New Year, the Day of Atonement, Tabernacles with its eighth day, and the seven days of Passover. */
  predicate IsFestival(day: int, length: int) {
    day in {0, 9} || 14 <= day <= 21 || length - 163 <= day <= length - 157
  }

  /** The days the diaspora adds: the eighth of Passover and the second of Weeks. */
  predicate IsAddedDay(day: int, length: int) {
    day == length - 156 || day == length - 112
  }

  /** The week that ends with 9 Av. */
  predicate InWeekOfNinthOfAv(day: int, length: int) {
    length - 57 <= day <= length - 51
  }

  /**
   Which portions a community joins with the next in a year: most pairs in a common year, where weeks are
   short; 38 only where the diaspora lost the second day of Weeks; 50 when the next year starts late in the week.
   */
  predicate IsJoined(a: nat, c: Community, newYear: int, length: int) {
    var leap, passover, next := length > 360, (newYear + length - 163) % 7, (newYear + length) % 7;
    match a
    case 21 => !leap && !(newYear == 4 && length == 355)
    case 26 => !leap
    case 28 => !leap
    case 31 => !leap && !(c.Israel? && passover == 6)
    case 38 => c.Diaspora? && passover == 4
    case 41 => !(leap && newYear == 4) && !(leap && c.Israel? && passover == 6)
    case 50 => next == 4 || next == 6
    case _ => false
  }

  ghost predicate KeepsWeeks(t: Table, newYear: int, length: int) {
    forall i: nat :: i < |t.slots| ==>
      && (t.IsGap(i) <==> IsFestival(DayOf(newYear, i), length))
      && (t.IsIsraelWeek(i) <==> IsAddedDay(DayOf(newYear, i), length))
      && (t.IsDevarimWeek(i) <==> InWeekOfNinthOfAv(DayOf(newYear, i), length))
      && !t.IsIdle(i)
  }

  ghost predicate KeepsJoins(t: Table, newYear: int, length: int) {
    forall c: Community, r: Reading ::
      t.Joins(c, r) <==> r.Combined? && r.b == r.a + 1 && IsJoined(r.a, c, newYear, length)
  }

  // --- The fourteen tables keep the rules --------------------------------------------------------------

  /** The weeks of a table, as lists of Saturdays. */
  ghost predicate Lists(t: Table, gaps: set<nat>, israel: set<nat>, devarim: nat) {
    forall i: nat ::
      && (t.IsGap(i) <==> i in gaps)
      && (t.IsIsraelWeek(i) <==> i in israel)
      && (t.IsDevarimWeek(i) <==> i == devarim)
      && !t.IsIdle(i)
  }

  lemma SaturdayIncompleteSundayLists()
    ensures Lists(SaturdayIncompleteSunday(), {0, 2, 3, 28}, {}, 43)
  {
    hide Table.Due, Table.Add, Table.Gap, Table.Week, Table.Weeks, Table.Pair, Table.IsraelOnly, Table.Ahead, Table.Split,
         Table.IsGap, Table.IsIsraelWeek, Table.IsDevarimWeek, Table.IsIdle, Table.Joins;
  }

  lemma SaturdayIncompleteSundayJoins(r: Reading)
    ensures SaturdayIncompleteSunday().Joins(Diaspora, r) <==> r in {Combined(21, 22), Combined(26, 27),
        Combined(28, 29), Combined(31, 32), Combined(41, 42)}
    ensures SaturdayIncompleteSunday().Joins(Israel, r) <==> r in {Combined(21, 22), Combined(26, 27),
        Combined(28, 29), Combined(31, 32), Combined(41, 42)}
  {
    hide Table.Due, Table.Add, Table.Gap, Table.Week, Table.Weeks, Table.Pair, Table.IsraelOnly, Table.Ahead, Table.Split,
         Table.IsGap, Table.IsIsraelWeek, Table.IsDevarimWeek, Table.IsIdle, Table.Joins;
  }

  lemma SaturdayIncompleteSundayKept()
    ensures KeepsWeeks(SaturdayIncompleteSunday(), 6, 353) && KeepsJoins(SaturdayIncompleteSunday(), 6, 353)
  {
    hide SaturdayIncompleteSunday, Table.IsGap, Table.IsIsraelWeek, Table.IsDevarimWeek, Table.IsIdle, Table.Joins;
    SaturdayIncompleteSundayLists();
    forall c: Community, r: Reading
      ensures SaturdayIncompleteSunday().Joins(c, r) <==> r.Combined? && r.b == r.a + 1 && IsJoined(r.a, c, 6, 353)
    {
      SaturdayIncompleteSundayJoins(r);
      assert c == Diaspora || c == Israel;
    }
  }

  lemma SaturdayCompleteTuesdayLists()
    ensures Lists(SaturdayCompleteTuesday(), {0, 2, 3, 28}, {}, 43)
  {
    hide Table.Due, Table.Add, Table.Gap, Table.Week, Table.Weeks, Table.Pair, Table.IsraelOnly, Table.Ahead, Table.Split,
         Table.IsGap, Table.IsIsraelWeek, Table.IsDevarimWeek, Table.IsIdle, Table.Joins;
  }

  lemma SaturdayCompleteTuesdayJoins(r: Reading)
    ensures SaturdayCompleteTuesday().Joins(Diaspora, r) <==> r in {Combined(21, 22), Combined(26, 27),
        Combined(28, 29), Combined(31, 32), Combined(41, 42), Combined(50, 51)}
    ensures SaturdayCompleteTuesday().Joins(Israel, r) <==> r in {Combined(21, 22), Combined(26, 27),
        Combined(28, 29), Combined(31, 32), Combined(41, 42), Combined(50, 51)}
  {
    hide Table.Due, Table.Add, Table.Gap, Table.Week, Table.Weeks, Table.Pair, Table.IsraelOnly, Table.Ahead, Table.Split,
         Table.IsGap, Table.IsIsraelWeek, Table.IsDevarimWeek, Table.IsIdle, Table.Joins;
  }

  lemma SaturdayCompleteTuesdayKept()
    ensures KeepsWeeks(SaturdayCompleteTuesday(), 6, 355) && KeepsJoins(SaturdayCompleteTuesday(), 6, 355)
  {
    hide SaturdayCompleteTuesday, Table.IsGap, Table.IsIsraelWeek, Table.IsDevarimWeek, Table.IsIdle, Table.Joins;
    SaturdayCompleteTuesdayLists();
    forall c: Community, r: Reading
      ensures SaturdayCompleteTuesday().Joins(c, r) <==> r.Combined? && r.b == r.a + 1 && IsJoined(r.a, c, 6, 355)
    {
      SaturdayCompleteTuesdayJoins(r);
      assert c == Diaspora || c == Israel;
    }
  }

  lemma MondayIncompleteTuesdayLists()
    ensures Lists(MondayIncompleteTuesday(), {2, 27}, {}, 42)
  {
    hide Table.Due, Table.Add, Table.Gap, Table.Week, Table.Weeks, Table.Pair, Table.IsraelOnly, Table.Ahead, Table.Split,
         Table.IsGap, Table.IsIsraelWeek, Table.IsDevarimWeek, Table.IsIdle, Table.Joins;
  }

  lemma MondayIncompleteTuesdayJoins(r: Reading)
    ensures MondayIncompleteTuesday().Joins(Diaspora, r) <==> r in {Combined(21, 22), Combined(26, 27),
        Combined(28, 29), Combined(31, 32), Combined(41, 42), Combined(50, 51)}
    ensures MondayIncompleteTuesday().Joins(Israel, r) <==> r in {Combined(21, 22), Combined(26, 27),
        Combined(28, 29), Combined(31, 32), Combined(41, 42), Combined(50, 51)}
  {
    hide Table.Due, Table.Add, Table.Gap, Table.Week, Table.Weeks, Table.Pair, Table.IsraelOnly, Table.Ahead, Table.Split,
         Table.IsGap, Table.IsIsraelWeek, Table.IsDevarimWeek, Table.IsIdle, Table.Joins;
  }

  lemma MondayIncompleteTuesdayKept()
    ensures KeepsWeeks(MondayIncompleteTuesday(), 1, 353) && KeepsJoins(MondayIncompleteTuesday(), 1, 353)
  {
    hide MondayIncompleteTuesday, Table.IsGap, Table.IsIsraelWeek, Table.IsDevarimWeek, Table.IsIdle, Table.Joins;
    MondayIncompleteTuesdayLists();
    forall c: Community, r: Reading
      ensures MondayIncompleteTuesday().Joins(c, r) <==> r.Combined? && r.b == r.a + 1 && IsJoined(r.a, c, 1, 353)
    {
      MondayIncompleteTuesdayJoins(r);
      assert c == Diaspora || c == Israel;
    }
  }

  lemma MondayCompleteThursdayLists()
    ensures Lists(MondayCompleteThursday(), {2, 27}, {34}, 42)
  {
    hide Table.Due, Table.Add, Table.Gap, Table.Week, Table.Weeks, Table.Pair, Table.IsraelOnly, Table.Ahead, Table.Split,
         Table.IsGap, Table.IsIsraelWeek, Table.IsDevarimWeek, Table.IsIdle, Table.Joins;
  }

  lemma MondayCompleteThursdayJoins(r: Reading)
    ensures MondayCompleteThursday().Joins(Diaspora, r) <==> r in {Combined(21, 22), Combined(26, 27),
        Combined(28, 29), Combined(31, 32), Combined(38, 39), Combined(41, 42), Combined(50, 51)}
    ensures MondayCompleteThursday().Joins(Israel, r) <==> r in {Combined(21, 22), Combined(26, 27),
        Combined(28, 29), Combined(31, 32), Combined(41, 42), Combined(50, 51)}
  {
    hide Table.Due, Table.Add, Table.Gap, Table.Week, Table.Weeks, Table.Pair, Table.IsraelOnly, Table.Ahead, Table.Split,
         Table.IsGap, Table.IsIsraelWeek, Table.IsDevarimWeek, Table.IsIdle, Table.Joins;
  }

  lemma MondayCompleteThursdayKept()
    ensures KeepsWeeks(MondayCompleteThursday(), 1, 355) && KeepsJoins(MondayCompleteThursday(), 1, 355)
  {
    hide MondayCompleteThursday, Table.IsGap, Table.IsIsraelWeek, Table.IsDevarimWeek, Table.IsIdle, Table.Joins;
    MondayCompleteThursdayLists();
    forall c: Community, r: Reading
      ensures MondayCompleteThursday().Joins(c, r) <==> r.Combined? && r.b == r.a + 1 && IsJoined(r.a, c, 1, 355)
    {
      MondayCompleteThursdayJoins(r);
      assert c == Diaspora || c == Israel;
    }
  }

  lemma TuesdayRegularThursdayLists()
    ensures Lists(TuesdayRegularThursday(), {2, 27}, {34}, 42)
  {
    hide MondayCompleteThursday;
    MondayCompleteThursdayLists();
  }

  lemma TuesdayRegularThursdayJoins(r: Reading)
    ensures TuesdayRegularThursday().Joins(Diaspora, r) <==> r in {Combined(21, 22), Combined(26, 27),
        Combined(28, 29), Combined(31, 32), Combined(38, 39), Combined(41, 42), Combined(50, 51)}
    ensures TuesdayRegularThursday().Joins(Israel, r) <==> r in {Combined(21, 22), Combined(26, 27),
        Combined(28, 29), Combined(31, 32), Combined(41, 42), Combined(50, 51)}
  {
    hide MondayCompleteThursday;
    MondayCompleteThursdayJoins(r);
  }

  lemma TuesdayRegularThursdayKept()
    ensures KeepsWeeks(TuesdayRegularThursday(), 2, 354) && KeepsJoins(TuesdayRegularThursday(), 2, 354)
  {
    hide TuesdayRegularThursday, Table.IsGap, Table.IsIsraelWeek, Table.IsDevarimWeek, Table.IsIdle, Table.Joins;
    TuesdayRegularThursdayLists();
    forall c: Community, r: Reading
      ensures TuesdayRegularThursday().Joins(c, r) <==> r.Combined? && r.b == r.a + 1 && IsJoined(r.a, c, 2, 354)
    {
      TuesdayRegularThursdayJoins(r);
      assert c == Diaspora || c == Israel;
    }
  }

  lemma ThursdayRegularSaturdayLists()
    ensures Lists(ThursdayRegularSaturday(), {1, 2, 27}, {28}, 43)
  {
    hide Table.Due, Table.Add, Table.Gap, Table.Week, Table.Weeks, Table.Pair, Table.IsraelOnly, Table.Ahead, Table.Split,
         Table.IsGap, Table.IsIsraelWeek, Table.IsDevarimWeek, Table.IsIdle, Table.Joins;
  }

  lemma ThursdayRegularSaturdayJoins(r: Reading)
    ensures ThursdayRegularSaturday().Joins(Diaspora, r) <==> r in {Combined(21, 22), Combined(26, 27),
        Combined(28, 29), Combined(31, 32), Combined(41, 42)}
    ensures ThursdayRegularSaturday().Joins(Israel, r) <==> r in {Combined(21, 22), Combined(26, 27),
        Combined(28, 29), Combined(41, 42)}
  {
    hide Table.Due, Table.Add, Table.Gap, Table.Week, Table.Weeks, Table.Pair, Table.IsraelOnly, Table.Ahead, Table.Split,
         Table.IsGap, Table.IsIsraelWeek, Table.IsDevarimWeek, Table.IsIdle, Table.Joins;
  }

  lemma ThursdayRegularSaturdayKept()
    ensures KeepsWeeks(ThursdayRegularSaturday(), 4, 354) && KeepsJoins(ThursdayRegularSaturday(), 4, 354)
  {
    hide ThursdayRegularSaturday, Table.IsGap, Table.IsIsraelWeek, Table.IsDevarimWeek, Table.IsIdle, Table.Joins;
    ThursdayRegularSaturdayLists();
    forall c: Community, r: Reading
      ensures ThursdayRegularSaturday().Joins(c, r) <==> r.Combined? && r.b == r.a + 1 && IsJoined(r.a, c, 4, 354)
    {
      ThursdayRegularSaturdayJoins(r);
      assert c == Diaspora || c == Israel;
    }
  }

  lemma ThursdayCompleteSundayLists()
    ensures Lists(ThursdayCompleteSunday(), {1, 2, 28}, {}, 43)
  {
    hide Table.Due, Table.Add, Table.Gap, Table.Week, Table.Weeks, Table.Pair, Table.IsraelOnly, Table.Ahead, Table.Split,
         Table.IsGap, Table.IsIsraelWeek, Table.IsDevarimWeek, Table.IsIdle, Table.Joins;
  }

  lemma ThursdayCompleteSundayJoins(r: Reading)
    ensures ThursdayCompleteSunday().Joins(Diaspora, r) <==> r in {Combined(26, 27), Combined(28, 29),
        Combined(31, 32), Combined(41, 42)}
    ensures ThursdayCompleteSunday().Joins(Israel, r) <==> r in {Combined(26, 27), Combined(28, 29),
        Combined(31, 32), Combined(41, 42)}
  {
    hide Table.Due, Table.Add, Table.Gap, Table.Week, Table.Weeks, Table.Pair, Table.IsraelOnly, Table.Ahead, Table.Split,
         Table.IsGap, Table.IsIsraelWeek, Table.IsDevarimWeek, Table.IsIdle, Table.Joins;
  }

  lemma ThursdayCompleteSundayKept()
    ensures KeepsWeeks(ThursdayCompleteSunday(), 4, 355) && KeepsJoins(ThursdayCompleteSunday(), 4, 355)
  {
    hide ThursdayCompleteSunday, Table.IsGap, Table.IsIsraelWeek, Table.IsDevarimWeek, Table.IsIdle, Table.Joins;
    ThursdayCompleteSundayLists();
    forall c: Community, r: Reading
      ensures ThursdayCompleteSunday().Joins(c, r) <==> r.Combined? && r.b == r.a + 1 && IsJoined(r.a, c, 4, 355)
    {
      ThursdayCompleteSundayJoins(r);
      assert c == Diaspora || c == Israel;
    }
  }

  lemma SaturdayIncompleteTuesdayLists()
    ensures Lists(SaturdayIncompleteTuesday(), {0, 2, 3, 32}, {}, 47)
  {
    hide Table.Due, Table.Add, Table.Gap, Table.Week, Table.Weeks, Table.Pair, Table.IsraelOnly, Table.Ahead, Table.Split,
         Table.IsGap, Table.IsIsraelWeek, Table.IsDevarimWeek, Table.IsIdle, Table.Joins;
  }

  lemma SaturdayIncompleteTuesdayJoins(r: Reading)
    ensures SaturdayIncompleteTuesday().Joins(Diaspora, r) <==> r in {Combined(41, 42), Combined(50, 51)}
    ensures SaturdayIncompleteTuesday().Joins(Israel, r) <==> r in {Combined(41, 42), Combined(50, 51)}
  {
    hide Table.Due, Table.Add, Table.Gap, Table.Week, Table.Weeks, Table.Pair, Table.IsraelOnly, Table.Ahead, Table.Split,
         Table.IsGap, Table.IsIsraelWeek, Table.IsDevarimWeek, Table.IsIdle, Table.Joins;
  }

  lemma SaturdayIncompleteTuesdayKept()
    ensures KeepsWeeks(SaturdayIncompleteTuesday(), 6, 383) && KeepsJoins(SaturdayIncompleteTuesday(), 6, 383)
  {
    hide SaturdayIncompleteTuesday, Table.IsGap, Table.IsIsraelWeek, Table.IsDevarimWeek, Table.IsIdle, Table.Joins;
    SaturdayIncompleteTuesdayLists();
    forall c: Community, r: Reading
      ensures SaturdayIncompleteTuesday().Joins(c, r) <==> r.Combined? && r.b == r.a + 1 && IsJoined(r.a, c, 6, 383)
    {
      SaturdayIncompleteTuesdayJoins(r);
      assert c == Diaspora || c == Israel;
    }
  }

  lemma SaturdayCompleteThursdayLists()
    ensures Lists(SaturdayCompleteThursday(), {0, 2, 3, 32}, {39}, 47)
  {
    hide Table.Due, Table.Add, Table.Gap, Table.Week, Table.Weeks, Table.Pair, Table.IsraelOnly, Table.Ahead, Table.Split,
         Table.IsGap, Table.IsIsraelWeek, Table.IsDevarimWeek, Table.IsIdle, Table.Joins;
  }

  lemma SaturdayCompleteThursdayJoins(r: Reading)
    ensures SaturdayCompleteThursday().Joins(Diaspora, r) <==> r in {Combined(38, 39), Combined(41, 42),
        Combined(50, 51)}
    ensures SaturdayCompleteThursday().Joins(Israel, r) <==> r in {Combined(41, 42), Combined(50, 51)}
  {
    hide Table.Due, Table.Add, Table.Gap, Table.Week, Table.Weeks, Table.Pair, Table.IsraelOnly, Table.Ahead, Table.Split,
         Table.IsGap, Table.IsIsraelWeek, Table.IsDevarimWeek, Table.IsIdle, Table.Joins;
  }

  lemma SaturdayCompleteThursdayKept()
    ensures KeepsWeeks(SaturdayCompleteThursday(), 6, 385) && KeepsJoins(SaturdayCompleteThursday(), 6, 385)
  {
    hide SaturdayCompleteThursday, Table.IsGap, Table.IsIsraelWeek, Table.IsDevarimWeek, Table.IsIdle, Table.Joins;
    SaturdayCompleteThursdayLists();
    forall c: Community, r: Reading
      ensures SaturdayCompleteThursday().Joins(c, r) <==> r.Combined? && r.b == r.a + 1 && IsJoined(r.a, c, 6, 385)
    {
      SaturdayCompleteThursdayJoins(r);
      assert c == Diaspora || c == Israel;
    }
  }

  lemma MondayIncompleteThursdayLists()
    ensures Lists(MondayIncompleteThursday(), {2, 31}, {38}, 46)
  {
    hide Table.Due, Table.Add, Table.Gap, Table.Week, Table.Weeks, Table.Pair, Table.IsraelOnly, Table.Ahead, Table.Split,
         Table.IsGap, Table.IsIsraelWeek, Table.IsDevarimWeek, Table.IsIdle, Table.Joins;
  }

  lemma MondayIncompleteThursdayJoins(r: Reading)
    ensures MondayIncompleteThursday().Joins(Diaspora, r) <==> r in {Combined(38, 39), Combined(41, 42),
        Combined(50, 51)}
    ensures MondayIncompleteThursday().Joins(Israel, r) <==> r in {Combined(41, 42), Combined(50, 51)}
  {
    hide Table.Due, Table.Add, Table.Gap, Table.Week, Table.Weeks, Table.Pair, Table.IsraelOnly, Table.Ahead, Table.Split,
         Table.IsGap, Table.IsIsraelWeek, Table.IsDevarimWeek, Table.IsIdle, Table.Joins;
  }

  lemma MondayIncompleteThursdayKept()
    ensures KeepsWeeks(MondayIncompleteThursday(), 1, 383) && KeepsJoins(MondayIncompleteThursday(), 1, 383)
  {
    hide MondayIncompleteThursday, Table.IsGap, Table.IsIsraelWeek, Table.IsDevarimWeek, Table.IsIdle, Table.Joins;
    MondayIncompleteThursdayLists();
    forall c: Community, r: Reading
      ensures MondayIncompleteThursday().Joins(c, r) <==> r.Combined? && r.b == r.a + 1 && IsJoined(r.a, c, 1, 383)
    {
      MondayIncompleteThursdayJoins(r);
      assert c == Diaspora || c == Israel;
    }
  }

  lemma MondayCompleteSaturdayLists()
    ensures Lists(MondayCompleteSaturday(), {2, 31}, {32}, 47)
  {
    hide Table.Due, Table.Add, Table.Gap, Table.Week, Table.Weeks, Table.Pair, Table.IsraelOnly, Table.Ahead, Table.Split,
         Table.IsGap, Table.IsIsraelWeek, Table.IsDevarimWeek, Table.IsIdle, Table.Joins;
  }

  lemma MondayCompleteSaturdayJoins(r: Reading)
    ensures MondayCompleteSaturday().Joins(Diaspora, r) <==> r in {Combined(41, 42)}
    ensures MondayCompleteSaturday().Joins(Israel, r) <==> r in {}
  {
    hide Table.Due, Table.Add, Table.Gap, Table.Week, Table.Weeks, Table.Pair, Table.IsraelOnly, Table.Ahead, Table.Split,
         Table.IsGap, Table.IsIsraelWeek, Table.IsDevarimWeek, Table.IsIdle, Table.Joins;
  }

  lemma MondayCompleteSaturdayKept()
    ensures KeepsWeeks(MondayCompleteSaturday(), 1, 385) && KeepsJoins(MondayCompleteSaturday(), 1, 385)
  {
    hide MondayCompleteSaturday, Table.IsGap, Table.IsIsraelWeek, Table.IsDevarimWeek, Table.IsIdle, Table.Joins;
    MondayCompleteSaturdayLists();
    forall c: Community, r: Reading
      ensures MondayCompleteSaturday().Joins(c, r) <==> r.Combined? && r.b == r.a + 1 && IsJoined(r.a, c, 1, 385)
    {
      MondayCompleteSaturdayJoins(r);
      assert c == Diaspora || c == Israel;
    }
  }

  lemma TuesdayRegularSaturdayLists()
    ensures Lists(TuesdayRegularSaturday(), {2, 31}, {32}, 47)
  {
    hide MondayCompleteSaturday;
    MondayCompleteSaturdayLists();
  }

  lemma TuesdayRegularSaturdayJoins(r: Reading)
    ensures TuesdayRegularSaturday().Joins(Diaspora, r) <==> r in {Combined(41, 42)}
    ensures TuesdayRegularSaturday().Joins(Israel, r) <==> r in {}
  {
    hide MondayCompleteSaturday;
    MondayCompleteSaturdayJoins(r);
  }

  lemma TuesdayRegularSaturdayKept()
    ensures KeepsWeeks(TuesdayRegularSaturday(), 2, 384) && KeepsJoins(TuesdayRegularSaturday(), 2, 384)
  {
    hide TuesdayRegularSaturday, Table.IsGap, Table.IsIsraelWeek, Table.IsDevarimWeek, Table.IsIdle, Table.Joins;
    TuesdayRegularSaturdayLists();
    forall c: Community, r: Reading
      ensures TuesdayRegularSaturday().Joins(c, r) <==> r.Combined? && r.b == r.a + 1 && IsJoined(r.a, c, 2, 384)
    {
      TuesdayRegularSaturdayJoins(r);
      assert c == Diaspora || c == Israel;
    }
  }

  lemma ThursdayIncompleteSundayLists()
    ensures Lists(ThursdayIncompleteSunday(), {1, 2, 32}, {}, 47)
  {
    hide Table.Due, Table.Add, Table.Gap, Table.Week, Table.Weeks, Table.Pair, Table.IsraelOnly, Table.Ahead, Table.Split,
         Table.IsGap, Table.IsIsraelWeek, Table.IsDevarimWeek, Table.IsIdle, Table.Joins;
  }

  lemma ThursdayIncompleteSundayJoins(r: Reading)
    ensures ThursdayIncompleteSunday().Joins(Diaspora, r) <==> r in {}
    ensures ThursdayIncompleteSunday().Joins(Israel, r) <==> r in {}
  {
    hide Table.Due, Table.Add, Table.Gap, Table.Week, Table.Weeks, Table.Pair, Table.IsraelOnly, Table.Ahead, Table.Split,
         Table.IsGap, Table.IsIsraelWeek, Table.IsDevarimWeek, Table.IsIdle, Table.Joins;
  }

  lemma ThursdayIncompleteSundayKept()
    ensures KeepsWeeks(ThursdayIncompleteSunday(), 4, 383) && KeepsJoins(ThursdayIncompleteSunday(), 4, 383)
  {
    hide ThursdayIncompleteSunday, Table.IsGap, Table.IsIsraelWeek, Table.IsDevarimWeek, Table.IsIdle, Table.Joins;
    ThursdayIncompleteSundayLists();
    forall c: Community, r: Reading
      ensures ThursdayIncompleteSunday().Joins(c, r) <==> r.Combined? && r.b == r.a + 1 && IsJoined(r.a, c, 4, 383)
    {
      ThursdayIncompleteSundayJoins(r);
      assert c == Diaspora || c == Israel;
    }
  }

  lemma ThursdayCompleteTuesdayLists()
    ensures Lists(ThursdayCompleteTuesday(), {1, 2, 32}, {}, 47)
  {
    hide Table.Due, Table.Add, Table.Gap, Table.Week, Table.Weeks, Table.Pair, Table.IsraelOnly, Table.Ahead, Table.Split,
         Table.IsGap, Table.IsIsraelWeek, Table.IsDevarimWeek, Table.IsIdle, Table.Joins;
  }

  lemma ThursdayCompleteTuesdayJoins(r: Reading)
    ensures ThursdayCompleteTuesday().Joins(Diaspora, r) <==> r in {Combined(50, 51)}
    ensures ThursdayCompleteTuesday().Joins(Israel, r) <==> r in {Combined(50, 51)}
  {
    hide Table.Due, Table.Add, Table.Gap, Table.Week, Table.Weeks, Table.Pair, Table.IsraelOnly, Table.Ahead, Table.Split,
         Table.IsGap, Table.IsIsraelWeek, Table.IsDevarimWeek, Table.IsIdle, Table.Joins;
  }

  lemma ThursdayCompleteTuesdayKept()
    ensures KeepsWeeks(ThursdayCompleteTuesday(), 4, 385) && KeepsJoins(ThursdayCompleteTuesday(), 4, 385)
  {
    hide ThursdayCompleteTuesday, Table.IsGap, Table.IsIsraelWeek, Table.IsDevarimWeek, Table.IsIdle, Table.Joins;
    ThursdayCompleteTuesdayLists();
    forall c: Community, r: Reading
      ensures ThursdayCompleteTuesday().Joins(c, r) <==> r.Combined? && r.b == r.a + 1 && IsJoined(r.a, c, 4, 385)
    {
      ThursdayCompleteTuesdayJoins(r);
      assert c == Diaspora || c == Israel;
    }
  }

  // --- Every year keeps the rules ----------------------------------------------------------------------

  ghost predicate Keeps(table: Option<Table>, newYear: int, length: int) {
    table.Some? && KeepsWeeks(table.value, newYear, length) && KeepsJoins(table.value, newYear, length)
  }

  lemma CommonKeviahKept(newYear: int, length: int)
    requires Y.IsKeviah(newYear, length, false)
    ensures Keeps(SelectTable(newYear, KindOf(length), (newYear + length - 163) % 7), newYear, length)
  {
    hide KeepsWeeks, KeepsJoins, SaturdayIncompleteSunday, SaturdayCompleteTuesday, MondayIncompleteTuesday,
         MondayCompleteThursday, TuesdayRegularThursday, ThursdayRegularSaturday, ThursdayCompleteSunday,
         SaturdayIncompleteTuesday, SaturdayCompleteThursday, MondayIncompleteThursday, MondayCompleteSaturday,
         TuesdayRegularSaturday, ThursdayIncompleteSunday, ThursdayCompleteTuesday;
    match (newYear, length)
    case (6, 353) => SaturdayIncompleteSundayKept();
    case (6, 355) => SaturdayCompleteTuesdayKept();
    case (1, 353) => MondayIncompleteTuesdayKept();
    case (1, 355) => MondayCompleteThursdayKept();
    case (2, 354) => TuesdayRegularThursdayKept();
    case (4, 354) => ThursdayRegularSaturdayKept();
    case (4, 355) => ThursdayCompleteSundayKept();
    case _ =>
  }

  lemma LeapKeviahKept(newYear: int, length: int)
    requires Y.IsKeviah(newYear, length, true)
    ensures Keeps(SelectTable(newYear, KindOf(length), (newYear + length - 163) % 7), newYear, length)
  {
    hide KeepsWeeks, KeepsJoins, SaturdayIncompleteSunday, SaturdayCompleteTuesday, MondayIncompleteTuesday,
         MondayCompleteThursday, TuesdayRegularThursday, ThursdayRegularSaturday, ThursdayCompleteSunday,
         SaturdayIncompleteTuesday, SaturdayCompleteThursday, MondayIncompleteThursday, MondayCompleteSaturday,
         TuesdayRegularSaturday, ThursdayIncompleteSunday, ThursdayCompleteTuesday;
    match (newYear, length)
    case (6, 383) => SaturdayIncompleteTuesdayKept();
    case (6, 385) => SaturdayCompleteThursdayKept();
    case (1, 383) => MondayIncompleteThursdayKept();
    case (1, 385) => MondayCompleteSaturdayKept();
    case (2, 384) => TuesdayRegularSaturdayKept();
    case (4, 383) => ThursdayIncompleteSundayKept();
    case (4, 385) => ThursdayCompleteTuesdayKept();
    case _ =>
  }

  lemma YearKept(year: int)
    requires year >= 1
    ensures Keeps(TableOf(year), H.NewYear(year) % 7, Y.DaysInYear(year))
  {
    hide TableOf, SelectTable, KindOf, Keeps, H.NewYear, Y.DaysInYear, Y.IsKeviah;
    TableByKeviah(year);
    if Y.IsLeap(year) {
      LeapKeviahKept(H.NewYear(year) % 7, Y.DaysInYear(year));
    } else {
      CommonKeviahKept(H.NewYear(year) % 7, Y.DaysInYear(year));
    }
  }

  // --- The rules as dates ---------------------------------------------------------------------------------

  lemma SameDay(h: H.HebrewDate, month: nat, day: nat)
    requires H.IsDate(h) && H.IsDate(H.HebrewDate(h.year, month, day))
    ensures H.Fixed(h) == H.Fixed(H.HebrewDate(h.year, month, day)) <==> h.month == month && h.day == day
  {
    hide H.Fixed, H.InTable;
    if H.Fixed(h) == H.Fixed(H.HebrewDate(h.year, month, day)) {
      H.FixedInjective(h, H.HebrewDate(h.year, month, day));
    }
  }

  /** Days of the year of the dates the rules name. */
  lemma DaysOfDates(year: int, day: nat)
    requires year >= 1
    ensures var start, length := H.NewYear(year), Y.DaysInYear(year);
            && H.Fixed(H.HebrewDate(year, 7, day)) == start + day - 1
            && H.Fixed(H.HebrewDate(year, 1, day)) == start + length - 178 + day
            && H.Fixed(H.HebrewDate(year, 3, day)) == start + length - 119 + day
            && H.Fixed(H.HebrewDate(year, 5, day)) == start + length - 60 + day
  {
    hide H.NewYear, Y.DaysInYear, H.Fixed;
    H.AutumnMonthStarts(year);
    PassoverBeforeNewYear(year);
    H.NewYearGap(year);
    H.SpringMonthStarts(year, 3);
    H.SpringMonthStarts(year, 5);
    H.DayOfMonth(year, 1, 15);
    H.DayOfMonth(year, 7, day);
    H.DayOfMonth(year, 1, day);
    H.DayOfMonth(year, 3, day);
    H.DayOfMonth(year, 5, day);
  }

  lemma RealDays(year: int)
    requires year >= 1
    ensures forall day :: 1 <= day <= 30 ==> H.IsDate(H.HebrewDate(year, 7, day)) && H.IsDate(H.HebrewDate(year, 1, day))
    ensures H.IsDate(H.HebrewDate(year, 3, 7)) && H.IsDate(H.HebrewDate(year, 5, 9))
  {
  }

  /** The first of the year, 10 Tishri, 15 to 22 Tishri and 15 to 21 Nisan. */
  predicate IsFestivalDate(h: H.HebrewDate) {
    (h.month == 7 && (h.day in {1, 10} || 15 <= h.day <= 22)) || (h.month == 1 && 15 <= h.day <= 21)
  }

  /** 22 Nisan and 7 Sivan. */
  predicate IsAddedDate(h: H.HebrewDate) {
    (h.month == 1 && h.day == 22) || (h.month == 3 && h.day == 7)
  }

  lemma FestivalByDate(h: H.HebrewDate)
    requires H.IsDate(h)
    ensures IsFestival(H.Fixed(h) - H.NewYear(h.year), Y.DaysInYear(h.year)) <==> IsFestivalDate(h)
    ensures IsAddedDay(H.Fixed(h) - H.NewYear(h.year), Y.DaysInYear(h.year)) <==> IsAddedDate(h)
  {
    hide H.NewYear, Y.DaysInYear, H.Fixed, H.InTable;
    TishriByDay(h);
    NisanByDay(h);
    WeeksByDay(h);
    YearIsLong(h.year);
  }

  lemma YearIsLong(year: int)
    requires year >= 1
    ensures Y.DaysInYear(year) >= 353
  {
    hide Y.ElapsedDays;
    Y.KeviotExhaustive(year);
  }

  lemma TishriDay(h: H.HebrewDate)
    requires H.IsDate(h) && h.month == 7
    ensures H.Fixed(h) - H.NewYear(h.year) == h.day - 1
  {
    hide H.NewYear, H.Fixed, H.InTable;
    ShortMonth(h);
    DaysOfDates(h.year, h.day);
  }

  lemma TishriByDay(h: H.HebrewDate)
    requires H.IsDate(h)
    ensures var day := H.Fixed(h) - H.NewYear(h.year);
            (h.month == 7 <==> 0 <= day < 30) && (h.month == 7 ==> h.day == day + 1)
  {
    hide H.NewYear, H.Fixed, H.InTable;
    var day := H.Fixed(h) - H.NewYear(h.year);
    ShortMonth(h);
    if h.month == 7 {
      TishriDay(h);
    }
    if 0 <= day < 30 {
      RealDays(h.year);
      DaysOfDates(h.year, day + 1);
      SameDay(h, 7, day + 1);
    }
  }

  lemma NisanByDay(h: H.HebrewDate)
    requires H.IsDate(h)
    ensures var day := H.Fixed(h) - H.NewYear(h.year) - Y.DaysInYear(h.year) + 178;
            (h.month == 1 <==> 1 <= day <= 30) && (h.month == 1 ==> h.day == day)
  {
    hide H.NewYear, H.Fixed, H.InTable, Y.DaysInYear;
    var day := H.Fixed(h) - H.NewYear(h.year) - Y.DaysInYear(h.year) + 178;
    ShortMonth(h);
    DaysOfDates(h.year, h.day);
    if 1 <= day <= 30 {
      RealDays(h.year);
      DaysOfDates(h.year, day);
      SameDay(h, 1, day);
    }
  }

  lemma WeeksByDay(h: H.HebrewDate)
    requires H.IsDate(h)
    ensures H.Fixed(h) - H.NewYear(h.year) == Y.DaysInYear(h.year) - 112 <==> h.month == 3 && h.day == 7
  {
    hide H.NewYear, H.Fixed, H.InTable, Y.DaysInYear;
    RealDays(h.year);
    DaysOfDates(h.year, 7);
    SameDay(h, 3, 7);
    hide H.IsDate;
  }

  lemma ShortMonth(h: H.HebrewDate)
    requires H.IsDate(h)
    ensures 1 <= h.day <= 30 && h == H.HebrewDate(h.year, h.month, h.day)
  {
  }

  /** The slot of a Saturday, and the day of the year it is. */
  lemma SlotOfSaturday(f: int)
    requires f >= H.FIRST_DAY && f % 7 == 6
    ensures var year := H.DateOn(f).year;
            && year >= 1 && TableOf(year).Some?
            && H.NewYear(year) <= f < H.NewYear(year + 1)
            && var i := (f - FirstSaturday(year)) / 7;
               && 0 <= i < |TableOf(year).value.slots| && ParashaOn(f) == TableOf(year).value.slots[i]
               && f - H.NewYear(year) == DayOf(H.NewYear(year) % 7, i)
  {
    hide TableOf, SelectTable, H.NewYear, H.DateOn, H.Fixed, H.InTable;
    H.NamedFrom(f);
    H.YearFound(f);
    var h := H.DateOn(f);
    SaturdayFound(h, f);
    SlotForEverySaturday(h.year, f);
  }

  /**
   What is read on a Saturday of any year the calendar counts: nothing exactly on the festivals; in Israel alone
   exactly on the days that the diaspora adds; portion 43 exactly on the Saturday on or before 9 Av. Where the
   two communities are told apart, they differ.
   */
  lemma ReadByDate(f: int)
    requires f >= H.FIRST_DAY && f % 7 == 6
    ensures var h, slot := H.DateOn(f), ParashaOn(f);
            && (slot == None <==> IsFestivalDate(h))
            && (InIsraelOnly(slot) <==> IsAddedDate(h))
            && (slot == Some(Uniform(Single(43))) <==> var av := H.Fixed(H.HebrewDate(h.year, 5, 9)); av - 6 <= f <= av)
            && (slot.Some? ==> !IsIdleSlot(slot.value))
  {
    hide TableOf, SelectTable, H.NewYear, Y.DaysInYear, H.DateOn, H.Fixed, H.InTable, IsFestival, IsFestivalDate, IsAddedDay,
         IsAddedDate;
    SlotOfSaturday(f);
    H.NamedFrom(f);
    var h := H.DateOn(f);
    YearKept(h.year);
    FestivalByDate(h);
    DaysOfDates(h.year, 9);
    var i := (f - FirstSaturday(h.year)) / 7;
    assert TableOf(h.year).value.IsGap(i) <==> ParashaOn(f) == None;
    assert TableOf(h.year).value.IsIdle(i) <==> ParashaOn(f).Some? && IsIdleSlot(ParashaOn(f).value);
  }

  lemma {:induction false} JoinsOnSaturday(t: Table, c: Community, r: Reading)
    ensures t.Joins(c, r) <==> r.Combined? && exists i :: 0 <= i < |t.slots| && ReadingIn(t.slots[i], c) == Some(r)
    decreases |t.slots|
  {
    if t.slots != [] {
      var n := |t.slots| - 1;
      JoinsOnSaturday(Table(t.slots[..n]), c, r);
      assert forall i :: 0 <= i < n ==> t.slots[..n][i] == t.slots[i];
    }
  }

  /** Two portions are read together on some Saturday of a year exactly if the rules join them in that year. */
  lemma JoinedByYear(year: int, c: Community, r: Reading)
    requires year >= 1 && r.Combined?
    ensures (exists f :: H.NewYear(year) <= f < H.NewYear(year + 1) && f % 7 == 6 && ReadingIn(ParashaOn(f), c) == Some(r))
            <==> r.b == r.a + 1 && IsJoined(r.a, c, H.NewYear(year) % 7, Y.DaysInYear(year))
  {
    hide TableOf, SelectTable, H.NewYear, Y.DaysInYear, H.DateOn, ParashaOn, IsJoined, Table.Joins, ReadingIn;
    YearKept(year);
    var t := TableOf(year).value;
    JoinsOnSaturday(t, c, r);
    if f :| H.NewYear(year) <= f < H.NewYear(year + 1) && f % 7 == 6 && ReadingIn(ParashaOn(f), c) == Some(r) {
      YearOfDay(year, f);
      SlotOfSaturday(f);
    }
    if i :| 0 <= i < |t.slots| && ReadingIn(t.slots[i], c) == Some(r) {
      var f := FirstSaturday(year) + 7 * i;
      SaturdayOf(year, i);
      SlotForEverySaturday(year, f);
      YearOfDay(year, f);
      SlotOfSaturday(f);
      assert ReadingIn(ParashaOn(f), c) == Some(r);
    }
  }

  lemma SaturdayOf(year: int, i: nat)
    ensures (FirstSaturday(year) + 7 * i) % 7 == 6 && (FirstSaturday(year) + 7 * i - FirstSaturday(year)) / 7 == i
  {
    hide H.NewYear;
    var q := H.NewYear(year) / 7;
    DivModUnique(FirstSaturday(year) + 7 * i, 7, q + i, 6);
  }

  lemma YearOfDay(year: int, f: int)
    requires year >= 1 && H.NewYear(year) <= f < H.NewYear(year + 1)
    ensures f >= H.FIRST_DAY && H.DateOn(f).year == year
  {
    hide H.NewYear, H.DateOn;
    H.FirstNewYear();
    H.NewYearsIncrease(1, year);
    H.YearFound(f);
    var y := H.DateOn(f).year;
    if y < year {
      H.NewYearsIncrease(y + 1, year);
    } else if year < y {
      H.NewYearsIncrease(year + 1, y);
    }
  }
}
