/** The readings of the Torah portions on the Saturdays of the fourteen kinds of Hebrew year. */
module ParashaTables {
  import opened Wrappers

  /** One Saturday's reading: a portion, or two read together. Portions are numbered 0 to 52. */
  datatype Reading = Single(n: nat) | Combined(a: nat, b: nat)

  /** What is read on a Saturday: the same everywhere, or ahead in Israel by some weeks. */
  datatype Slot = Uniform(reading: Reading) | Differing(diaspora: Option<Reading>, israel: Reading)

  datatype Community = Diaspora | Israel

  const PORTIONS := 53

  function ReadingIn(slot: Option<Slot>, c: Community): Option<Reading> {
    match slot
    case None => None
    case Some(Uniform(r)) => Some(r)
    case Some(Differing(d, i)) => if c.Diaspora? then d else Some(i)
  }

  function Portions(r: Option<Reading>): seq<nat> {
    match r
    case None => []
    case Some(Single(n)) => [n]
    case Some(Combined(a, b)) => [a, b]
  }

  predicate InIsraelOnly(slot: Option<Slot>) {
    slot.Some? && slot.value.Differing? && slot.value.diaspora == None
  }

  predicate IsIdleSlot(slot: Slot) {
    slot.Differing? && slot.diaspora == Some(slot.israel)
  }

  predicate IsDouble(reading: Option<Reading>, r: Reading) {
    reading == Some(r) && r.Combined?
  }

  /** The portion due after a reading, when `due` was due before it; -1 if it was read out of turn. */
  function After(r: Option<Reading>, due: int): int {
    match r
    case None => due
    case Some(Single(n)) => if n == due then (n + 1) % PORTIONS else -1
    case Some(Combined(a, b)) => if a == due && b == a + 1 < PORTIONS then (b + 1) % PORTIONS else -1
  }

  /** The Saturdays of a year, in order. */
  datatype Table = Table(slots: seq<Option<Slot>>) {

    /** The portions read over the year, in order. */
    function Readings(c: Community): seq<nat>
      decreases |slots|
    {
      if slots == [] then []
      else Table(slots[..|slots| - 1]).Readings(c) + Portions(ReadingIn(slots[|slots| - 1], c))
    }

    /** The portion due after the year when `from` was due before it; -1 if any was out of turn. */
    function Due(c: Community, from: int): int
      decreases |slots|
    {
      if slots == [] then from
      else After(ReadingIn(slots[|slots| - 1], c), Table(slots[..|slots| - 1]).Due(c, from))
    }

    /** Is Saturday `i` without a reading? */
    predicate IsGap(i: nat) {
      i < |slots| && slots[i] == None
    }

    /** Does only Israel read on Saturday `i`? */
    predicate IsIsraelWeek(i: nat) {
      i < |slots| && InIsraelOnly(slots[i])
    }

    /** Is portion 43 read alone, everywhere, on Saturday `i`? */
    predicate IsDevarimWeek(i: nat) {
      i < |slots| && slots[i] == Some(Uniform(Single(43)))
    }

    /** Are the two communities told apart on Saturday `i` though they read the same? */
    predicate IsIdle(i: nat) {
      i < |slots| && slots[i].Some? && IsIdleSlot(slots[i].value)
    }

    /** Are two portions read together in this way? */
    predicate Joins(c: Community, r: Reading)
      decreases |slots|
    {
      && slots != []
      && (IsDouble(ReadingIn(slots[|slots| - 1], c), r) || Table(slots[..|slots| - 1]).Joins(c, r))
    }

    function Add(slot: Option<Slot>): (t: Table)
      ensures |t.slots| == |slots| + 1
      ensures forall c: Community, from: int :: t.Due(c, from) == After(ReadingIn(slot, c), Due(c, from))
      ensures forall i: nat :: t.IsGap(i) <==> IsGap(i) || (i == |slots| && slot == None)
      ensures forall i: nat :: t.IsIsraelWeek(i) <==> IsIsraelWeek(i) || (i == |slots| && InIsraelOnly(slot))
      ensures forall i: nat :: t.IsDevarimWeek(i) <==> IsDevarimWeek(i) || (i == |slots| && slot == Some(Uniform(Single(43))))
      ensures forall i: nat :: t.IsIdle(i) <==> IsIdle(i) || (i == |slots| && slot.Some? && IsIdleSlot(slot.value))
      ensures forall c: Community, r: Reading :: t.Joins(c, r) <==> Joins(c, r) || IsDouble(ReadingIn(slot, c), r)
    {
      var t := Table(slots + [slot]);
      assert t.slots[..|t.slots| - 1] == slots;
      t
    }

    /** A Saturday whose reading a festival displaces. */
    function Gap(): (t: Table)
      ensures |t.slots| == |slots| + 1
      ensures forall c: Community, from: int :: t.Due(c, from) == Due(c, from)
      ensures forall i: nat :: t.IsGap(i) <==> IsGap(i) || (i == |slots|)
      ensures forall i: nat :: t.IsIsraelWeek(i) <==> IsIsraelWeek(i)
      ensures forall i: nat :: t.IsDevarimWeek(i) <==> IsDevarimWeek(i)
      ensures forall i: nat :: t.IsIdle(i) <==> IsIdle(i)
      ensures forall c: Community, r: Reading :: t.Joins(c, r) <==> Joins(c, r)
    {
      Add(None)
    }

    function Week(n: nat): (t: Table)
      ensures |t.slots| == |slots| + 1
      ensures forall c: Community, from: int ::
                t.Due(c, from) == if Due(c, from) == n then (n + 1) % PORTIONS else -1
      ensures forall i: nat :: t.IsGap(i) <==> IsGap(i)
      ensures forall i: nat :: t.IsIsraelWeek(i) <==> IsIsraelWeek(i)
      ensures forall i: nat :: t.IsDevarimWeek(i) <==> IsDevarimWeek(i) || (i == |slots| && n == 43)
      ensures forall i: nat :: t.IsIdle(i) <==> IsIdle(i)
      ensures forall c: Community, r: Reading :: t.Joins(c, r) <==> Joins(c, r)
    {
      Add(Some(Uniform(Single(n))))
    }

    /** Portions `a` to `b`, one a week. */
    function Weeks(a: nat, b: nat): (t: Table)
      requires a <= b < PORTIONS
      ensures |t.slots| == |slots| + (b - a + 1)
      ensures forall c: Community, from: int ::
                t.Due(c, from) == if Due(c, from) == a then (b + 1) % PORTIONS else -1
      ensures forall i: nat :: t.IsGap(i) <==> IsGap(i)
      ensures forall i: nat :: t.IsIsraelWeek(i) <==> IsIsraelWeek(i)
      ensures forall i: nat :: t.IsDevarimWeek(i) <==> IsDevarimWeek(i) || (i == |slots| + 43 - a && a <= 43 <= b)
      ensures forall i: nat :: t.IsIdle(i) <==> IsIdle(i)
      ensures forall c: Community, r: Reading :: t.Joins(c, r) <==> Joins(c, r)
    {
      if a == b then Week(b) else Weeks(a, b - 1).Week(b)
    }

    function Pair(a: nat, b: nat): (t: Table)
      ensures |t.slots| == |slots| + 1
      ensures forall c: Community, from: int ::
                t.Due(c, from) == if Due(c, from) == a && b == a + 1 < PORTIONS then (b + 1) % PORTIONS else -1
      ensures forall i: nat :: t.IsGap(i) <==> IsGap(i)
      ensures forall i: nat :: t.IsIsraelWeek(i) <==> IsIsraelWeek(i)
      ensures forall i: nat :: t.IsDevarimWeek(i) <==> IsDevarimWeek(i)
      ensures forall i: nat :: t.IsIdle(i) <==> IsIdle(i)
      ensures forall c: Community, r: Reading :: t.Joins(c, r) <==> Joins(c, r) || r == Combined(a, b)
    {
      Add(Some(Uniform(Combined(a, b))))
    }

    /** A week in which the diaspora keeps the festival and Israel reads on. */
    function IsraelOnly(n: nat): (t: Table)
      ensures |t.slots| == |slots| + 1
      ensures forall from: int :: t.Due(Diaspora, from) == Due(Diaspora, from)
      ensures forall from: int ::
                t.Due(Israel, from) == if Due(Israel, from) == n then (n + 1) % PORTIONS else -1
      ensures forall i: nat :: t.IsGap(i) <==> IsGap(i)
      ensures forall i: nat :: t.IsIsraelWeek(i) <==> IsIsraelWeek(i) || (i == |slots|)
      ensures forall i: nat :: t.IsDevarimWeek(i) <==> IsDevarimWeek(i)
      ensures forall i: nat :: t.IsIdle(i) <==> IsIdle(i)
      ensures forall c: Community, r: Reading :: t.Joins(c, r) <==> Joins(c, r)
    {
      Add(Some(Differing(None, Single(n))))
    }

    /** The diaspora reads `a` to `b`, one a week, and Israel is one portion ahead. */
    function Ahead(a: nat, b: nat): (t: Table)
      requires a <= b < PORTIONS - 1
      ensures |t.slots| == |slots| + (b - a + 1)
      ensures forall from: int :: t.Due(Diaspora, from) == if Due(Diaspora, from) == a then b + 1 else -1
      ensures forall from: int ::
                t.Due(Israel, from) == if Due(Israel, from) == a + 1 then (b + 2) % PORTIONS else -1
      ensures forall i: nat :: t.IsGap(i) <==> IsGap(i)
      ensures forall i: nat :: t.IsIsraelWeek(i) <==> IsIsraelWeek(i)
      ensures forall i: nat :: t.IsDevarimWeek(i) <==> IsDevarimWeek(i)
      ensures forall i: nat :: t.IsIdle(i) <==> IsIdle(i)
      ensures forall c: Community, r: Reading :: t.Joins(c, r) <==> Joins(c, r)
    {
      var before := if a == b then this else Ahead(a, b - 1);
      before.Add(Some(Differing(Some(Single(b)), Single(b + 1))))
    }

    function Split(diaspora: Reading, israel: Reading): (t: Table)
      ensures |t.slots| == |slots| + 1
      ensures forall from: int :: t.Due(Diaspora, from) == After(Some(diaspora), Due(Diaspora, from))
      ensures forall from: int :: t.Due(Israel, from) == After(Some(israel), Due(Israel, from))
      ensures forall i: nat :: t.IsGap(i) <==> IsGap(i)
      ensures forall i: nat :: t.IsIsraelWeek(i) <==> IsIsraelWeek(i)
      ensures forall i: nat :: t.IsDevarimWeek(i) <==> IsDevarimWeek(i)
      ensures forall i: nat :: t.IsIdle(i) <==> IsIdle(i) || (i == |slots| && diaspora == israel)
      ensures forall r: Reading :: t.Joins(Diaspora, r) <==> Joins(Diaspora, r) || IsDouble(Some(diaspora), r)
      ensures forall r: Reading :: t.Joins(Israel, r) <==> Joins(Israel, r) || IsDouble(Some(israel), r)
    {
      Add(Some(Differing(Some(diaspora), israel)))
    }
  }

  function Start(): (t: Table)
    ensures |t.slots| == 0
    ensures forall c: Community, from: int :: t.Due(c, from) == from
    ensures forall i: nat :: !t.IsGap(i) && !t.IsIsraelWeek(i) && !t.IsDevarimWeek(i) && !t.IsIdle(i)
    ensures forall c: Community, r: Reading :: !t.Joins(c, r)
  {
    Table([])
  }

  /** A table whose readings are never out of turn lists consecutive portions, starting over after the last. */
  lemma {:induction false} ReadInTurn(t: Table, c: Community, from: int)
    requires 0 <= from < PORTIONS && t.Due(c, from) >= 0
    ensures forall i :: 0 <= i < |t.Readings(c)| ==> t.Readings(c)[i] == (from + i) % PORTIONS
    ensures t.Due(c, from) == (from + |t.Readings(c)|) % PORTIONS
    decreases |t.slots|
  {
    if t.slots != [] {
      var s := Table(t.slots[..|t.slots| - 1]);
      var last := ReadingIn(t.slots[|t.slots| - 1], c);
      assert t.Due(c, from) == After(last, s.Due(c, from)) && t.Readings(c) == s.Readings(c) + Portions(last);
      hide Table.Due, Table.Readings, Portions, ReadingIn;
      ReadInTurn(s, c, from);
      NextInTurn(s.Readings(c), last, from);
    }
  }

  lemma NextInTurn(before: seq<nat>, r: Option<Reading>, from: int)
    requires 0 <= from < PORTIONS && After(r, (from + |before|) % PORTIONS) >= 0
    requires forall i :: 0 <= i < |before| ==> before[i] == (from + i) % PORTIONS
    ensures var all := before + Portions(r);
            && (forall i :: 0 <= i < |all| ==> all[i] == (from + i) % PORTIONS)
            && After(r, (from + |before|) % PORTIONS) == (from + |all|) % PORTIONS
  {
    NextPortion(from + |before|);
  }

  lemma NextPortion(x: int)
    ensures (x % PORTIONS + 1) % PORTIONS == (x + 1) % PORTIONS
    ensures x % PORTIONS + 1 < PORTIONS ==> (x % PORTIONS + 2) % PORTIONS == (x + 2) % PORTIONS
    ensures x % PORTIONS + 1 < PORTIONS ==> (x + 1) % PORTIONS == x % PORTIONS + 1
  {
  }

  // --- The fourteen tables, named by New Year weekday, year length and Passover weekday ----------

  function SaturdayIncompleteSunday(): (t: Table)
    ensures |t.slots| == 51
    ensures t.Due(Diaspora, 52) == 51 && t.Due(Israel, 52) == 51
  {
    hide Table.Due, Table.Add, Table.Gap, Table.Week, Table.Weeks, Table.Pair, Table.IsraelOnly, Table.Ahead, Table.Split,
         Table.IsGap, Table.IsIsraelWeek, Table.IsDevarimWeek, Table.IsIdle, Table.Joins;
    Start().Gap().Week(52).Gap().Gap().Weeks(0, 20).Pair(21, 22).Weeks(23, 24).Gap().Week(25).Pair(26, 27)
    .Pair(28, 29).Week(30).Pair(31, 32).Weeks(33, 40).Pair(41, 42).Weeks(43, 50)
  }

  function SaturdayCompleteTuesday(): (t: Table)
    ensures |t.slots| == 51
    ensures t.Due(Diaspora, 52) == 52 && t.Due(Israel, 52) == 52
  {
    hide Table.Due, Table.Add, Table.Gap, Table.Week, Table.Weeks, Table.Pair, Table.IsraelOnly, Table.Ahead, Table.Split,
         Table.IsGap, Table.IsIsraelWeek, Table.IsDevarimWeek, Table.IsIdle, Table.Joins;
    Start().Gap().Week(52).Gap().Gap().Weeks(0, 20).Pair(21, 22).Weeks(23, 24).Gap().Week(25).Pair(26, 27)
    .Pair(28, 29).Week(30).Pair(31, 32).Weeks(33, 40).Pair(41, 42).Weeks(43, 49).Pair(50, 51)
  }

  function MondayIncompleteTuesday(): (t: Table)
    ensures |t.slots| == 50
    ensures t.Due(Diaspora, 51) == 52 && t.Due(Israel, 51) == 52
  {
    hide Table.Due, Table.Add, Table.Gap, Table.Week, Table.Weeks, Table.Pair, Table.IsraelOnly, Table.Ahead, Table.Split,
         Table.IsGap, Table.IsIsraelWeek, Table.IsDevarimWeek, Table.IsIdle, Table.Joins;
    Start().Weeks(51, 52).Gap().Weeks(0, 20).Pair(21, 22).Weeks(23, 24).Gap().Week(25).Pair(26, 27)
    .Pair(28, 29).Week(30).Pair(31, 32).Weeks(33, 40).Pair(41, 42).Weeks(43, 49).Pair(50, 51)
  }

  function MondayCompleteThursday(): (t: Table)
    ensures |t.slots| == 50
    ensures t.Due(Diaspora, 51) == 52 && t.Due(Israel, 51) == 52
  {
    hide Table.Due, Table.Add, Table.Gap, Table.Week, Table.Weeks, Table.Pair, Table.IsraelOnly, Table.Ahead, Table.Split,
         Table.IsGap, Table.IsIsraelWeek, Table.IsDevarimWeek, Table.IsIdle, Table.Joins;
    Start().Weeks(51, 52).Gap().Weeks(0, 20).Pair(21, 22).Weeks(23, 24).Gap().Week(25).Pair(26, 27)
    .Pair(28, 29).Week(30).Pair(31, 32).Week(33).IsraelOnly(34).Ahead(34, 37)
    .Split(Combined(38, 39), Single(39)).Week(40).Pair(41, 42).Weeks(43, 49).Pair(50, 51)
  }

  function TuesdayRegularThursday(): (t: Table)
    ensures |t.slots| == 50
    ensures t.Due(Diaspora, 51) == 52 && t.Due(Israel, 51) == 52
  {
    hide MondayCompleteThursday; MondayCompleteThursday()
  }

  function ThursdayRegularSaturday(): (t: Table)
    ensures |t.slots| == 51
    ensures t.Due(Diaspora, 52) == 51 && t.Due(Israel, 52) == 51
  {
    hide Table.Due, Table.Add, Table.Gap, Table.Week, Table.Weeks, Table.Pair, Table.IsraelOnly, Table.Ahead, Table.Split,
         Table.IsGap, Table.IsIsraelWeek, Table.IsDevarimWeek, Table.IsIdle, Table.Joins;
    Start().Week(52).Gap().Gap().Weeks(0, 20).Pair(21, 22).Weeks(23, 24).Gap().IsraelOnly(25)
    .Split(Single(25), Combined(26, 27)).Split(Combined(26, 27), Combined(28, 29))
    .Split(Combined(28, 29), Single(30)).Ahead(30, 30).Split(Combined(31, 32), Single(32)).Weeks(33, 40)
    .Pair(41, 42).Weeks(43, 50)
  }

  function ThursdayCompleteSunday(): (t: Table)
    ensures |t.slots| == 51
    ensures t.Due(Diaspora, 52) == 51 && t.Due(Israel, 52) == 51
  {
    hide Table.Due, Table.Add, Table.Gap, Table.Week, Table.Weeks, Table.Pair, Table.IsraelOnly, Table.Ahead, Table.Split,
         Table.IsGap, Table.IsIsraelWeek, Table.IsDevarimWeek, Table.IsIdle, Table.Joins;
    Start().Week(52).Gap().Gap().Weeks(0, 24).Gap().Week(25).Pair(26, 27).Pair(28, 29).Week(30)
    .Pair(31, 32).Weeks(33, 40).Pair(41, 42).Weeks(43, 50)
  }

  function SaturdayIncompleteTuesday(): (t: Table)
    ensures |t.slots| == 55
    ensures t.Due(Diaspora, 52) == 52 && t.Due(Israel, 52) == 52
  {
    hide Table.Due, Table.Add, Table.Gap, Table.Week, Table.Weeks, Table.Pair, Table.IsraelOnly, Table.Ahead, Table.Split,
         Table.IsGap, Table.IsIsraelWeek, Table.IsDevarimWeek, Table.IsIdle, Table.Joins;
    Start().Gap().Week(52).Gap().Gap().Weeks(0, 27).Gap().Weeks(28, 40).Pair(41, 42).Weeks(43, 49)
    .Pair(50, 51)
  }

  function SaturdayCompleteThursday(): (t: Table)
    ensures |t.slots| == 55
    ensures t.Due(Diaspora, 52) == 52 && t.Due(Israel, 52) == 52
  {
    hide Table.Due, Table.Add, Table.Gap, Table.Week, Table.Weeks, Table.Pair, Table.IsraelOnly, Table.Ahead, Table.Split,
         Table.IsGap, Table.IsIsraelWeek, Table.IsDevarimWeek, Table.IsIdle, Table.Joins;
    Start().Gap().Week(52).Gap().Gap().Weeks(0, 27).Gap().Weeks(28, 33).IsraelOnly(34).Ahead(34, 37)
    .Split(Combined(38, 39), Single(39)).Week(40).Pair(41, 42).Weeks(43, 49).Pair(50, 51)
  }

  function MondayIncompleteThursday(): (t: Table)
    ensures |t.slots| == 54
    ensures t.Due(Diaspora, 51) == 52 && t.Due(Israel, 51) == 52
  {
    hide Table.Due, Table.Add, Table.Gap, Table.Week, Table.Weeks, Table.Pair, Table.IsraelOnly, Table.Ahead, Table.Split,
         Table.IsGap, Table.IsIsraelWeek, Table.IsDevarimWeek, Table.IsIdle, Table.Joins;
    Start().Weeks(51, 52).Gap().Weeks(0, 27).Gap().Weeks(28, 33).IsraelOnly(34).Ahead(34, 37)
    .Split(Combined(38, 39), Single(39)).Week(40).Pair(41, 42).Weeks(43, 49).Pair(50, 51)
  }

  function MondayCompleteSaturday(): (t: Table)
    ensures |t.slots| == 55
    ensures t.Due(Diaspora, 51) == 51 && t.Due(Israel, 51) == 51
  {
    hide Table.Due, Table.Add, Table.Gap, Table.Week, Table.Weeks, Table.Pair, Table.IsraelOnly, Table.Ahead, Table.Split,
         Table.IsGap, Table.IsIsraelWeek, Table.IsDevarimWeek, Table.IsIdle, Table.Joins;
    Start().Weeks(51, 52).Gap().Weeks(0, 27).Gap().IsraelOnly(28).Ahead(28, 40)
    .Split(Combined(41, 42), Single(42)).Weeks(43, 50)
  }

  function TuesdayRegularSaturday(): (t: Table)
    ensures |t.slots| == 55
    ensures t.Due(Diaspora, 51) == 51 && t.Due(Israel, 51) == 51
  {
    hide MondayCompleteSaturday; MondayCompleteSaturday()
  }

  function ThursdayIncompleteSunday(): (t: Table)
    ensures |t.slots| == 55
    ensures t.Due(Diaspora, 52) == 51 && t.Due(Israel, 52) == 51
  {
    hide Table.Due, Table.Add, Table.Gap, Table.Week, Table.Weeks, Table.Pair, Table.IsraelOnly, Table.Ahead, Table.Split,
         Table.IsGap, Table.IsIsraelWeek, Table.IsDevarimWeek, Table.IsIdle, Table.Joins;
    Start().Week(52).Gap().Gap().Weeks(0, 28).Gap().Weeks(29, 50)
  }

  function ThursdayCompleteTuesday(): (t: Table)
    ensures |t.slots| == 55
    ensures t.Due(Diaspora, 52) == 52 && t.Due(Israel, 52) == 52
  {
    hide Table.Due, Table.Add, Table.Gap, Table.Week, Table.Weeks, Table.Pair, Table.IsraelOnly, Table.Ahead, Table.Split,
         Table.IsGap, Table.IsIsraelWeek, Table.IsDevarimWeek, Table.IsIdle, Table.Joins;
    Start().Week(52).Gap().Gap().Weeks(0, 28).Gap().Weeks(29, 49).Pair(50, 51)
  }
}
