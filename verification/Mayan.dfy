/** The Mayan long count, haab and tzolkin, and the search for the days that carry given names. */
module Mayan {
  import opened Arithmetic

  const DAYS_BEFORE_ZERO := 1137142

  datatype LongCount = LongCount(baktun: int, katun: int, tun: int, uinal: int, kin: int)

  /** Day 0 to 19 of a month 1 to 19. */
  datatype Haab = Haab(day: int, month: int)

  /** Number 1 to 13 and name 1 to 20. */
  datatype Tzolkin = Tzolkin(number: int, name: int)

  function LongCountOf(f: int): LongCount {
    var lc := f + DAYS_BEFORE_ZERO;
    var dayOfBaktun := lc % 144000;
    var dayOfKatun := dayOfBaktun % 7200;
    var dayOfTun := dayOfKatun % 360;
    LongCount(lc / 144000, dayOfBaktun / 7200, dayOfKatun / 360, dayOfTun / 20, dayOfTun % 20)
  }

  function FixedFromLongCount(c: LongCount): int {
    c.baktun * 144000 + c.katun * 7200 + c.tun * 360 + c.uinal * 20 + c.kin - DAYS_BEFORE_ZERO
  }

  /** Long counts are a mixed-radix notation for all days: each day has one, with every digit in range. */
  lemma LongCountBijection(f: int, c: LongCount)
    ensures FixedFromLongCount(LongCountOf(f)) == f
    ensures LongCountOf(FixedFromLongCount(c)) == c
            <==> 0 <= c.katun < 20 && 0 <= c.tun < 20 && 0 <= c.uinal < 18 && 0 <= c.kin < 20
  {
    var inTun := c.uinal * 20 + c.kin;
    var inKatun := c.tun * 360 + inTun;
    var inBaktun := c.katun * 7200 + inKatun;
    if 0 <= c.katun < 20 && 0 <= c.tun < 20 && 0 <= c.uinal < 18 && 0 <= c.kin < 20 {
      DivModUnique(c.baktun * 144000 + inBaktun, 144000, c.baktun, inBaktun);
      DivModUnique(inBaktun, 7200, c.katun, inKatun);
      DivModUnique(inKatun, 360, c.tun, inTun);
      DivModUnique(inTun, 20, c.uinal, c.kin);
    }
  }

  function HaabOf(f: int): Haab {
    var dayOfHaab := (f + DAYS_BEFORE_ZERO + 8 + 20 * (18 - 1)) % 365;
    Haab(dayOfHaab % 20, dayOfHaab / 20 + 1)
  }

  function TzolkinOf(f: int): Tzolkin {
    var lc := f + DAYS_BEFORE_ZERO;
    Tzolkin((lc + 4 - 1) % 13 + 1, (lc + 20 - 1) % 20 + 1)
  }

  // --- Periods ------------------------------------------------------------------------------------

  lemma HaabPeriod(f: int, k: int)
    ensures HaabOf(f + 365 * k) == HaabOf(f)
  {
    var n := f + DAYS_BEFORE_ZERO + 348;
    DivModUnique(n + 365 * k, 365, n / 365 + k, n % 365);
  }

  lemma TzolkinPeriod(f: int, k: int)
    ensures TzolkinOf(f + 260 * k) == TzolkinOf(f)
  {
    var n := f + DAYS_BEFORE_ZERO;
    DivModUnique(n + 3 + 260 * k, 13, (n + 3) / 13 + 20 * k, (n + 3) % 13);
    DivModUnique(n + 19 + 260 * k, 20, (n + 19) / 20 + 13 * k, (n + 19) % 20);
  }

  /** A haab date and a tzolkin date together: the calendar round. */
  predicate Carries(f: int, haab: Haab, tzolkin: Tzolkin) {
    HaabOf(f) == haab && TzolkinOf(f) == tzolkin
  }

  /** The two cycles of 365 and 260 days meet again after 18980. */
  lemma RoundPeriod(f: int, k: int, haab: Haab, tzolkin: Tzolkin)
    ensures Carries(f + 18980 * k, haab, tzolkin) <==> Carries(f, haab, tzolkin)
  {
    hide HaabOf, TzolkinOf;
    HaabPeriod(f, 52 * k);
    TzolkinPeriod(f, 73 * k);
  }

  /** They do not meet earlier: days that carry the same pair are whole rounds apart. */
  lemma RoundsApart(d: int, e: int, haab: Haab, tzolkin: Tzolkin)
    requires Carries(d, haab, tzolkin) && Carries(e, haab, tzolkin)
    ensures (e - d) % 18980 == 0
  {
    HaabDay(d, haab);
    HaabDay(e, haab);
    hide HaabOf;
    var m, n := d + DAYS_BEFORE_ZERO, e + DAYS_BEFORE_ZERO;
    var p := (n + 348) / 365 - (m + 348) / 365;
    var q := (n + 3) / 13 - (m + 3) / 13;
    var r := (n + 19) / 20 - (m + 19) / 20;
    assert 365 * p == e - d == 13 * q == 20 * r;
    var u, v := r - 18 * p, q - 28 * p;
    assert 4 * u == p == 13 * v;
    DivModUnique(e - d, 18980, u - 3 * v, 0);
  }

  /** The day among the `period` days past `from` that is a whole number of periods from `d`. */
  function Representative(from: int, d: int, period: int, forward: bool): int
    requires period > 0
  {
    if forward then from + 1 + (d - from - 1) % period else from - 1 - (from - 1 - d) % period
  }

  lemma RepresentativeInReach(from: int, d: int, period: int, forward: bool)
    requires period > 0
    ensures var r := Representative(from, d, period, forward);
            && (if forward then from < r <= from + period else from - period <= r < from)
            && exists k :: r == d + period * k
  {
    var r := Representative(from, d, period, forward);
    var k := if forward then -((d - from - 1) / period) else (from - 1 - d) / period;
    assert r == d + period * k by {
      if !forward {
        var n := from - 1 - d;
        assert n == period * (n / period) + n % period;
      }
    }
  }

  // --- The searches ---------------------------------------------------------------------------------

  /** Strictly past `from` in the direction of the search. */
  predicate Past(from: int, d: int, forward: bool) {
    if forward then d > from else d < from
  }

  /** The nearest day past `from` with the haab date; `from` itself when no day at all has it. */
  method NextHaab(from: int, target: Haab, forward: bool) returns (f: int)
    ensures f == from <==> forall d :: HaabOf(d) != target
    ensures f != from ==> HaabOf(f) == target && Past(from, f, forward)
    ensures forall d :: Past(from, d, forward) && Past(d, f, forward) ==> HaabOf(d) != target
  {
    hide HaabOf;
    var step := if forward then 1 else -1;
    f := from + step;
    for n := 0 to 365
      invariant f == from + step * (n + 1)
      invariant forall d :: Past(from, d, forward) && Past(d, f, forward) ==> HaabOf(d) != target
    {
      if HaabOf(f) == target {
        return;
      }
      f := f + step;
    }
    forall d
      ensures HaabOf(d) != target
    {
      var r := Representative(from, d, 365, forward);
      RepresentativeInReach(from, d, 365, forward);
      var k :| r == d + 365 * k;
      HaabPeriod(d, k);
      assert Past(from, r, forward) && Past(r, f, forward);
    }
    f := from;
  }

  /** The nearest day past `from` with the tzolkin date; `from` itself when no day at all has it. */
  method NextTzolkin(from: int, target: Tzolkin, forward: bool) returns (f: int)
    ensures f == from <==> forall d :: TzolkinOf(d) != target
    ensures f != from ==> TzolkinOf(f) == target && Past(from, f, forward)
    ensures forall d :: Past(from, d, forward) && Past(d, f, forward) ==> TzolkinOf(d) != target
  {
    hide TzolkinOf;
    var step := if forward then 1 else -1;
    f := from + step;
    for n := 0 to 260
      invariant f == from + step * (n + 1)
      invariant forall d :: Past(from, d, forward) && Past(d, f, forward) ==> TzolkinOf(d) != target
    {
      if TzolkinOf(f) == target {
        return;
      }
      f := f + step;
    }
    forall d
      ensures TzolkinOf(d) != target
    {
      var r := Representative(from, d, 260, forward);
      RepresentativeInReach(from, d, 260, forward);
      var k :| r == d + 260 * k;
      TzolkinPeriod(d, k);
      assert Past(from, r, forward) && Past(r, f, forward);
    }
    f := from;
  }

  /** The nearest day past `from` with both dates; `from` itself when no day at all carries the pair. */
  method NextRound(from: int, haab: Haab, tzolkin: Tzolkin, forward: bool) returns (f: int)
    ensures f == from <==> forall d :: !Carries(d, haab, tzolkin)
    ensures f != from ==> Carries(f, haab, tzolkin) && Past(from, f, forward)
    ensures forall d :: Past(from, d, forward) && Past(d, f, forward) ==> !Carries(d, haab, tzolkin)
  {
    hide HaabOf, TzolkinOf;
    var step := if forward then 1 else -1;
    f := from + step;
    for n := 0 to 18980
      invariant f == from + step * (n + 1)
      invariant forall d :: Past(from, d, forward) && Past(d, f, forward) ==> !Carries(d, haab, tzolkin)
    {
      if HaabOf(f) == haab && TzolkinOf(f) == tzolkin {
        assert Carries(f, haab, tzolkin);
        return;
      }
      f := f + step;
    }
    forall d
      ensures !Carries(d, haab, tzolkin)
    {
      var r := Representative(from, d, 18980, forward);
      RepresentativeInReach(from, d, 18980, forward);
      var k :| r == d + 18980 * k;
      RoundPeriod(d, k, haab, tzolkin);
      assert Past(from, r, forward) && Past(r, f, forward);
    }
    f := from;
  }

  // --- Which pairs occur ------------------------------------------------------------------------------

  predicate IsHaab(h: Haab) {
    0 <= h.day < (if h.month == 19 then 5 else 20) && 1 <= h.month <= 19
  }

  predicate IsTzolkin(t: Tzolkin) {
    1 <= t.number <= 13 && 1 <= t.name <= 20
  }

  lemma HaabDay(f: int, h: Haab)
    ensures HaabOf(f) == h <==> IsHaab(h) && (f + DAYS_BEFORE_ZERO + 348) % 365 == h.day + 20 * (h.month - 1)
  {
    var n := (f + DAYS_BEFORE_ZERO + 348) % 365;
    if IsHaab(h) && n == h.day + 20 * (h.month - 1) {
      DivModUnique(n, 20, h.month - 1, h.day);
    }
  }

  /**
   The cycles of 365 and 260 days share the factor 5, so a haab and a tzolkin date fall together on some
   day exactly when the tzolkin name is two more than the haab day, modulo 5.
   */
  lemma PairOccurs(haab: Haab, tzolkin: Tzolkin)
    ensures (exists d :: Carries(d, haab, tzolkin))
            <==> IsHaab(haab) && IsTzolkin(tzolkin) && (tzolkin.name - haab.day) % 5 == 2
  {
    if IsHaab(haab) && IsTzolkin(tzolkin) && (tzolkin.name - haab.day) % 5 == 2 {
      var d := Meeting(haab, tzolkin);
      MeetingCarries(haab, tzolkin);
      assert Carries(d, haab, tzolkin);
    }
    forall d | Carries(d, haab, tzolkin)
      ensures IsHaab(haab) && IsTzolkin(tzolkin) && (tzolkin.name - haab.day) % 5 == 2
    {
      PairCongruence(d, haab, tzolkin);
    }
  }

  lemma PairCongruence(d: int, haab: Haab, tzolkin: Tzolkin)
    requires Carries(d, haab, tzolkin)
    ensures IsHaab(haab) && IsTzolkin(tzolkin) && (tzolkin.name - haab.day) % 5 == 2
  {
    HaabDay(d, haab);
    hide HaabOf;
    var lc := d + DAYS_BEFORE_ZERO;
    var p, q := (lc + 348) / 365, (lc + 19) / 20;
    var j := 73 * p + 4 * (haab.month - 1) - 4 * q - 66;
    assert tzolkin.name - haab.day == 2 + 5 * j;
    DivModUnique(2 + 5 * j, 5, j, 2);
  }

  /** A day that carries the pair, by the Chinese remainder theorem on 4 and 13. */
  function Meeting(haab: Haab, tzolkin: Tzolkin): int {
    var a := haab.day + 20 * (haab.month - 1) - 348;
    var p := (tzolkin.name - a) / 5;
    var q := tzolkin.number - 4 - a;
    a + 365 * (13 * p + 40 * q) - DAYS_BEFORE_ZERO
  }

  lemma MeetingCarries(haab: Haab, tzolkin: Tzolkin)
    requires IsHaab(haab) && IsTzolkin(tzolkin) && (tzolkin.name - haab.day) % 5 == 2
    ensures Carries(Meeting(haab, tzolkin), haab, tzolkin)
  {
    hide HaabOf;
    var a := haab.day + 20 * (haab.month - 1) - 348;
    var p, q := (tzolkin.name - a) / 5, tzolkin.number - 4 - a;
    var j := (tzolkin.name - haab.day) / 5 - 4 * (haab.month - 1) + 70;
    DivModUnique(tzolkin.name - a, 5, j, 0);
    var d := Meeting(haab, tzolkin);
    var lc := d + DAYS_BEFORE_ZERO;
    DivModUnique(lc + 348, 365, 13 * p + 40 * q, a + 348);
    HaabDay(d, haab);
    assert lc + 3 == 13 * (365 * p + 1123 * q) + tzolkin.number - 1;
    DivModUnique(lc + 3, 13, 365 * p + 1123 * q, tzolkin.number - 1);
    assert lc + 19 == 20 * (237 * p + 730 * q + 1) + tzolkin.name - 1;
    DivModUnique(lc + 19, 20, 237 * p + 730 * q + 1, tzolkin.name - 1);
  }

  // --- From one day to the next -----------------------------------------------------------------------------

  /** The next haab date: the next day of the month, else the first of the next month; the last month has five days. */
  function NextHaabDate(h: Haab): Haab {
    if h.day + 1 < (if h.month == 19 then 5 else 20) then Haab(h.day + 1, h.month)
    else Haab(0, if h.month == 19 then 1 else h.month + 1)
  }

  /** The next tzolkin date: number and name go on together, each from its last to its first. */
  function NextTzolkinDate(t: Tzolkin): Tzolkin {
    Tzolkin(if t.number == 13 then 1 else t.number + 1, if t.name == 20 then 1 else t.name + 1)
  }

  /** The next long count: an odometer of 20 days, 18 uinals, 20 tuns and 20 katuns. */
  function NextLongCount(c: LongCount): LongCount {
    if c.kin < 19 then c.(kin := c.kin + 1)
    else if c.uinal < 17 then c.(uinal := c.uinal + 1, kin := 0)
    else if c.tun < 19 then c.(tun := c.tun + 1, uinal := 0, kin := 0)
    else if c.katun < 19 then c.(katun := c.katun + 1, tun := 0, uinal := 0, kin := 0)
    else LongCount(c.baktun + 1, 0, 0, 0, 0)
  }

  /** All three names go on from day to day. */
  lemma NamesOfNextDay(f: int)
    ensures HaabOf(f + 1) == NextHaabDate(HaabOf(f))
    ensures TzolkinOf(f + 1) == NextTzolkinDate(TzolkinOf(f))
    ensures LongCountOf(f + 1) == NextLongCount(LongCountOf(f))
  {
    hide HaabOf, TzolkinOf, LongCountOf;
    HaabOfNext(f);
    TzolkinOfNext(f);
    LongCountOfNext(f);
  }

  /** The thirteenth baktun ended on 21 December 2012. */
  lemma EndOfThirteenthBaktun()
    ensures LongCountOf(734858) == LongCount(13, 0, 0, 0, 0)
    ensures HaabOf(734858) == Haab(3, 14) && TzolkinOf(734858) == Tzolkin(4, 20)
  {
  }

  lemma HaabOfNext(f: int)
    ensures HaabOf(f + 1) == NextHaabDate(HaabOf(f))
  {
    var h := HaabOf(f);
    HaabDay(f, h);
    var n := f + DAYS_BEFORE_ZERO + 348;
    var r := n % 365;
    if r < 364 {
      DivModUnique(n + 1, 365, n / 365, r + 1);
    } else {
      DivModUnique(n + 1, 365, n / 365 + 1, 0);
    }
    HaabDay(f + 1, NextHaabDate(h));
  }

  lemma StepOfCycle(n: int, period: int)
    requires period > 1
    ensures (n + 1) % period == if n % period == period - 1 then 0 else n % period + 1
  {
    var r := n % period;
    if r == period - 1 {
      DivModUnique(n + 1, period, n / period + 1, 0);
    } else {
      DivModUnique(n + 1, period, n / period, r + 1);
    }
  }

  lemma TzolkinOfNext(f: int)
    ensures TzolkinOf(f + 1) == NextTzolkinDate(TzolkinOf(f))
  {
    StepOfCycle(f + DAYS_BEFORE_ZERO + 3, 13);
    StepOfCycle(f + DAYS_BEFORE_ZERO + 19, 20);
  }

  lemma LongCountOfNext(f: int)
    ensures LongCountOf(f + 1) == NextLongCount(LongCountOf(f))
  {
    var c := LongCountOf(f);
    LongCountBijection(f, c);
    LongCountBijection(f + 1, NextLongCount(c));
    hide LongCountOf;
    assert FixedFromLongCount(NextLongCount(c)) == f + 1;
  }
}
