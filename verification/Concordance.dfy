/** One day in every calendar: 1 January 2000, which anchors the calendars to one another. */
module Concordance {
  import G = Gregorian
  import Julian
  import Coptic
  import Y = HebrewYear
  import H = HebrewDates
  import Islamic
  import Persian
  import French
  import Bahai
  import Mayan

  const DAY := 730120

  lemma GregorianNames()
    ensures G.IsDate(G.Date(2000, 1, 1)) && G.Rd(G.Date(2000, 1, 1)) == DAY && G.FromRd(DAY) == G.Date(2000, 1, 1)
  {
    hide G.ToSerial, G.MarchFirst, G.FromRd;
    G.Anchors();
    G.SerialFromMarch(G.Date(2000, 1, 1));
    G.MarchFirstOfEra(1999, 4, 399);
    G.RdBijection(DAY, G.Date(2000, 1, 1));
  }

  lemma JulianNames()
    ensures Julian.FromFixed(DAY) == Julian.JulianDate(1999, 12, 19)
    ensures Julian.Fixed(Julian.JulianDate(1, 1, 1)) == Julian.EPOCH
  {
    Julian.RoundTrip(Julian.JulianDate(1999, 12, 19));
  }

  lemma CopticNames()
    ensures var d := Coptic.CopticDate(1716, 4, 22); Coptic.IsDate(d) && Coptic.Fixed(Coptic.COPTIC_EPOCH, d) == DAY
    ensures var d := Coptic.CopticDate(1992, 4, 22); Coptic.IsDate(d) && Coptic.Fixed(Coptic.ETHIOPIC_EPOCH, d) == DAY
  {
  }

  lemma HebrewNames()
    ensures H.DateOn(DAY) == H.HebrewDate(5760, 10, 23)
  {
    hide Y.ElapsedDays, H.DateOn;
    TwentyThirdOfTevet();
    H.DateRoundTrip(H.HebrewDate(5760, 10, 23));
  }

  lemma TwentyThirdOfTevet()
    ensures H.Fixed(H.HebrewDate(5760, 10, 23)) == DAY && H.IsDate(H.HebrewDate(5760, 10, 23))
  {
    hide Y.ElapsedDays;
    Y.ElapsedFromMolad(5760, 71229, 2103435, 23481);
    Y.ElapsedFromMolad(5761, 71242, 2103819, 20830);
    assert Y.ElapsedDays(5760) == 2103436 && Y.DaysInYear(5760) == 385;
    assert H.DaysInMonths(5760, 7, 8) == 30;
    assert H.DaysInMonths(5760, 7, 9) == 60;
    assert H.DaysInMonths(5760, 7, 10) == 90;
  }

  lemma IslamicNames()
    ensures forall d :: Islamic.IsDate(d) && Islamic.Fixed(d) == DAY <==> d == Islamic.IslamicDate(1420, 9, 24)
    ensures Islamic.Epoch() == 227015
  {
    var day := Islamic.IslamicDate(1420, 9, 24);
    assert Islamic.IsDate(day) && Islamic.Fixed(day) == DAY;
    Islamic.OnlyDate(day);
  }

  lemma PersianNames()
    ensures forall d :: Persian.IsDate(d) && Persian.Fixed(d) == DAY <==> d == Persian.PersianDate(1378, 10, 11)
    ensures Persian.Epoch() == 226896
  {
    Persian.DaysBeforeMonthTable(1378, 10);
    var day := Persian.PersianDate(1378, 10, 11);
    assert Persian.IsDate(day) && Persian.Fixed(day) == DAY;
    Persian.OnlyDate(day);
  }

  lemma FrenchNames()
    ensures forall d :: French.IsDate(d) && French.Fixed(d) == DAY <==> d == French.FrenchDate(208, 4, 12)
    ensures French.Epoch() == 654415
  {
    hide G.ToSerial, G.MarchFirst;
    G.Anchors();
    G.SerialFromMarch(G.Date(1792, 9, 22));
    G.MarchFirstOfEra(1792, 4, 192);
    var day := French.FrenchDate(208, 4, 12);
    assert French.IsDate(day) && French.Fixed(day) == DAY;
    French.OnlyDate(day);
  }

  lemma BahaiNames()
    ensures forall d :: Bahai.IsDate(d) && Bahai.Fixed(d) == DAY <==> d == Bahai.BahaiDate(156, 16, 2)
  {
    hide G.ToSerial, G.MarchFirst;
    G.Anchors();
    G.SerialFromMarch(G.Date(1999, 3, 21));
    G.MarchFirstOfEra(1999, 4, 399);
    var day := Bahai.BahaiDate(156, 16, 2);
    assert Bahai.IsDate(day) && Bahai.Fixed(day) == DAY;
    Bahai.OnlyDate(day);
  }

  lemma MayanNames()
    ensures Mayan.LongCountOf(DAY) == Mayan.LongCount(12, 19, 6, 15, 2)
    ensures Mayan.HaabOf(DAY) == Mayan.Haab(10, 14) && Mayan.TzolkinOf(DAY) == Mayan.Tzolkin(11, 2)
  {
  }
}
