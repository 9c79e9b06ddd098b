/** The Baha'i calendar with Naw-Ruz fixed at March 21: nineteen months of nineteen days and a remainder. */
module Bahai {
  import G = Gregorian

  /** Month 0 is the intercalary days, which come between months 18 and 19. */
  datatype BahaiDate = BahaiDate(year: int, month: nat, day: nat)

  /** R.D. day that begins a year. */
  function NawRuz(year: int): int {
    G.Rd(G.Date(1843 + year, 3, 21))
  }

  /** Intercalary days in a year. */
  function Ayyam(year: int): int {
    NawRuz(year + 1) - NawRuz(year) - 361
  }

  /** R.D. day of a Baha'i date. */
  function Fixed(d: BahaiDate): int {
    NawRuz(d.year) +
    match d.month
    case 0 => 342 + (d.day - 1)
    case 19 => 342 + Ayyam(d.year) + (d.day - 1)
    case _ => (d.month - 1) * 19 + (d.day - 1)
  }

  predicate IsDate(d: BahaiDate) {
    d.month <= 19 && 1 <= d.day <= if d.month == 0 then Ayyam(d.year) else 19
  }

  /** Years have four or five intercalary days, five when the February inside them is leap. */
  lemma YearLength(year: int)
    ensures Ayyam(year) == if G.IsLeap(1844 + year) then 5 else 4
  {
    hide G.ToSerial, G.MarchFirst, G.IsLeap;
    G.SerialFromMarch(G.Date(1843 + year, 3, 21));
    G.SerialFromMarch(G.Date(1844 + year, 3, 21));
    G.MarchFirstStep(1843 + year);
  }

  lemma {:induction false} NawRuzIncreases(a: int, b: int)
    requires a <= b
    ensures NawRuz(a) + 365 * (b - a) <= NawRuz(b) <= NawRuz(a) + 366 * (b - a)
    decreases b - a
  {
    hide NawRuz;
    if a < b {
      NawRuzIncreases(a, b - 1);
      YearLength(b - 1);
    }
  }

  lemma DateWithinYear(d: BahaiDate)
    requires IsDate(d)
    ensures NawRuz(d.year) <= Fixed(d) < NawRuz(d.year + 1)
  {
    hide NawRuz;
    YearLength(d.year);
  }

  /** Two dates on the same day are the same date. */
  lemma FixedInjective(g: BahaiDate, h: BahaiDate)
    requires IsDate(g) && IsDate(h) && Fixed(g) == Fixed(h)
    ensures g == h
  {
    hide NawRuz;
    DateWithinYear(g);
    DateWithinYear(h);
    if g.year < h.year {
      NawRuzIncreases(g.year + 1, h.year);
    } else if h.year < g.year {
      NawRuzIncreases(h.year + 1, g.year);
    } else {
      YearLength(g.year);
    }
  }

  /** The only Baha'i date of any day, before and after the epoch: an estimate corrected both ways. */
  method FromFixed(f: int) returns (d: BahaiDate)
    ensures IsDate(d) && Fixed(d) == f
    ensures forall g :: IsDate(g) && Fixed(g) == f ==> g == d
  {
    hide NawRuz;
    var year := f - G.Rd(G.Date(1844, 3, 21)) - 1;
    year := year / 366 + 1;
    ghost var estimate := year;
    while f >= NawRuz(year + 1)
      invariant year >= estimate && (year > estimate ==> NawRuz(year) <= f)
      decreases f - NawRuz(estimate) - (year - estimate)
    {
      NawRuzIncreases(estimate, year + 1);
      year := year + 1;
    }
    while f < NawRuz(year)
      invariant f < NawRuz(year + 1)
      decreases NawRuz(year) - f
    {
      YearLength(year - 1);
      year := year - 1;
    }
    var doy := f - NawRuz(year);
    var ayyam := Ayyam(year);
    YearLength(year);
    if doy < 342 {
      d := BahaiDate(year, doy / 19 + 1, doy % 19 + 1);
    } else if doy < 342 + ayyam {
      d := BahaiDate(year, 0, doy - 342 + 1);
    } else {
      d := BahaiDate(year, 19, doy - 342 - ayyam + 1);
    }
    OnlyDate(d);
  }

  lemma OnlyDate(h: BahaiDate)
    requires IsDate(h)
    ensures forall g :: IsDate(g) && Fixed(g) == Fixed(h) ==> g == h
  {
    hide Fixed, IsDate;
    forall g | IsDate(g) && Fixed(g) == Fixed(h)
      ensures g == h
    {
      FixedInjective(g, h);
    }
  }

  /**
   The year begins on 21 March. Eighteen months of nineteen days follow one another, then the intercalary days,
   and the last month takes the last nineteen days of the year.
   */
  lemma MonthStarts(year: int, month: nat)
    requires 1 <= month <= 18
    ensures G.FromRd(NawRuz(year)) == G.Date(1843 + year, 3, 21)
    ensures Fixed(BahaiDate(year, month, 1)) == NawRuz(year) + 19 * (month - 1)
    ensures Fixed(BahaiDate(year, 0, 1)) == Fixed(BahaiDate(year, 18, 19)) + 1
    ensures Fixed(BahaiDate(year, 19, 1)) == NawRuz(year + 1) - 19
  {
    G.RdBijection(NawRuz(year), G.Date(1843 + year, 3, 21));
    hide NawRuz;
  }
}
