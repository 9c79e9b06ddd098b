/** Unique buffer names: the first free of `base`, `base<2>`, `base<3>`, ... */
module BufferNames {
  import opened Wrappers
  import Counting

  // --- Decimal numerals -----------------------------------------------------------------------------------

  predicate IsDigit(c: char) {
    '0' <= c <= '9'
  }

  predicate IsNumeral(s: string) {
    s != [] && forall i :: 0 <= i < |s| ==> IsDigit(s[i])
  }

  function Digit(d: nat): (c: char)
    requires d < 10
    ensures IsDigit(c)
  {
    '0' + (d as char)
  }

  function Decimal(n: nat): (s: string)
    ensures IsNumeral(s)
  {
    if n < 10 then [Digit(n)] else Decimal(n / 10) + [Digit(n % 10)]
  }

  function DigitValue(c: char): nat
    requires IsDigit(c)
  {
    c as int - '0' as int
  }

  function ValueOf(s: string): nat
    requires forall i :: 0 <= i < |s| ==> IsDigit(s[i])
  {
    if s == [] then 0
    else 10 * ValueOf(s[..|s| - 1]) + DigitValue(s[|s| - 1])
  }

  lemma {:induction false} DecimalValue(n: nat)
    ensures ValueOf(Decimal(n)) == n
  {
    if n >= 10 {
      DecimalValue(n / 10);
      assert Decimal(n)[..|Decimal(n)| - 1] == Decimal(n / 10);
    } else {
      assert Decimal(n)[..0] == [];
    }
  }

  /** Numbers are written without leading zeros. */
  lemma {:induction false} NoLeadingZero(n: nat)
    ensures n > 0 ==> Decimal(n)[0] != '0'
    ensures Decimal(0) == "0"
  {
    if n >= 10 {
      NoLeadingZero(n / 10);
    }
  }

  // --- Suffixes ---------------------------------------------------------------------------------------------

  function Suffixed(base: string, n: nat): string {
    base + "<" + Decimal(n) + ">"
  }

  /** Different numbers make different names. */
  lemma SuffixedInjective(base: string, m: nat, n: nat)
    requires Suffixed(base, m) == Suffixed(base, n)
    ensures m == n
  {
    var s := Suffixed(base, m);
    assert s[|base| + 1..|s| - 1] == Decimal(m);
    assert s[|base| + 1..|s| - 1] == Decimal(n);
    DecimalValue(m);
    DecimalValue(n);
  }

  lemma SuffixedLonger(base: string, n: nat)
    ensures |Suffixed(base, n)| > |base|
  {
  }

  /** Index of the last occurrence of a character. */
  function LastIndexOf(s: string, c: char): (i: Option<nat>)
    ensures i == None <==> c !in s
    ensures i.Some? ==> i.value < |s| && s[i.value] == c && c !in s[i.value + 1..]
  {
    if s == [] then None
    else if s[|s| - 1] == c then Some(|s| - 1)
    else
      var i := LastIndexOf(s[..|s| - 1], c);
      if i == None then None
      else
        assert s[i.value + 1..] == s[..|s| - 1][i.value + 1..] + [s[|s| - 1]];
        i
  }

  lemma {:induction false} LastIndexUnique(s: string, c: char, k: nat)
    requires k < |s| && s[k] == c && c !in s[k + 1..]
    ensures LastIndexOf(s, c) == Some(k)
  {
    var last := |s| - 1;
    if k < last {
      assert s[last] == s[k + 1..][last - k - 1];
      assert s[k + 1..] == s[..last][k + 1..] + [s[last]];
      LastIndexUnique(s[..last], c, k);
    }
  }

  /** Drop a trailing `<digits>`. */
  function Strip(name: string): string {
    if name == [] || name[|name| - 1] != '>' then name
    else
      var inner := name[..|name| - 1];
      match LastIndexOf(inner, '<')
      case None => name
      case Some(open) => if IsNumeral(inner[open + 1..]) then name[..open] else name
  }

  lemma StripDrops(base: string, digits: string)
    requires IsNumeral(digits)
    ensures Strip(base + "<" + digits + ">") == base
  {
    var name := base + "<" + digits + ">";
    var inner := name[..|name| - 1];
    assert inner == base + "<" + digits;
    assert inner[|base|] == '<' && inner[|base| + 1..] == digits;
    hide IsNumeral;
    LastIndexUnique(inner, '<', |base|) by {
      assert '<' !in digits by { NumeralHasNoBracket(digits); }
    }
    assert name[..|base|] == base;
  }

  lemma NumeralHasNoBracket(digits: string)
    requires IsNumeral(digits)
    ensures '<' !in digits
  {
  }

  lemma StripOnlySuffix(name: string)
    requires Strip(name) != name
    ensures exists d :: IsNumeral(d) && name == Strip(name) + "<" + d + ">"
  {
    hide IsNumeral;
    var inner := name[..|name| - 1];
    var open := LastIndexOf(inner, '<').value;
    assert name == name[..open] + "<" + inner[open + 1..] + ">";
  }

  /** Exactly which names are shortened, and to what: those that end in digits between angle brackets. */
  lemma StripExact(name: string, base: string)
    ensures Strip(name) == base && base != name <==> exists d :: IsNumeral(d) && name == base + "<" + d + ">"
  {
    hide Strip, IsNumeral;
    if Strip(name) != name {
      StripOnlySuffix(name);
    }
    if d :| IsNumeral(d) && name == base + "<" + d + ">" {
      StripDrops(base, d);
      assert |name| > |base|;
    }
  }

  /** Stripping recovers the base whenever a suffix was added. */
  lemma StripSuffixed(base: string, n: nat)
    ensures Strip(Suffixed(base, n)) == base
  {
    StripDrops(base, Decimal(n));
  }

  // --- The search -------------------------------------------------------------------------------------------

  const U32_LIMIT := 0x1_0000_0000

  /** Some number below the limit is free when fewer names are taken than there are candidates. */
  lemma FreeNumber(base: string, taken: set<string>, limit: nat)
    requires base in taken && |taken| + 1 < limit
    ensures exists n :: 2 <= n < limit && Suffixed(base, n) !in taken
  {
    var names := Candidates(base, |taken|);
    Counting.Pigeonhole(names, taken - {base});
    var i :| 0 <= i < |names| && names[i] !in taken - {base};
    SuffixedLonger(base, i + 2);
    assert Suffixed(base, i + 2) !in taken;
  }

  ghost function Candidates(base: string, count: nat): (names: seq<string>)
    ensures |names| == count
    ensures forall i :: 0 <= i < count ==> names[i] == Suffixed(base, i + 2)
    ensures Counting.Distinct(names)
  {
    var names := seq(count, i requires 0 <= i < count => Suffixed(base, i + 2));
    assert Counting.Distinct(names) by {
      forall p, q | 0 <= p < q < count
        ensures names[p] != names[q]
      {
        if names[p] == names[q] {
          SuffixedInjective(base, p + 2, q + 2);
        }
      }
    }
    names
  }

  /** The same for a test that holds of finitely many names, few enough to leave a number of 32 bits free. */
  lemma FreeNumberOfTest(base: string, isTaken: string -> bool, taken: set<string>)
    requires forall name :: isTaken(name) ==> name in taken
    requires isTaken(base) && |taken| < U32_LIMIT - 1
    ensures HasFreeNumber(base, isTaken)
  {
    FreeNumber(base, taken, U32_LIMIT);
    var n :| 2 <= n < U32_LIMIT && Suffixed(base, n) !in taken;
  }

  ghost predicate HasFreeNumber(base: string, isTaken: string -> bool) {
    exists n :: 2 <= n < U32_LIMIT && !isTaken(Suffixed(base, n))
  }

  /**
   The name asked for if it is free, else the free one with the least number. The counter has 32 bits: it
   overflows, and there is no answer, exactly when the name and all its numbers are taken.
   */
  method GenerateUniqueName(base: string, isTaken: string -> bool) returns (name: Option<string>, ghost number: nat)
    ensures name == None <==> isTaken(base) && !HasFreeNumber(base, isTaken)
    ensures name.Some? ==> !isTaken(name.value)
    ensures !isTaken(base) ==> name == Some(base)
    ensures isTaken(base) && name.Some? ==>
              && 2 <= number < U32_LIMIT && name.value == Suffixed(base, number)
              && forall k :: 2 <= k < number ==> isTaken(Suffixed(base, k))
  {
    number := 1;
    if !isTaken(base) {
      return Some(base), 1;
    }
    var n: nat := 2;
    while true
      invariant 2 <= n < U32_LIMIT
      invariant forall k :: 2 <= k < n ==> isTaken(Suffixed(base, k))
      decreases U32_LIMIT - n
    {
      var candidate := base + "<" + Decimal(n) + ">";
      assert candidate == Suffixed(base, n);
      if !isTaken(candidate) {
        return Some(candidate), n;
      }
      if n + 1 == U32_LIMIT {
        assert !HasFreeNumber(base, isTaken);
        return None, 1;
      }
      n := n + 1;
    }
  }

  /** Strip the suffix a name has and give it a fresh one: the result is free and has the same base. */
  method RenameUniquely(current: string, isTaken: string -> bool) returns (name: Option<string>)
    ensures name == None <==> isTaken(Strip(current)) && !HasFreeNumber(Strip(current), isTaken)
    ensures name.Some? ==> !isTaken(name.value)
    ensures name.Some? ==> name.value == Strip(current) || Strip(name.value) == Strip(current)
    ensures name == Some(Strip(current)) <==> !isTaken(Strip(current))
  {
    ghost var number;
    name, number := GenerateUniqueName(Strip(current), isTaken);
    StripSuffixed(Strip(current), number);
  }
}
