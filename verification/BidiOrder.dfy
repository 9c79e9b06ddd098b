/** Reordering a line from logical to visual order: rule L2 of section 3.4 of UAX #9. */
module BidiOrder {
  import opened Arithmetic
  import Counting

  // --- Runs -----------------------------------------------------------------------------------------

  /** First index of the maximal run of characters at level `t` or above around `p`. */
  function RunStart(levels: seq<nat>, t: nat, p: nat): (s: nat)
    requires p < |levels| && levels[p] >= t
    ensures s <= p && (forall k :: s <= k <= p ==> levels[k] >= t) && (s == 0 || levels[s - 1] < t)
  {
    if p == 0 || levels[p - 1] < t then p else RunStart(levels, t, p - 1)
  }

  /** One past the last index of that run. */
  function RunEnd(levels: seq<nat>, t: nat, p: nat): (e: nat)
    requires p < |levels| && levels[p] >= t
    ensures p < e <= |levels| && (forall k :: p <= k < e ==> levels[k] >= t) && (e == |levels| || levels[e] < t)
    decreases |levels| - p
  {
    if p + 1 == |levels| || levels[p + 1] < t then p + 1 else RunEnd(levels, t, p + 1)
  }

  lemma RunBounds(levels: seq<nat>, t: nat, s: nat, e: nat, p: nat)
    requires s <= p < e <= |levels| && forall k :: s <= k < e ==> levels[k] >= t
    requires (s == 0 || levels[s - 1] < t) && (e == |levels| || levels[e] < t)
    ensures RunStart(levels, t, p) == s && RunEnd(levels, t, p) == e
  {
    var a, b := RunStart(levels, t, p), RunEnd(levels, t, p);
  }

  /** The place of `p` when its run is reversed. */
  function Mirror(levels: seq<nat>, t: nat, p: nat): (m: nat)
    requires p < |levels|
    ensures m < |levels|
  {
    if levels[p] < t then p else RunStart(levels, t, p) + RunEnd(levels, t, p) - 1 - p
  }

  // --- The reordering level by level ------------------------------------------------------------------

  /** Reverse every run at level `t` or above. */
  function Pass(levels: seq<nat>, order: seq<nat>, t: nat): (r: seq<nat>)
    requires |order| == |levels|
    ensures |r| == |order|
  {
    seq(|order|, p requires 0 <= p < |order| => order[Mirror(levels, t, p)])
  }

  /** The order after the passes from level `highest` down to level `t`. */
  function OrderDownTo(levels: seq<nat>, highest: nat, t: nat): (r: seq<nat>)
    requires t <= highest + 1
    ensures |r| == |levels|
    decreases highest + 1 - t
  {
    if t == highest + 1 then seq(|levels|, p requires 0 <= p < |levels| => p)
    else Pass(levels, OrderDownTo(levels, highest, t + 1), t)
  }

  // --- What the passes keep -----------------------------------------------------------------------------

  /** The least level between two positions, in either order. */
  function MinLevel(levels: seq<nat>, i: nat, j: nat): (m: nat)
    requires i < |levels| && j < |levels|
    ensures forall k :: Min(i, j) <= k <= Max(i, j) ==> m <= levels[k]
    ensures exists k :: Min(i, j) <= k <= Max(i, j) && m == levels[k]
    decreases Max(i, j) - Min(i, j)
  {
    if i == j then levels[i]
    else if i < j then Min(levels[j], MinLevel(levels, i, j - 1))
    else Min(levels[i], MinLevel(levels, i - 1, j))
  }

  /** Every character is still inside the run at level `t` it started in. */
  predicate Near(levels: seq<nat>, t: nat, p: nat, i: nat)
    requires p < |levels|
  {
    i < |levels| && (i == p || MinLevel(levels, p, i) >= t)
  }

  /** After the passes down to `t`, do two characters with least level `m` between them stand in order? */
  predicate Upright(m: nat, t: nat) {
    m < t || (m - t) % 2 == 1
  }

  ghost predicate Reordered(levels: seq<nat>, order: seq<nat>, t: nat) {
    && |order| == |levels|
    && (forall p :: 0 <= p < |levels| ==> Near(levels, t, p, order[p]))
    && (forall p, q :: 0 <= p < q < |levels| ==> order[p] != order[q])
    && (forall p, q :: 0 <= p < q < |levels| ==>
          (order[p] < order[q] <==> Upright(MinLevel(levels, order[p], order[q]), t)))
  }

  lemma IdentityReordered(levels: seq<nat>, t: nat)
    requires forall k :: 0 <= k < |levels| ==> levels[k] < t
    ensures Reordered(levels, seq(|levels|, p requires 0 <= p < |levels| => p), t)
  {
  }

  /** Neighbours by runs: the least level across a middle position is the least of the two sides. */
  lemma MinLevelThrough(levels: seq<nat>, i: nat, j: nat, k: nat)
    requires i < |levels| && j < |levels| && k < |levels|
    ensures MinLevel(levels, i, k) >= Min(MinLevel(levels, i, j), MinLevel(levels, j, k))
  {
    hide MinLevel;
    var l :| Min(i, k) <= l <= Max(i, k) && MinLevel(levels, i, k) == levels[l];
    Between(i, j, k, l);
  }

  lemma Between(i: nat, j: nat, k: nat, l: nat)
    requires Min(i, k) <= l <= Max(i, k)
    ensures Min(i, j) <= l <= Max(i, j) || Min(j, k) <= l <= Max(j, k)
  {
  }

  lemma MirrorNear(levels: seq<nat>, t: nat, p: nat)
    requires p < |levels|
    ensures Near(levels, t, p, Mirror(levels, t, p))
    ensures Mirror(levels, t, Mirror(levels, t, p)) == p
  {
    if levels[p] >= t {
      var s, e := RunStart(levels, t, p), RunEnd(levels, t, p);
      RunBounds(levels, t, s, e, Mirror(levels, t, p));
    }
  }

  /** A pass keeps every character inside its run. */
  lemma PassNear(levels: seq<nat>, order: seq<nat>, t: nat, p: nat)
    requires Reordered(levels, order, t + 1) && p < |levels|
    ensures Near(levels, t, p, Pass(levels, order, t)[p])
  {
    var m := Mirror(levels, t, p);
    MirrorNear(levels, t, p);
    assert Near(levels, t + 1, m, order[m]);
    MinLevelThrough(levels, p, m, order[m]);
  }

  /** Positions of one run trade places: their pairs are turned round. */
  lemma PassWithinRun(levels: seq<nat>, order: seq<nat>, t: nat, p: nat, q: nat)
    requires Reordered(levels, order, t + 1) && p < q < |levels| && MinLevel(levels, p, q) >= t
    ensures var r := Pass(levels, order, t);
            && r[p] < |levels| && r[q] < |levels| && r[p] != r[q]
            && (r[p] < r[q] <==> Upright(MinLevel(levels, r[p], r[q]), t))
  {
    hide MinLevel, Mirror, Near;
    var r := Pass(levels, order, t);
    PassNear(levels, order, t, p);
    PassNear(levels, order, t, q);
    MirrorTurns(levels, t, p, q);
    RunTogether(levels, t, p, q, r[p], r[q]);
    MinLevelSymmetric(levels, r[p], r[q]);
    var p', q' := Mirror(levels, t, p), Mirror(levels, t, q);
    assert r[p] == order[p'] && r[q] == order[q'];
    assert order[q'] < order[p'] <==> Upright(MinLevel(levels, order[q'], order[p']), t + 1);
  }

  /** Characters that started in the run of `p` and `q` have no lower level between them. */
  lemma RunTogether(levels: seq<nat>, t: nat, p: nat, q: nat, i: nat, j: nat)
    requires p < |levels| && q < |levels| && MinLevel(levels, p, q) >= t
    requires Near(levels, t, p, i) && Near(levels, t, q, j)
    ensures MinLevel(levels, i, j) >= t
  {
    hide MinLevel;
    MinLevelSymmetric(levels, i, p);
    MinLevelThrough(levels, i, p, j);
    MinLevelThrough(levels, p, q, j);
  }

  lemma MirrorTurns(levels: seq<nat>, t: nat, p: nat, q: nat)
    requires p < q < |levels| && MinLevel(levels, p, q) >= t
    ensures Mirror(levels, t, q) < Mirror(levels, t, p)
    ensures levels[p] >= t && levels[q] >= t
  {
    hide MinLevel;
    var s, e := RunStart(levels, t, p), RunEnd(levels, t, p);
    RunBounds(levels, t, s, e, q);
  }

  /** Positions of different runs keep apart. */
  lemma PassAcrossRuns(levels: seq<nat>, order: seq<nat>, t: nat, p: nat, q: nat, k: nat)
    requires Reordered(levels, order, t + 1) && p <= k <= q < |levels| && p < q && levels[k] < t
    ensures var r := Pass(levels, order, t);
            && r[p] < |levels| && r[q] < |levels| && r[p] < r[q]
            && MinLevel(levels, r[p], r[q]) < t
  {
    hide MinLevel, RunStart, RunEnd;
    var r := Pass(levels, order, t);
    var p', q' := Mirror(levels, t, p), Mirror(levels, t, q);
    PassNear(levels, order, t, p);
    PassNear(levels, order, t, q);
    MirrorNear(levels, t, p);
    MirrorNear(levels, t, q);
    StaysLeft(levels, t, p, k, r[p]);
    StaysRight(levels, t, q, k, r[q]);
    StaysLeft(levels, t, p, k, p');
    StaysRight(levels, t, q, k, q');
    assert p' != q';
    hide Pass, Near;
  }

  lemma PassPair(levels: seq<nat>, order: seq<nat>, t: nat, p: nat, q: nat)
    requires Reordered(levels, order, t + 1) && p < q < |levels|
    ensures var r := Pass(levels, order, t);
            && r[p] < |levels| && r[q] < |levels| && r[p] != r[q]
            && (r[p] < r[q] <==> Upright(MinLevel(levels, r[p], r[q]), t))
  {
    hide MinLevel, Pass, Reordered;
    if MinLevel(levels, p, q) >= t {
      PassWithinRun(levels, order, t, p, q);
    } else {
      var k :| Min(p, q) <= k <= Max(p, q) && MinLevel(levels, p, q) == levels[k];
      PassAcrossRuns(levels, order, t, p, q, k);
    }
  }

  lemma MinLevelSymmetric(levels: seq<nat>, i: nat, j: nat)
    requires i < |levels| && j < |levels|
    ensures MinLevel(levels, i, j) == MinLevel(levels, j, i)
  {
  }

  lemma StaysLeft(levels: seq<nat>, t: nat, p: nat, k: nat, i: nat)
    requires p <= k < |levels| && levels[k] < t && Near(levels, t, p, i)
    ensures i <= k
  {
  }

  lemma StaysRight(levels: seq<nat>, t: nat, q: nat, k: nat, j: nat)
    requires k <= q < |levels| && levels[k] < t && Near(levels, t, q, j)
    ensures k <= j
  {
  }

  lemma PassReorders(levels: seq<nat>, order: seq<nat>, t: nat)
    requires Reordered(levels, order, t + 1)
    ensures Reordered(levels, Pass(levels, order, t), t)
  {
    var r := Pass(levels, order, t);
    forall p | 0 <= p < |levels|
      ensures Near(levels, t, p, r[p])
    {
      PassNear(levels, order, t, p);
    }
    forall p, q | 0 <= p < q < |levels|
      ensures r[p] != r[q] && (r[p] < r[q] <==> Upright(MinLevel(levels, r[p], r[q]), t))
    {
      PassPair(levels, order, t, p, q);
    }
  }

  lemma {:induction false} PassesReorder(levels: seq<nat>, highest: nat, t: nat)
    requires t <= highest + 1 && forall k :: 0 <= k < |levels| ==> levels[k] <= highest
    ensures Reordered(levels, OrderDownTo(levels, highest, t), t)
    decreases highest + 1 - t
  {
    if t == highest + 1 {
      IdentityReordered(levels, t);
    } else {
      PassesReorder(levels, highest, t + 1);
      PassReorders(levels, OrderDownTo(levels, highest, t + 1), t);
    }
  }

  // --- The visual order ---------------------------------------------------------------------------------

  function Highest(levels: seq<nat>): (h: nat)
    ensures forall k :: 0 <= k < |levels| ==> levels[k] <= h
  {
    if levels == [] then 0 else Max(levels[|levels| - 1], Highest(levels[..|levels| - 1]))
  }

  /** The lowest odd level, or `none` when there is no odd level. */
  function LowestOdd(levels: seq<nat>, none: nat): (l: nat)
    ensures l == none || l % 2 == 1
    ensures forall k :: 0 <= k < |levels| && levels[k] % 2 == 1 ==> l <= levels[k]
    ensures l <= none
  {
    if levels == [] then none
    else
      var rest := LowestOdd(levels[..|levels| - 1], none);
      if levels[|levels| - 1] % 2 == 1 && levels[|levels| - 1] < rest then levels[|levels| - 1] else rest
  }

  /** The logical index of each visual position, from the left. */
  function VisualOrder(levels: seq<nat>): (order: seq<nat>)
    ensures |order| == |levels|
  {
    OrderDownTo(levels, Highest(levels), LowestOdd(levels, Highest(levels) + 1))
  }

  ghost predicate IsPermutation(order: seq<nat>) {
    Counting.Distinct(order) && forall p :: 0 <= p < |order| ==> order[p] < |order|
  }

  /**
   What the reordering does, pair by pair: a permutation in which two characters stand in logical order
   exactly when the lowest level between them is even.
   */
  lemma VisualPairs(levels: seq<nat>)
    ensures var order := VisualOrder(levels);
            && IsPermutation(order)
            && forall p, q :: 0 <= p < q < |levels| ==>
                 (order[p] < order[q] <==> MinLevel(levels, order[p], order[q]) % 2 == 0)
  {
    hide OrderDownTo, MinLevel, Reordered, Upright, Highest, LowestOdd;
    var highest := Highest(levels);
    var lowest := LowestOdd(levels, highest + 1);
    PassesReorder(levels, highest, lowest);
    var order := VisualOrder(levels);
    forall p | 0 <= p < |levels|
      ensures order[p] < |levels|
    {
      ReorderedPair(levels, order, lowest, p, p);
    }
    forall p, q | 0 <= p < q < |levels|
      ensures order[p] != order[q]
      ensures order[p] < order[q] <==> MinLevel(levels, order[p], order[q]) % 2 == 0
    {
      ReorderedPair(levels, order, lowest, p, q);
      UprightIsEven(levels, order[p], order[q]);
    }
  }

  lemma ReorderedPair(levels: seq<nat>, order: seq<nat>, t: nat, p: nat, q: nat)
    requires Reordered(levels, order, t) && p <= q < |levels|
    ensures order[p] < |levels| && order[q] < |levels|
    ensures p < q ==> order[p] != order[q]
    ensures p < q ==> (order[p] < order[q] <==> Upright(MinLevel(levels, order[p], order[q]), t))
  {
    hide MinLevel, Upright;
    assert Near(levels, t, p, order[p]) && Near(levels, t, q, order[q]);
  }

  lemma UprightIsEven(levels: seq<nat>, i: nat, j: nat)
    requires i < |levels| && j < |levels|
    ensures var m := MinLevel(levels, i, j);
            Upright(m, LowestOdd(levels, Highest(levels) + 1)) <==> m % 2 == 0
  {
    hide MinLevel, Highest, LowestOdd;
    var m := MinLevel(levels, i, j);
    var k :| Min(i, j) <= k <= Max(i, j) && m == levels[k];
  }

  /** Characters of one run, with only that run's levels between them, read forward or backward by parity. */
  lemma SameLevelReadsByParity(levels: seq<nat>, level: nat, s: nat, e: nat, p: nat, q: nat)
    requires s <= e <= |levels| && forall k :: s <= k < e ==> levels[k] == level
    requires p < q < |levels|
    requires s <= VisualOrder(levels)[p] < e && s <= VisualOrder(levels)[q] < e
    ensures VisualOrder(levels)[p] < VisualOrder(levels)[q] <==> level % 2 == 0
  {
    hide MinLevel, VisualOrder;
    VisualPairs(levels);
    var i, j := VisualOrder(levels)[p], VisualOrder(levels)[q];
    assert MinLevel(levels, i, j) == level;
  }

  /** Every maximal logical run at a level or above fills one contiguous visual block. */
  lemma RunIsBlock(levels: seq<nat>, t: nat, s: nat, e: nat, p: nat, x: nat, q: nat)
    requires s < e <= |levels| && forall k :: s <= k < e ==> levels[k] >= t
    requires (s == 0 || levels[s - 1] < t) && (e == |levels| || levels[e] < t)
    requires p < x < q < |levels|
    requires s <= VisualOrder(levels)[p] < e && s <= VisualOrder(levels)[q] < e
    ensures s <= VisualOrder(levels)[x] < e
  {
    hide MinLevel, VisualOrder;
    VisualPairs(levels);
    var order := VisualOrder(levels);
    if !(s <= order[x] < e) {
      SeenFromOutside(levels, t, s, e, order[x], order[p], order[q]);
    }
  }

  /** Seen from outside a run, all its characters are behind the same lowest level. */
  lemma SeenFromOutside(levels: seq<nat>, t: nat, s: nat, e: nat, x: nat, i: nat, j: nat)
    requires s < e <= |levels| && forall k :: s <= k < e ==> levels[k] >= t
    requires (s == 0 || levels[s - 1] < t) && (e == |levels| || levels[e] < t)
    requires x < |levels| && !(s <= x < e) && s <= i < e && s <= j < e
    ensures MinLevel(levels, i, x) == MinLevel(levels, x, j)
  {
    hide MinLevel;
    MinLevelSymmetric(levels, i, x);
    var edge := if x < s then s - 1 else e;
    MinLevelOutside(levels, t, x, edge, i);
    MinLevelOutside(levels, t, x, edge, j);
  }

  lemma MinLevelOutside(levels: seq<nat>, t: nat, x: nat, edge: nat, i: nat)
    requires x < |levels| && edge < |levels| && i < |levels| && levels[edge] < t
    requires if edge < i then x <= edge else i < edge <= x
    requires forall k :: edge < k <= i || i <= k < edge ==> levels[k] >= t
    ensures MinLevel(levels, x, i) == MinLevel(levels, x, edge)
  {
    hide MinLevel;
    var a, b := MinLevel(levels, x, i), MinLevel(levels, x, edge);
    var k :| Min(x, i) <= k <= Max(x, i) && a == levels[k];
    var l :| Min(x, edge) <= l <= Max(x, edge) && b == levels[l];
  }

  // --- The reordering in place -----------------------------------------------------------------------------

  /** Reverse a slice of the array. */
  method ReverseSlice(a: array<nat>, s: nat, e: nat)
    requires s <= e <= a.Length
    modifies a
    ensures forall k :: 0 <= k < a.Length ==> a[k] == old(a[if s <= k < e then s + e - 1 - k else k])
  {
    var i, j := s, e;
    while i + 1 < j
      invariant s <= i <= j <= e && i + j == s + e
      invariant forall k :: 0 <= k < a.Length ==>
                  a[k] == old(a[if s <= k < i || j <= k < e then s + e - 1 - k else k])
    {
      j := j - 1;
      a[i], a[j] := a[j], a[i];
      i := i + 1;
    }
  }

  /** One pass: reverse every maximal stretch of the array whose characters are at level `t` or above. */
  method ReverseRuns(levels: seq<nat>, order: array<nat>, t: nat)
    requires order.Length == |levels| && Reordered(levels, order[..], t + 1)
    modifies order
    ensures order[..] == Pass(levels, old(order[..]), t)
  {
    ghost var was := order[..];
    forall p | 0 <= p < |levels|
      ensures was[p] < |levels| && (levels[was[p]] >= t <==> levels[p] >= t)
    {
      assert Near(levels, t + 1, p, was[p]);
    }
    hide Reordered, MinLevel, Near, Mirror;
    var i := 0;
    while i < order.Length
      invariant i <= order.Length
      invariant 0 < i < order.Length ==> levels[i - 1] < t || levels[i] < t
      invariant forall p :: 0 <= p < i ==> order[p] == was[Mirror(levels, t, p)]
      invariant forall p :: i <= p < order.Length ==> order[p] == was[p]
    {
      if levels[order[i]] >= t {
        i := ReverseRunFrom(levels, order, t, i);
      } else {
        MirrorOutside(levels, t, i);
        i := i + 1;
      }
    }
    assert order[..] == Pass(levels, was, t);
  }

  lemma MirrorOutside(levels: seq<nat>, t: nat, p: nat)
    requires p < |levels| && levels[p] < t
    ensures Mirror(levels, t, p) == p
  {
  }

  /** Find the end of the stretch that starts at `start` and reverse it. */
  method ReverseRunFrom(levels: seq<nat>, order: array<nat>, t: nat, start: nat) returns (i: nat)
    requires start < order.Length == |levels| && levels[start] >= t
    requires start > 0 ==> levels[start - 1] < t
    requires forall p :: start <= p < |levels| ==> order[p] < |levels| && (levels[order[p]] >= t <==> levels[p] >= t)
    modifies order
    ensures start < i <= order.Length && (i < order.Length ==> levels[i] < t)
    ensures forall p :: start <= p < i ==>
      start <= Mirror(levels, t, p) < i && order[p] == old(order[Mirror(levels, t, p)])
    ensures forall p :: 0 <= p < order.Length && !(start <= p < i) ==> order[p] == old(order[p])
  {
    i := start;
    while i < order.Length && levels[order[i]] >= t
      invariant start <= i <= order.Length
      invariant forall k :: start <= k < i ==> levels[k] >= t
    {
      i := i + 1;
    }
    forall p | start <= p < i
      ensures Mirror(levels, t, p) == start + i - 1 - p
    {
      RunBounds(levels, t, start, i, p);
    }
    hide Mirror;
    ReverseSlice(order, start, i);
  }

  /** Reorder a line given its levels: from the highest level down to the lowest odd one, reverse runs. */
  method Reorder(levels: seq<nat>) returns (order: array<nat>)
    ensures fresh(order) && order[..] == VisualOrder(levels)
  {
    order := new nat[|levels|](i => i);
    if levels == [] {
      return;
    }
    var highest, lowestOdd := Extremes(levels);
    hide OrderDownTo;
    OrderStart(levels, highest);
    assert order[..] == seq(|levels|, p requires 0 <= p < |levels| => p);
    ReverseLevels(levels, order, highest, lowestOdd);
  }

  /** The passes, from the highest level down to the lowest odd one. */
  method ReverseLevels(levels: seq<nat>, order: array<nat>, highest: nat, lowestOdd: nat)
    requires 1 <= lowestOdd <= highest + 1 && forall k :: 0 <= k < |levels| ==> levels[k] <= highest
    requires order[..] == OrderDownTo(levels, highest, highest + 1)
    modifies order
    ensures order[..] == OrderDownTo(levels, highest, lowestOdd)
  {
    hide Reordered, Pass, OrderDownTo;
    var level := highest;
    while level >= lowestOdd
      invariant lowestOdd <= level + 1 <= highest + 1
      invariant order[..] == OrderDownTo(levels, highest, level + 1)
    {
      PassesReorder(levels, highest, level + 1);
      OrderStep(levels, highest, level);
      ReverseRuns(levels, order, level);
      if level == 0 {
        break;
      }
      level := level - 1;
    }
  }

  lemma OrderStart(levels: seq<nat>, highest: nat)
    ensures OrderDownTo(levels, highest, highest + 1) == seq(|levels|, p requires 0 <= p < |levels| => p)
  {
  }

  lemma OrderStep(levels: seq<nat>, highest: nat, t: nat)
    requires t <= highest
    ensures OrderDownTo(levels, highest, t) == Pass(levels, OrderDownTo(levels, highest, t + 1), t)
  {
  }

  method Extremes(levels: seq<nat>) returns (highest: nat, lowestOdd: nat)
    ensures highest == Highest(levels) && lowestOdd == LowestOdd(levels, highest + 1)
    ensures lowestOdd >= 1
  {
    highest := 0;
    for i := 0 to |levels|
      invariant highest == Highest(levels[..i])
    {
      assert levels[..i + 1][..i] == levels[..i];
      highest := if levels[i] > highest then levels[i] else highest;
    }
    assert levels[..|levels|] == levels;
    lowestOdd := highest + 1;
    for i := 0 to |levels|
      invariant lowestOdd == LowestOdd(levels[..i], highest + 1) && lowestOdd >= 1
    {
      assert levels[..i + 1][..i] == levels[..i];
      if levels[i] % 2 == 1 && levels[i] < lowestOdd {
        lowestOdd := levels[i];
      }
    }
  }
}
