/** Embedding levels of a line, its visual order and the visual neighbour of a character. */
module Bidi {
  import opened Wrappers
  import opened BidiOrder
  import Counting

  datatype Direction = LeftToRight | RightToLeft

  datatype Class = Left | Right | EuropeanNumber | ArabicNumber | Neutral | Mark

  function BaseLevel(base: Direction): nat {
    if base.LeftToRight? then 0 else 1
  }

  function BaseClass(base: Direction): Class {
    if base.LeftToRight? then Left else Right
  }

  predicate IsStrong(c: Class) {
    c.Left? || c.Right?
  }

  predicate IsNumber(c: Class) {
    c.EuropeanNumber? || c.ArabicNumber?
  }

  // --- The rules, one function each -----------------------------------------------------------------------

  /** Rule W1: a mark takes the class of the character before it, or of the paragraph. */
  function AfterW1(raw: seq<Class>, base: Direction, i: nat): (c: Class)
    requires i < |raw|
    ensures c != Mark
  {
    if raw[i] != Mark then raw[i]
    else if i == 0 then BaseClass(base)
    else AfterW1(raw, base, i - 1)
  }

  /** The last strong class before an index, or that of the paragraph. */
  function LastStrong(cs: seq<Class>, base: Direction, i: nat): (c: Class)
    requires i <= |cs|
    ensures IsStrong(c)
  {
    if i == 0 then BaseClass(base)
    else if IsStrong(cs[i - 1]) then cs[i - 1]
    else LastStrong(cs, base, i - 1)
  }

  function Marked(raw: seq<Class>, base: Direction): (cs: seq<Class>)
    ensures |cs| == |raw|
  {
    seq(|raw|, i requires 0 <= i < |raw| => AfterW1(raw, base, i))
  }

  /** Rule W2: a European number after a right-to-left letter is an Arabic number. */
  function AfterW2(cs: seq<Class>, base: Direction, i: nat): Class
    requires i < |cs|
  {
    if cs[i] == EuropeanNumber && LastStrong(cs, base, i) == Right then ArabicNumber else cs[i]
  }

  function Numbered(cs: seq<Class>, base: Direction): (ns: seq<Class>)
    ensures |ns| == |cs|
  {
    seq(|cs|, i requires 0 <= i < |cs| => AfterW2(cs, base, i))
  }

  function EvenFrom(level: nat): nat {
    if level % 2 == 0 then level else level + 1
  }

  function OddFrom(level: nat): nat {
    if level % 2 == 1 then level else level + 1
  }

  /** Rules I1 and I2: letters and numbers have a level of their own. */
  function DirectLevel(cs: seq<Class>, base: Direction, i: nat): Option<nat>
    requires i < |cs|
  {
    match cs[i]
    case Left => Some(EvenFrom(BaseLevel(base)))
    case Right => Some(OddFrom(BaseLevel(base)))
    case EuropeanNumber | ArabicNumber =>
      Some(if LastStrong(cs, base, i) == Right then OddFrom(BaseLevel(base)) + 1 else EvenFrom(BaseLevel(base)))
    case _ => None
  }

  function DirectLevels(cs: seq<Class>, base: Direction): (ds: seq<Option<nat>>)
    ensures |ds| == |cs|
  {
    seq(|cs|, i requires 0 <= i < |cs| => DirectLevel(cs, base, i))
  }

  /** The level that stands before a run of neutrals. */
  function Before(ds: seq<Option<nat>>, i: nat): Option<nat>
    requires i <= |ds|
  {
    if i == 0 then None else if ds[i - 1].Some? then ds[i - 1] else Before(ds, i - 1)
  }

  function AfterRun(ds: seq<Option<nat>>, i: nat): Option<nat>
    requires i <= |ds|
    decreases |ds| - i
  {
    if i == |ds| then None else if ds[i].Some? then ds[i] else AfterRun(ds, i + 1)
  }

  /** Rules N1 and N2: neutrals between two equal levels take that level, others the paragraph's. */
  function FinalLevel(ds: seq<Option<nat>>, base: Direction, i: nat): nat
    requires i < |ds|
  {
    match ds[i]
    case Some(level) => level
    case None =>
      match (Before(ds, i), AfterRun(ds, i))
      case (Some(a), Some(b)) => if a == b then a else BaseLevel(base)
      case _ => BaseLevel(base)
  }

  /** The levels of a line whose characters have the given classes. */
  function Levels(raw: seq<Class>, base: Direction): (levels: seq<nat>)
    ensures |levels| == |raw|
  {
    var ds := DirectLevels(Numbered(Marked(raw, base), base), base);
    seq(|raw|, i requires 0 <= i < |raw| => FinalLevel(ds, base, i))
  }

  // --- What the levels mean -----------------------------------------------------------------------------------

  /**
   Letters have the parity of their direction, numbers are even, no level leaves 0 to 2, and a combining mark
   keeps the level of the character before it, or of the paragraph at the line's start.
   */
  lemma LevelParity(raw: seq<Class>, base: Direction, i: nat)
    requires i < |raw|
    ensures BaseLevel(base) <= Levels(raw, base)[i] <= 2
    ensures raw[i] == Left ==> Levels(raw, base)[i] % 2 == 0
    ensures raw[i] == Right ==> Levels(raw, base)[i] == 1
    ensures IsNumber(raw[i]) ==> Levels(raw, base)[i] % 2 == 0
    ensures raw[i] == Mark ==> Levels(raw, base)[i] == if i == 0 then BaseLevel(base) else Levels(raw, base)[i - 1]
  {
    var cs := Numbered(Marked(raw, base), base);
    var ds := DirectLevels(cs, base);
    BeforeRange(cs, base, i);
    if raw[i] == Mark {
      MarkKeepsLevel(raw, base, i);
    }
  }

  lemma {:induction false} BeforeRange(cs: seq<Class>, base: Direction, i: nat)
    requires i <= |cs|
    ensures var b := Before(DirectLevels(cs, base), i);
            b.Some? ==> BaseLevel(base) <= b.value <= 2
  {
    if i > 0 {
      BeforeRange(cs, base, i - 1);
    }
  }

  /** Resolving numbers does not change which strong class came last. */
  lemma {:induction false} LastStrongNumbered(cs: seq<Class>, base: Direction, i: nat)
    requires i <= |cs|
    ensures LastStrong(Numbered(cs, base), base, i) == LastStrong(cs, base, i)
  {
    if i > 0 {
      LastStrongNumbered(cs, base, i - 1);
    }
  }

  lemma MarkKeepsLevel(raw: seq<Class>, base: Direction, i: nat)
    requires i < |raw| && raw[i] == Mark
    ensures Levels(raw, base)[i] == if i == 0 then BaseLevel(base) else Levels(raw, base)[i - 1]
  {
    var marked := Marked(raw, base);
    var cs := Numbered(marked, base);
    if i > 0 {
      assert marked[i] == marked[i - 1];
      LastStrongNumbered(marked, base, i);
      LastStrongNumbered(marked, base, i - 1);
      var ds := DirectLevels(cs, base);
      assert ds[i] == ds[i - 1];
    }
  }

  // --- The levels by position -------------------------------------------------------------------------------

  /** A neutral character, or a mark on one. */
  predicate IsNeutralAt(raw: seq<Class>, i: nat) {
    i < |raw| && exists b :: 0 <= b <= i && raw[b] == Neutral && forall j :: b < j <= i ==> raw[j] == Mark
  }

  lemma {:induction false} NeutralMeans(raw: seq<Class>, base: Direction, i: nat)
    requires i < |raw|
    ensures AfterW1(raw, base, i) == Neutral <==> IsNeutralAt(raw, i)
  {
    if raw[i] == Mark && i > 0 {
      NeutralMeans(raw, base, i - 1);
    }
  }

  lemma HasNoLevel(raw: seq<Class>, base: Direction, i: nat)
    requires i < |raw|
    ensures var ds := DirectLevels(Numbered(Marked(raw, base), base), base);
            && (ds[i] == None <==> IsNeutralAt(raw, i))
            && (ds[i].Some? ==> Levels(raw, base)[i] == ds[i].value)
  {
    NeutralMeans(raw, base, i);
  }

  /**
   Rules N1 and N2: between two characters that are not neutral, neutrals have the level of the two if they agree,
   else that of the paragraph.
   */
  lemma NeutralsBetween(raw: seq<Class>, base: Direction, p: nat, i: nat, q: nat)
    requires p < i < q < |raw| && !IsNeutralAt(raw, p) && !IsNeutralAt(raw, q)
    requires forall k :: p < k < q ==> IsNeutralAt(raw, k)
    ensures var levels := Levels(raw, base);
            levels[i] == if levels[p] == levels[q] then levels[p] else BaseLevel(base)
  {
    var ds := DirectLevels(Numbered(Marked(raw, base), base), base);
    hide IsNeutralAt;
    HasNoLevel(raw, base, p);
    HasNoLevel(raw, base, q);
    forall k | p < k < q
      ensures ds[k] == None
    {
      HasNoLevel(raw, base, k);
    }
    RunNeighbours(ds, p + 1, i, q);
  }

  /** Neutrals at an edge of the line have the paragraph's level. */
  lemma NeutralsAtEdge(raw: seq<Class>, base: Direction, i: nat)
    requires i < |raw|
    requires (forall k :: 0 <= k <= i ==> IsNeutralAt(raw, k)) || (forall k :: i <= k < |raw| ==> IsNeutralAt(raw, k))
    ensures Levels(raw, base)[i] == BaseLevel(base)
  {
    var ds := DirectLevels(Numbered(Marked(raw, base), base), base);
    hide IsNeutralAt;
    var (start, end) := if forall k :: 0 <= k <= i ==> IsNeutralAt(raw, k) then (0, i + 1) else (i, |raw|);
    forall k | start <= k < end
      ensures ds[k] == None
    {
      HasNoLevel(raw, base, k);
    }
    RunNeighbours(ds, start, i, end);
  }

  /** Is the last letter before `i`, or else the paragraph, right to left? */
  predicate FollowsRight(raw: seq<Class>, base: Direction, i: nat)
    requires i <= |raw|
  {
    || (exists s :: 0 <= s < i && raw[s] == Right && forall j :: s < j < i ==> !IsStrong(raw[j]))
    || (base.RightToLeft? && forall j :: 0 <= j < i ==> !IsStrong(raw[j]))
  }

  lemma {:induction false} LastStrongMeans(raw: seq<Class>, base: Direction, i: nat)
    requires i <= |raw|
    ensures LastStrong(Marked(raw, base), base, i) == Right <==> FollowsRight(raw, base, i)
  {
    if i > 0 {
      LastStrongMeans(raw, base, i - 1);
      if IsStrong(raw[i - 1]) {
        assert Marked(raw, base)[i - 1] == raw[i - 1];
        assert raw[i - 1] == Right ==> FollowsRight(raw, base, i);
      } else {
        assert LastStrong(Marked(raw, base), base, i) == LastStrong(Marked(raw, base), base, i - 1);
        FollowsOn(raw, base, i);
      }
    }
  }

  lemma FollowsOn(raw: seq<Class>, base: Direction, i: nat)
    requires 0 < i <= |raw| && !IsStrong(raw[i - 1])
    ensures FollowsRight(raw, base, i) <==> FollowsRight(raw, base, i - 1)
  {
    if s :| 0 <= s < i - 1 && raw[s] == Right && forall j :: s < j < i - 1 ==> !IsStrong(raw[j]) {
      assert raw[s] == Right && forall j :: s < j < i ==> !IsStrong(raw[j]);
    }
    if s :| 0 <= s < i && raw[s] == Right && forall j :: s < j < i ==> !IsStrong(raw[j]) {
      assert s < i - 1 && forall j :: s < j < i - 1 ==> !IsStrong(raw[j]);
    }
  }

  /** Letters and numbers: a number is raised to 2 in a right-to-left paragraph or after a right-to-left letter. */
  lemma LevelsOfCharacters(raw: seq<Class>, base: Direction, i: nat)
    requires i < |raw|
    ensures raw[i] == Left ==> Levels(raw, base)[i] == if base.LeftToRight? then 0 else 2
    ensures raw[i] == Right ==> Levels(raw, base)[i] == 1
    ensures IsNumber(raw[i]) ==>
              Levels(raw, base)[i] == if base.RightToLeft? || FollowsRight(raw, base, i) then 2 else 0
  {
    var marked := Marked(raw, base);
    LastStrongNumbered(marked, base, i);
    LastStrongMeans(raw, base, i);
    hide FollowsRight;
  }

  /** Text of a single direction is not reordered: left to right in logical order, right to left reversed. */
  lemma UniformLine(raw: seq<Class>, base: Direction, p: nat, q: nat)
    requires p < q < |raw|
    requires forall i :: 0 <= i < |raw| ==> raw[i] == BaseClass(base)
    ensures var order := VisualOrder(Levels(raw, base));
            && order[p] < |raw| && order[q] < |raw|
            && (order[p] < order[q] <==> base.LeftToRight?)
  {
    var levels := Levels(raw, base);
    hide MinLevel, VisualOrder;
    VisualPairs(levels);
    SameLevelReadsByParity(levels, BaseLevel(base), 0, |raw|, p, q);
  }

  // --- The levels in place --------------------------------------------------------------------------------------

  /** Resolve marks in place. */
  method ResolveMarks(classes: array<Class>, base: Direction)
    modifies classes
    ensures classes[..] == Marked(old(classes[..]), base)
  {
    ghost var raw := classes[..];
    for i := 0 to classes.Length
      invariant forall k :: 0 <= k < i ==> classes[k] == AfterW1(raw, base, k)
      invariant forall k :: i <= k < classes.Length ==> classes[k] == raw[k]
    {
      if classes[i] == Mark {
        classes[i] := if i == 0 then BaseClass(base) else classes[i - 1];
      }
    }
    assert classes[..] == Marked(raw, base);
  }

  /** Resolve numbers in place, remembering the last strong class. */
  method ResolveNumbers(classes: array<Class>, base: Direction)
    modifies classes
    ensures classes[..] == Numbered(old(classes[..]), base)
  {
    ghost var cs := classes[..];
    var lastStrong := BaseClass(base);
    for i := 0 to classes.Length
      invariant lastStrong == LastStrong(cs, base, i)
      invariant forall k :: 0 <= k < i ==> classes[k] == AfterW2(cs, base, k)
      invariant forall k :: i <= k < classes.Length ==> classes[k] == cs[k]
    {
      if IsStrong(classes[i]) {
        lastStrong := classes[i];
      } else if classes[i] == EuropeanNumber && lastStrong == Right {
        classes[i] := ArabicNumber;
      }
    }
    assert classes[..] == Numbered(cs, base);
  }

  /** Is the strong character before `i`, or else the paragraph, right to left? */
  method RightToLeftContext(classes: array<Class>, base: Direction, i: nat) returns (rtl: bool)
    requires i < classes.Length
    ensures rtl <==> LastStrong(classes[..], base, i) == Right
  {
    var j: nat := i;
    while j > 0
      invariant j <= i && LastStrong(classes[..], base, i) == LastStrong(classes[..], base, j)
    {
      if IsStrong(classes[j - 1]) {
        return classes[j - 1] == Right;
      }
      j := j - 1;
    }
    return base.RightToLeft?;
  }

  method AssignLevels(classes: array<Class>, base: Direction) returns (direct: array<Option<nat>>)
    ensures fresh(direct) && direct[..] == DirectLevels(classes[..], base)
  {
    var baseLevel := BaseLevel(base);
    direct := new Option<nat>[classes.Length](i => None);
    for i := 0 to classes.Length
      invariant fresh(direct) && classes[..] == old(classes[..])
      invariant forall k :: 0 <= k < i ==> direct[k] == DirectLevel(classes[..], base, k)
      invariant forall k :: i <= k < classes.Length ==> direct[k] == None
    {
      match classes[i] {
        case Left =>
          direct[i] := Some(if baseLevel % 2 == 0 then baseLevel else baseLevel + 1);
        case Right =>
          direct[i] := Some(if baseLevel % 2 == 1 then baseLevel else baseLevel + 1);
        case EuropeanNumber | ArabicNumber =>
          var rtl := RightToLeftContext(classes, base, i);
          if rtl {
            direct[i] := Some((if baseLevel % 2 == 1 then baseLevel else baseLevel + 1) + 1);
          } else {
            direct[i] := Some(if baseLevel % 2 == 0 then baseLevel else baseLevel + 1);
          }
        case _ =>
      }
    }
    assert direct[..] == DirectLevels(classes[..], base);
  }

  /** In a run of neutrals every character looks past the run for its neighbours. */
  lemma {:induction false} RunNeighbours(ds: seq<Option<nat>>, start: nat, i: nat, end: nat)
    requires start <= i < end <= |ds| && forall k :: start <= k < end ==> ds[k] == None
    ensures Before(ds, i) == Before(ds, start) && AfterRun(ds, i) == AfterRun(ds, end)
    decreases i - start, end - i
  {
    BeforeStays(ds, start, i);
    AfterStays(ds, i, end);
  }

  lemma {:induction false} BeforeStays(ds: seq<Option<nat>>, start: nat, i: nat)
    requires start <= i <= |ds| && forall k :: start <= k < i ==> ds[k] == None
    ensures Before(ds, i) == Before(ds, start)
  {
    if start < i {
      BeforeStays(ds, start, i - 1);
    }
  }

  lemma {:induction false} AfterStays(ds: seq<Option<nat>>, i: nat, end: nat)
    requires i <= end <= |ds| && forall k :: i <= k < end ==> ds[k] == None
    ensures AfterRun(ds, i) == AfterRun(ds, end)
    decreases end - i
  {
    if i < end {
      AfterStays(ds, i + 1, end);
    }
  }

  /** Fill the runs of neutrals. */
  method FillNeutrals(direct: array<Option<nat>>, base: Direction) returns (out: array<nat>)
    ensures fresh(out) && out.Length == direct.Length
    ensures forall k :: 0 <= k < direct.Length ==> out[k] == FinalLevel(direct[..], base, k)
  {
    ghost var ds := direct[..];
    var baseLevel := BaseLevel(base);
    out := new nat[direct.Length](i => baseLevel);
    var i := 0;
    while i < direct.Length
      invariant i <= direct.Length && direct[..] == ds && fresh(out)
      invariant i > 0 && i < direct.Length && direct[i] == None ==> direct[i - 1].Some?
      invariant forall k :: 0 <= k < i ==> out[k] == FinalLevel(ds, base, k)
    {
      match direct[i] {
        case Some(level) =>
          out[i] := level;
          i := i + 1;
        case None =>
          var start := i;
          while i < direct.Length && direct[i] == None
            invariant start <= i <= direct.Length
            invariant forall k :: start <= k < i ==> ds[k] == None
          {
            i := i + 1;
          }
          var before := if start > 0 then direct[start - 1] else None;
          var after := if i < direct.Length then direct[i] else None;
          var level := match (before, after)
                       case (Some(a), Some(b)) => if a == b then a else baseLevel
                       case _ => baseLevel;
          for slot := start to i
            invariant direct[..] == ds
            invariant forall k :: 0 <= k < start ==> out[k] == FinalLevel(ds, base, k)
            invariant forall k :: start <= k < slot ==> out[k] == level
          {
            out[slot] := level;
          }
          forall k | start <= k < i
            ensures FinalLevel(ds, base, k) == level
          {
            RunNeighbours(ds, start, k, i);
          }
      }
    }
  }

  /** The levels of a line, by the rules in turn. */
  method ComputeLevels(line: string, classOf: char -> Class, base: Direction) returns (levels: seq<nat>)
    ensures levels == Levels(Classes(line, classOf), base)
  {
    var classes := new Class[|line|](i requires 0 <= i < |line| => classOf(line[i]));
    assert classes[..] == Classes(line, classOf);
    ResolveMarks(classes, base);
    ResolveNumbers(classes, base);
    var direct := AssignLevels(classes, base);
    var out := FillNeutrals(direct, base);
    levels := out[..];
  }

  function Classes(line: string, classOf: char -> Class): (cs: seq<Class>)
    ensures |cs| == |line|
  {
    seq(|line|, i requires 0 <= i < |line| => classOf(line[i]))
  }

  // --- Visual neighbours ------------------------------------------------------------------------------------------

  /** Visual position of a logical index. */
  function PositionOf(order: seq<nat>, from: nat): (p: nat)
    ensures p <= |order| && (p < |order| ==> order[p] == from) && (p == |order| ==> from !in order)
  {
    if order == [] then 0
    else if order[0] == from then 0
    else PositionOf(order[1..], from) + 1
  }

  /** The character one position to the left or right on the screen; past the end, the edge to step in from. */
  function Neighbor(order: seq<nat>, from: nat, base: Direction, right: bool): Option<nat> {
    if from >= |order| then
      if order == [] then None
      else if !right && base.LeftToRight? then Some(order[|order| - 1])
      else if right && base.RightToLeft? then Some(order[0])
      else None
    else
      var p := PositionOf(order, from);
      if p == |order| then None
      else if right then (if p + 1 < |order| then Some(order[p + 1]) else None)
      else (if p > 0 then Some(order[p - 1]) else None)
  }

  lemma PositionUnique(order: seq<nat>, p: nat)
    requires IsPermutation(order) && p < |order|
    ensures PositionOf(order, order[p]) == p
  {
  }

  /** Steps go along the screen, from every position to the next, and stop only at the edges. */
  lemma NeighborsAlongScreen(order: seq<nat>, p: nat, base: Direction)
    requires IsPermutation(order) && p < |order|
    ensures Neighbor(order, order[p], base, true) == if p + 1 < |order| then Some(order[p + 1]) else None
    ensures Neighbor(order, order[p], base, false) == if p > 0 then Some(order[p - 1]) else None
  {
    PositionUnique(order, p);
  }

  /** Past the end of the line only the step back into it leads anywhere: to the edge where the line ends. */
  lemma NeighborsPastEnd(order: seq<nat>, from: nat, base: Direction)
    requires from >= |order| > 0
    ensures Neighbor(order, from, base, base.RightToLeft?)
         == Some(if base.LeftToRight? then order[|order| - 1] else order[0])
    ensures Neighbor(order, from, base, base.LeftToRight?) == None
  {
  }

  /** A step to a neighbour is undone by the opposite step; an edge has nothing beyond it. */
  lemma NeighborsUndo(order: seq<nat>, from: nat, base: Direction, right: bool)
    requires IsPermutation(order)
    ensures match Neighbor(order, from, base, right)
            case Some(to) => to < |order| && Neighbor(order, to, base, !right) == if from < |order| then Some(from) else None
            case None => true
  {
    if from < |order| {
      Counting.DistinctCovers(order, from);
      var p := PositionOf(order, from);
      if right && p + 1 < |order| {
        PositionUnique(order, p + 1);
      } else if !right && p > 0 {
        PositionUnique(order, p - 1);
      }
    } else if order != [] {
      PositionUnique(order, 0);
      PositionUnique(order, |order| - 1);
    }
  }

  /** Look up a character's place in the order and take the next one over. */
  method FindNeighbor(order: array<nat>, from: nat, base: Direction, right: bool) returns (to: Option<nat>)
    requires IsPermutation(order[..])
    ensures to == Neighbor(order[..], from, base, right)
  {
    if from >= order.Length {
      if order.Length == 0 {
        return None;
      }
      return match (right, base)
        case (false, LeftToRight) => Some(order[order.Length - 1])
        case (true, RightToLeft) => Some(order[0])
        case _ => None;
    }
    Counting.DistinctCovers(order[..], from);
    hide PositionOf, IsPermutation;
    var visual := 0;
    while visual < order.Length && order[visual] != from
      invariant visual <= order.Length && forall k :: 0 <= k < visual ==> order[k] != from
    {
      visual := visual + 1;
    }
    assert visual < order.Length by {
      assert from in order[..];
    }
    PositionUnique(order[..], visual);
    assert PositionOf(order[..], from) == visual;
    if right {
      to := if visual + 1 < order.Length then Some(order[visual + 1]) else None;
    } else {
      to := if visual > 0 then Some(order[visual - 1]) else None;
    }
  }

  /** The neighbour on the screen of the character at `from`. */
  method VisualNeighbor(line: string, classOf: char -> Class, from: nat, base: Direction, right: bool)
    returns (to: Option<nat>)
    ensures to == Neighbor(VisualOrder(Levels(Classes(line, classOf), base)), from, base, right)
    ensures to.Some? ==>
              Neighbor(VisualOrder(Levels(Classes(line, classOf), base)), to.value, base, !right)
              == if from < |line| then Some(from) else None
  {
    hide VisualOrder, Levels, Classes, Neighbor;
    var levels := ComputeLevels(line, classOf, base);
    var order := Reorder(levels);
    VisualPairs(levels);
    to := FindNeighbor(order, from, base, right);
    NeighborsUndo(order[..], from, base, right);
  }
}
