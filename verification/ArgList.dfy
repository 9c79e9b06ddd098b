/** The argument list: file names in order and a current index. */
module ArgLists {
  import opened Wrappers
  import opened Arithmetic
  import opened Glob

  // --- What the editing commands leave of a list ------------------------------------------------------

  ghost predicate MatchesAny(patterns: seq<string>, file: string) {
    exists i :: 0 <= i < |patterns| && Decides(patterns[i], file)
  }

  /** The entries no pattern matches, in order. */
  ghost function Kept(files: seq<string>, patterns: seq<string>): seq<string> {
    if files == [] then []
    else
      var last := |files| - 1;
      Kept(files[..last], patterns) + if MatchesAny(patterns, files[last]) then [] else [files[last]]
  }

  /** The first occurrence of each entry, in order. */
  function FirstOccurrences(files: seq<string>): seq<string> {
    if files == [] then []
    else
      var last := |files| - 1;
      var before := FirstOccurrences(files[..last]);
      if files[last] in before then before else before + [files[last]]
  }

  /** Index of the first entry equal to `file`, or the length. */
  function Position(files: seq<string>, file: string): (i: nat)
    ensures i <= |files| && file !in files[..i] && (i < |files| ==> files[i] == file)
    ensures i < |files| <==> file in files
  {
    if files == [] then 0
    else if files[0] == file then 0
    else
      var i := Position(files[1..], file);
      assert files[..i + 1] == [files[0]] + files[1..][..i];
      i + 1
  }

  lemma {:induction false} KeptSplits(files: seq<string>, patterns: seq<string>, i: nat)
    requires i <= |files|
    ensures Kept(files[..i], patterns) <= Kept(files, patterns)
    ensures |Kept(files, patterns)| <= |files|
  {
    if files == [] {
    } else if i == |files| {
      assert files[..i] == files;
      KeptSplits(files[..|files| - 1], patterns, 0);
    } else {
      KeptSplits(files[..|files| - 1], patterns, i);
      assert files[..|files| - 1][..i] == files[..i];
    }
  }

  /** Exactly the entries no pattern matches are kept. */
  lemma {:induction false} KeptMembers(files: seq<string>, patterns: seq<string>, file: string)
    ensures file in Kept(files, patterns) <==> file in files && !MatchesAny(patterns, file)
  {
    if files != [] {
      KeptMembers(files[..|files| - 1], patterns, file);
    }
  }

  /** An entry that is kept is found after the kept ones of those before it. */
  lemma KeptAt(files: seq<string>, patterns: seq<string>, i: nat)
    requires i < |files| && !MatchesAny(patterns, files[i])
    ensures |Kept(files[..i], patterns)| < |Kept(files, patterns)|
    ensures Kept(files, patterns)[|Kept(files[..i], patterns)|] == files[i]
  {
    KeptSplits(files, patterns, i + 1);
    assert files[..i + 1][..i] == files[..i];
  }

  /** Where the current index lands when the entries before it have been dropped from the count. */
  lemma CurrentAfterKept(files: seq<string>, patterns: seq<string>, current: nat)
    requires current <= |files|
    ensures var index := |Kept(files[..current], patterns)|;
            && index <= |Kept(files, patterns)| && index <= current
            && (forall i :: && current <= i < |files| && !MatchesAny(patterns, files[i])
                            && (forall j :: current <= j < i ==> MatchesAny(patterns, files[j]))
                            ==> index < |Kept(files, patterns)| && Kept(files, patterns)[index] == files[i])
            && ((forall j :: current <= j < |files| ==> MatchesAny(patterns, files[j])) ==>
                  index == |Kept(files, patterns)|)
  {
    hide Kept, MatchesAny;
    KeptSplits(files, patterns, current);
    KeptSplits(files[..current], patterns, 0);
    forall i | && current <= i < |files| && !MatchesAny(patterns, files[i])
               && (forall j :: current <= j < i ==> MatchesAny(patterns, files[j]))
      ensures var index := |Kept(files[..current], patterns)|;
              index < |Kept(files, patterns)| && Kept(files, patterns)[index] == files[i]
    {
      KeptNone(files, patterns, current, i);
      KeptAt(files, patterns, i);
    }
    if forall j :: current <= j < |files| ==> MatchesAny(patterns, files[j]) {
      KeptNone(files, patterns, current, |files|);
      assert files[..|files|] == files;
    }
  }

  lemma KeptStep(files: seq<string>, patterns: seq<string>, i: nat)
    ensures Kept(files[..0], patterns) == []
    ensures i < |files| ==>
      Kept(files[..i + 1], patterns)
      == Kept(files[..i], patterns) + if MatchesAny(patterns, files[i]) then [] else [files[i]]
  {
    if i < |files| {
      assert files[..i + 1][..i] == files[..i];
    }
  }

  /** Entries that all go leave no trace. */
  lemma {:induction false} KeptNone(files: seq<string>, patterns: seq<string>, i: nat, j: nat)
    requires i <= j <= |files| && forall k :: i <= k < j ==> MatchesAny(patterns, files[k])
    ensures Kept(files[..j], patterns) == Kept(files[..i], patterns)
    decreases j - i
  {
    if i < j {
      KeptNone(files, patterns, i, j - 1);
      assert files[..j][..j - 1] == files[..j - 1];
    }
  }

  lemma FirstOccurrencesStep(files: seq<string>, i: nat)
    ensures FirstOccurrences(files[..0]) == []
    ensures i < |files| ==>
      var before := FirstOccurrences(files[..i]);
      FirstOccurrences(files[..i + 1]) == if files[i] in before then before else before + [files[i]]
  {
    if i < |files| {
      assert files[..i + 1][..i] == files[..i];
    }
  }

  /** Removing duplicates keeps exactly the names there were, each once, in the order of first occurrence. */
  lemma {:induction false} FirstOccurrencesOrder(files: seq<string>)
    ensures forall f :: f in FirstOccurrences(files) <==> f in files
    ensures forall i, j :: 0 <= i < j < |FirstOccurrences(files)| ==>
      Position(files, FirstOccurrences(files)[i]) < Position(files, FirstOccurrences(files)[j])
  {
    if files != [] {
      var last := |files| - 1;
      var before := files[..last];
      FirstOccurrencesOrder(before);
      assert files == before + [files[last]];
      forall f | f in before
        ensures Position(files, f) == Position(before, f)
      {
        PositionOfPrefix(before, [files[last]], f);
      }
    }
  }

  lemma {:induction false} PositionOfPrefix(files: seq<string>, more: seq<string>, file: string)
    requires file in files
    ensures Position(files + more, file) == Position(files, file)
  {
    if files[0] != file {
      assert (files + more)[1..] == files[1..] + more;
      PositionOfPrefix(files[1..], more, file);
    }
  }

  // --- The list ---------------------------------------------------------------------------------------

  class ArgList {
    var files: seq<string>
    var current: nat

    /** The index is in range, and 0 on an empty list. */
    ghost predicate Valid()
      reads this
    {
      if files == [] then current == 0 else current < |files|
    }

    constructor ()
      ensures Valid() && files == []
    {
      files := [];
      current := 0;
    }

    function CurrentFile(): (r: Option<string>)
      reads this
    {
      if current < |files| then Some(files[current]) else None
    }

    /** Replace the whole list and point at the first entry. */
    method Set(files: seq<string>)
      modifies this
      ensures Valid() && this.files == files && current == 0
    {
      this.files := files;
      current := 0;
    }

    /** Insert names just after the current entry, which stays current. */
    method Add(names: seq<string>)
      requires Valid()
      modifies this
      ensures Valid()
      ensures old(files) == [] ==> files == names && current == 0
      ensures old(files) != [] ==>
                && files == old(files)[..old(current) + 1] + names + old(files)[old(current) + 1..]
                && current == old(current) && CurrentFile() == old(CurrentFile())
    {
      if files == [] {
        files := names;
        current := 0;
        return;
      }
      var at := current + 1;
      ghost var was := files;
      for i := 0 to |names|
        invariant files == was[..at] + names[..i] + was[at..]
        invariant current == old(current)
      {
        files := files[..at + i] + [names[i]] + files[at + i..];
      }
    }

    /** Insert names after the given entry, counted from 1; the current entry stays current. */
    method AddAfter(after: nat, names: seq<string>)
      requires Valid()
      modifies this
      ensures Valid()
      ensures var at := Min(after, |old(files)|); files == old(files)[..at] + names + old(files)[at..]
      ensures old(files) != [] ==> CurrentFile() == old(CurrentFile())
      ensures old(files) != [] ==> current == old(current) + if old(current) >= after then |names| else 0
      ensures old(files) == [] ==> current == 0
    {
      var had := files != [];
      var at := if after < |files| then after else |files|;
      files := files[..at] + names + files[at..];
      if had && current >= at {
        current := current + |names|;
      }
    }

    /** Remove a range of entries, counted from 1. The current entry stays current unless it is removed. */
    method DeleteRange(line1: nat, line2: nat) returns (removed: nat)
      requires Valid()
      modifies this
      ensures Valid()
      ensures var last := Min(line2, |old(files)|);
              if line1 == 0 || line1 > last then
                removed == 0 && files == old(files) && current == old(current)
              else
                && removed == last - line1 + 1
                && files == old(files)[..line1 - 1] + old(files)[last..]
                && (!(line1 - 1 <= old(current) < last) ==> old(files) != [] && CurrentFile() == old(CurrentFile()))
                && current == if old(current) >= last then old(current) - removed
                              else Min(Min(old(current), line1), Max(|files| - 1, 0))
    {
      var last := if line2 < |files| then line2 else |files|;
      if line1 == 0 || line1 > last {
        return 0;
      }
      var n := last - line1 + 1;
      files := files[..line1 - 1] + files[last..];
      if current >= last {
        current := current - n;
      } else if current > line1 {
        current := line1;
      }
      if files == [] {
        current := 0;
      } else if current >= |files| {
        current := |files| - 1;
      }
      return n;
    }

    /** Add a file after the current entry, unless it is the current one, and make it current. */
    method Edit(file: string) returns (r: string)
      requires Valid()
      modifies this
      ensures Valid() && r == file && CurrentFile() == Some(file)
      ensures if old(CurrentFile()) == Some(file) then files == old(files) && current == old(current)
              else if old(files) == [] then files == [file]
              else && current == old(current) + 1
                   && files == old(files)[..current] + [file] + old(files)[current..]
    {
      if CurrentFile() == Some(file) {
        return file;
      }
      if files == [] {
        files := [file];
        current := 0;
      } else {
        files := files[..current + 1] + [file] + files[current + 1..];
        current := current + 1;
      }
      return file;
    }

    /**
     Remove every entry that a pattern matches. The current entry stays current; if it is removed, the first
     kept entry after it becomes current, or the last of all when there is none.
     */
    method DeleteMatching(patterns: seq<string>) returns (removed: nat)
      requires Valid()
      modifies this
      ensures Valid()
      ensures files == Kept(old(files), patterns) && removed == |old(files)| - |files|
      ensures forall i :: && old(current) <= i < |old(files)| && !MatchesAny(patterns, old(files)[i])
                          && (forall j :: old(current) <= j < i ==> MatchesAny(patterns, old(files)[j]))
                          ==> CurrentFile() == Some(old(files)[i])
      ensures (forall j :: old(current) <= j < |old(files)| ==> MatchesAny(patterns, old(files)[j])) ==>
                current == Max(|files| - 1, 0)
    {
      hide Kept, MatchesAny;
      ghost var was := files;
      var before := |files|;
      var removedBefore: nat := 0;
      var kept: seq<string> := [];
      KeptStep(was, patterns, 0);
      for i := 0 to |files|
        invariant files == was && current == old(current) && before == |was|
        invariant kept == Kept(was[..i], patterns)
        invariant removedBefore == Min(i, current) - |Kept(was[..Min(i, current)], patterns)|
      {
        KeptStep(was, patterns, i);
        var any := AnyMatches(patterns, files[i]);
        if any {
          if i < current {
            removedBefore := removedBefore + 1;
          }
        } else {
          kept := kept + [files[i]];
        }
      }
      assert was[..|was|] == was;
      CurrentAfterKept(was, patterns, current);
      KeptSplits(was, patterns, 0);
      files := kept;
      var moved := SaturatingSub(current, removedBefore);
      var last := SaturatingSub(|files|, 1);
      current := if moved < last then moved else last;
      removed := before - |files|;
    }

    static method AnyMatches(patterns: seq<string>, file: string) returns (any: bool)
      ensures any <==> MatchesAny(patterns, file)
    {
      for i := 0 to |patterns|
        invariant forall j :: 0 <= j < i ==> !Decides(patterns[j], file)
      {
        var m := GlobMatch(patterns[i], file);
        if m {
          return true;
        }
      }
      return false;
    }

    /** Keep the first occurrence of every name; the same name stays current. */
    method Dedupe()
      requires Valid()
      modifies this
      ensures Valid()
      ensures files == FirstOccurrences(old(files)) && CurrentFile() == old(CurrentFile())
    {
      hide FirstOccurrences, Position;
      ghost var was := files;
      FirstOccurrencesStep(was, 0);
      var seen: set<string> := {};
      var currentFile := CurrentFile();
      var kept: seq<string> := [];
      for i := 0 to |files|
        invariant files == was && current == old(current)
        invariant kept == FirstOccurrences(was[..i])
        invariant seen == set f | f in kept
      {
        FirstOccurrencesStep(was, i);
        if files[i] !in seen {
          seen := seen + {files[i]};
          kept := kept + [files[i]];
        }
      }
      assert was[..|was|] == was;
      FirstOccurrencesOrder(was);
      files := kept;
      if currentFile.Some? {
        var position := Position(files, currentFile.value);
        if position < |files| {
          current := position;
        }
      }
      var last := SaturatingSub(|files|, 1);
      current := if current < last then current else last;
    }

    /** Advance, or stay and report nothing when that would go past the last entry. */
    method Next(count: nat) returns (r: Option<string>)
      requires Valid()
      modifies this`current
      ensures Valid()
      ensures var target := old(current) + Max(count, 1);
              if target < |files| then current == target && r == Some(files[target])
              else current == old(current) && r == None
    {
      var step := if count < 1 then 1 else count;
      if files == [] || current + step >= |files| {
        return None;
      }
      current := current + step;
      return CurrentFile();
    }

    /** Retreat, or stay and report nothing when that would go before the first entry. */
    method Prev(count: nat) returns (r: Option<string>)
      requires Valid()
      modifies this`current
      ensures Valid()
      ensures var target := old(current) - Max(count, 1);
              if target >= 0 then current == target && r == Some(files[target])
              else current == old(current) && r == None
    {
      var step := if count < 1 then 1 else count;
      if current < step {
        return None;
      }
      current := current - step;
      return CurrentFile();
    }

    method First() returns (r: Option<string>)
      modifies this`current
      ensures Valid() && current == 0 && r == CurrentFile()
    {
      current := 0;
      return CurrentFile();
    }

    method Last() returns (r: Option<string>)
      modifies this`current
      ensures Valid() && current == Max(|files| - 1, 0) && r == CurrentFile()
    {
      current := SaturatingSub(|files|, 1);
      return CurrentFile();
    }

    /** Go to an entry counted from 1, or stay and report nothing when there is no such entry. */
    method Goto(n: nat) returns (r: Option<string>)
      requires Valid()
      modifies this`current
      ensures Valid()
      ensures if 1 <= n <= |files| then current == n - 1 && r == Some(files[n - 1])
              else current == old(current) && r == None
    {
      if n == 0 || n > |files| {
        return None;
      }
      current := n - 1;
      return CurrentFile();
    }
  }
}
