/** C preprocessor conditionals: two depth counters and a stack machine over the same nesting. */
module Conditionals {
  import opened Wrappers
  import opened Arithmetic

  datatype Directive = If | Else | Endif | Other

  // --- Lines --------------------------------------------------------------------------------------------

  function TrimStart(s: string, skip: char -> bool): string {
    if s != [] && skip(s[0]) then TrimStart(s[1..], skip) else s
  }

  function TrimEnd(s: string, skip: char -> bool): string {
    if s != [] && skip(s[|s| - 1]) then TrimEnd(s[..|s| - 1], skip) else s
  }

  predicate IsAlphabetic(c: char) {
    'a' <= c <= 'z' || 'A' <= c <= 'Z'
  }

  function Word(s: string): (w: string)
    ensures w <= s
  {
    if s != [] && IsAlphabetic(s[0]) then [s[0]] + Word(s[1..]) else []
  }

  /** Classify a line, given which characters are white space. */
  function Classify(line: string, isSpace: char -> bool): Directive {
    var rest := TrimStart(line, isSpace);
    if rest == [] || rest[0] != '#' then Other
    else
      var word := Word(TrimStart(rest[1..], isSpace));
      if word in {"if", "ifdef", "ifndef"} then If
      else if word in {"elif", "elifdef", "elifndef", "else"} then Else
      else if word == "endif" then Endif
      else Other
  }

  function AfterHash(line: string, isSpace: char -> bool): string {
    TrimStart(TrimStart(TrimStart(line, isSpace), c => c == '#'), isSpace)
  }

  function Keyword(line: string, isSpace: char -> bool): string {
    Word(AfterHash(line, isSpace))
  }

  function Condition(line: string, isSpace: char -> bool): string {
    var rest := AfterHash(line, isSpace);
    TrimEnd(TrimStart(rest[|Word(rest)|..], isSpace), isSpace)
  }

  // --- Written directives -----------------------------------------------------------------------------------

  /** What is known of white space: no letter and no `#` is. */
  ghost predicate IsSpaceTest(isSpace: char -> bool) {
    forall c :: isSpace(c) ==> !IsAlphabetic(c) && c != '#'
  }

  predicate AllOf(s: string, test: char -> bool) {
    forall i :: 0 <= i < |s| ==> test(s[i])
  }

  /** A directive line: spaces, a `#`, spaces again, a word and the rest. */
  ghost predicate IsWritten(line: string, lead: string, gap: string, word: string, rest: string, isSpace: char -> bool) {
    && line == lead + "#" + gap + word + rest
    && AllOf(lead, isSpace) && AllOf(gap, isSpace)
    && word != [] && AllOf(word, IsLetter()) && (rest == [] || !IsLetter()(rest[0]))
  }

  function IsLetter(): char -> bool {
    c => ('a' <= c && c <= 'z') || ('A' <= c && c <= 'Z')
  }

  lemma LettersAreAlphabetic()
    ensures forall c: char :: IsLetter()(c) <==> IsAlphabetic(c)
  {
  }

  lemma {:induction false} TrimsStart(lead: string, rest: string, skip: char -> bool)
    requires AllOf(lead, skip) && (rest == [] || !skip(rest[0]))
    ensures TrimStart(lead + rest, skip) == rest
  {
    if lead != [] {
      assert (lead + rest)[1..] == lead[1..] + rest;
      TrimsStart(lead[1..], rest, skip);
    } else {
      assert lead + rest == rest;
    }
  }

  lemma {:induction false} TrimsEnd(text: string, tail: string, skip: char -> bool)
    requires AllOf(tail, skip) && (text == [] || !skip(text[|text| - 1]))
    ensures TrimEnd(text + tail, skip) == text
    decreases |tail|
  {
    if tail != [] {
      var n := |tail| - 1;
      assert (text + tail)[..|text + tail| - 1] == text + tail[..n];
      TrimsEnd(text, tail[..n], skip);
    } else {
      assert text + tail == text;
    }
  }

  lemma {:induction false} WordOf(word: string, rest: string)
    requires AllOf(word, IsAlphabetic) && (rest == [] || !IsAlphabetic(rest[0]))
    ensures Word(word + rest) == word
  {
    if word != [] {
      assert (word + rest)[1..] == word[1..] + rest;
      WordOf(word[1..], rest);
      assert [word[0]] + word[1..] == word;
    } else {
      assert word + rest == rest;
    }
  }

  /** Which directive a written line is, by its word; and its keyword. */
  lemma WrittenDirective(line: string, lead: string, gap: string, word: string, rest: string, isSpace: char -> bool)
    requires IsSpaceTest(isSpace) && IsWritten(line, lead, gap, word, rest, isSpace)
    ensures Classify(line, isSpace) == If <==> word == "if" || word == "ifdef" || word == "ifndef"
    ensures Classify(line, isSpace) == Else <==> word == "elif" || word == "elifdef" || word == "elifndef" || word == "else"
    ensures Classify(line, isSpace) == Endif <==> word == "endif"
    ensures Keyword(line, isSpace) == word && AfterHash(line, isSpace) == word + rest
  {
    LettersAreAlphabetic();
    hide IsLetter;
    var tail := gap + (word + rest);
    assert line == lead + ("#" + tail) && ("#" + tail)[1..] == tail;
    TrimsStart(lead, "#" + tail, isSpace);
    TrimsStart(gap, word + rest, isSpace);
    assert tail == [] || tail[0] != '#' by {
      if gap == [] {
        assert tail == word + rest;
      }
    }
    TrimsStart("#", tail, c => c == '#');
    WordOf(word, rest);
  }

  /** The condition of a written line: the rest without the spaces around it. */
  lemma WrittenCondition(line: string, lead: string, gap: string, word: string, before: string, text: string, after: string,
                         isSpace: char -> bool)
    requires IsSpaceTest(isSpace) && IsWritten(line, lead, gap, word, before + text + after, isSpace)
    requires AllOf(before, isSpace) && AllOf(after, isSpace)
    requires text != [] ==> !isSpace(text[0]) && !isSpace(text[|text| - 1])
    ensures Condition(line, isSpace) == text
  {
    LettersAreAlphabetic();
    hide IsLetter;
    var rest := before + text + after;
    WrittenDirective(line, lead, gap, word, rest, isSpace);
    WordOf(word, rest);
    assert (word + rest)[|word|..] == rest;
    if text == [] {
      assert rest == (before + after) + [] && AllOf(before + after, isSpace);
      TrimsStart(before + after, [], isSpace);
    } else {
      assert rest == before + (text + after);
      TrimsStart(before, text + after, isSpace);
      TrimsEnd(text, after, isSpace);
    }
  }

  lemma {:induction false} Trimmed(s: string, skip: char -> bool) returns (n: nat)
    ensures n <= |s| && TrimStart(s, skip) == s[n..] && (n < |s| ==> !skip(s[n]))
    ensures forall i :: 0 <= i < n ==> skip(s[i])
  {
    n := 0;
    if s != [] && skip(s[0]) {
      var more := Trimmed(s[1..], skip);
      n := more + 1;
      assert s[1..][more..] == s[n..];
      assert forall i :: 0 < i < n ==> s[i] == s[1..][i - 1];
    }
  }

  lemma Lead(s: string, skip: char -> bool) returns (lead: string, tail: string)
    ensures s == lead + tail && tail == TrimStart(s, skip) && AllOf(lead, skip)
  {
    hide TrimStart;
    var n := Trimmed(s, skip);
    lead, tail := s[..n], s[n..];
  }

  lemma {:induction false} WordEnds(s: string) returns (rest: string)
    ensures s == Word(s) + rest && AllOf(Word(s), IsAlphabetic) && (rest == [] || !IsAlphabetic(rest[0]))
  {
    rest := s;
    if s != [] && IsAlphabetic(s[0]) {
      rest := WordEnds(s[1..]);
      assert s == [s[0]] + s[1..];
    }
  }

  lemma DirectiveWord(line: string, isSpace: char -> bool)
    requires Classify(line, isSpace) != Other
    ensures var hash := TrimStart(line, isSpace);
            hash != [] && hash[0] == '#' && Word(TrimStart(hash[1..], isSpace)) != []
  {
    hide TrimStart, Word;
  }

  /** Every line that is a directive is written as one. */
  lemma DirectiveIsWritten(line: string, isSpace: char -> bool)
      returns (lead: string, gap: string, word: string, rest: string)
    requires Classify(line, isSpace) != Other
    ensures IsWritten(line, lead, gap, word, rest, isSpace)
  {
    hide TrimStart, Word, Classify, AllOf;
    DirectiveWord(line, isSpace);
    var hash, text;
    lead, hash := Lead(line, isSpace);
    gap, text := Lead(hash[1..], isSpace);
    word := Word(text);
    rest := WordEnds(text);
    WrittenInLetters(word, rest);
    Assembled(line, lead, hash, hash[1..], gap, text, word, rest);
  }

  lemma WrittenInLetters(word: string, rest: string)
    requires AllOf(word, IsAlphabetic) && (rest == [] || !IsAlphabetic(rest[0]))
    ensures AllOf(word, IsLetter()) && (rest == [] || !IsLetter()(rest[0]))
  {
    LettersAreAlphabetic();
    hide IsLetter;
  }

  lemma Assembled(line: string, lead: string, hash: string, tail: string, gap: string, text: string, word: string,
                  rest: string)
    requires line == lead + hash && hash != [] && hash[0] == '#' && tail == hash[1..]
    requires tail == gap + text && text == word + rest
    ensures line == lead + "#" + gap + word + rest
  {
    assert hash == "#" + tail;
  }

  function Directives(lines: seq<string>, isSpace: char -> bool): (ds: seq<Directive>)
    ensures |ds| == |lines|
  {
    seq(|lines|, i requires 0 <= i < |lines| => Classify(lines[i], isSpace))
  }

  // --- Nesting ----------------------------------------------------------------------------------------------

  function Step(d: Directive): int {
    match d
    case If => 1
    case Endif => -1
    case _ => 0
  }

  /** Conditionals opened less conditionals closed on the lines from `a` up to `b`. */
  function Net(ds: seq<Directive>, a: nat, b: nat): int
    requires a <= b <= |ds|
  {
    if a == b then 0 else Net(ds, a, b - 1) + Step(ds[b - 1])
  }

  lemma {:induction false} NetSplits(ds: seq<Directive>, a: nat, b: nat, c: nat)
    requires a <= b <= c <= |ds|
    ensures Net(ds, a, c) == Net(ds, a, b) + Net(ds, b, c)
  {
    if b < c {
      NetSplits(ds, a, b, c - 1);
    }
  }

  // --- The depth counters ---------------------------------------------------------------------------------------

  /** The first `#endif` from `cur` on that leaves no conditional open since `cur`. */
  predicate ForwardTarget(ds: seq<Directive>, cur: nat, j: nat) {
    cur <= j < |ds| && ds[j] == Endif && Net(ds, cur, j + 1) <= 0
  }

  method ForwardConditional(lines: seq<string>, isSpace: char -> bool, cur: nat) returns (r: Option<nat>)
    ensures var ds := Directives(lines, isSpace);
            match r
            case Some(j) => ForwardTarget(ds, cur, j) && forall k :: cur <= k < j ==> !ForwardTarget(ds, cur, k)
            case None => forall k :: !ForwardTarget(ds, cur, k)
  {
    hide Classify;
    ghost var ds := Directives(lines, isSpace);
    if cur >= |lines| {
      return None;
    }
    var depth := 0;
    for i := cur to |lines|
      invariant depth == Net(ds, cur, i)
      invariant forall k :: cur <= k < i ==> !ForwardTarget(ds, cur, k)
    {
      match Classify(lines[i], isSpace) {
        case If => depth := depth + 1;
        case Endif =>
          depth := depth - 1;
          if depth <= 0 {
            return Some(i);
          }
        case _ =>
      }
    }
    return None;
  }

  /** The last `#if` up to `cur` that opens no less than is closed after it. */
  predicate BackwardTarget(ds: seq<Directive>, cur: nat, j: nat) {
    j <= cur < |ds| && ds[j] == If && Net(ds, j, cur + 1) >= 0
  }

  /** What a motion comes to: a line or no line, or a read of a line that does not exist. */
  datatype Outcome = Found(line: nat) | NotFound | OutOfRange

  /**
   The mirrored counter. It reads its first line before anything else, so on a file without lines, and on no
   other, that read is out of range.
   */
  method BackwardConditional(lines: seq<string>, isSpace: char -> bool, cur: nat) returns (r: Outcome)
    ensures r == OutOfRange <==> lines == []
    ensures var ds, start := Directives(lines, isSpace), Min(cur, SaturatingSub(|lines|, 1));
            match r
            case Found(j) => BackwardTarget(ds, start, j) && forall k :: j < k <= start ==> !BackwardTarget(ds, start, k)
            case _ => forall k :: !BackwardTarget(ds, start, k)
  {
    hide Classify;
    ghost var ds := Directives(lines, isSpace);
    var start: nat := Min(cur, SaturatingSub(|lines|, 1));
    var depth := 0;
    var i := start + 1;
    while i > 0
      invariant 0 <= i <= start + 1 && (lines == [] ==> i == start + 1)
      invariant lines != [] ==> depth == -Net(ds, i, start + 1)
      invariant forall k :: i <= k <= start ==> !BackwardTarget(ds, start, k)
    {
      i := i - 1;
      if i >= |lines| {
        return OutOfRange;
      }
      NetSplits(ds, i, i + 1, start + 1);
      match Classify(lines[i], isSpace) {
        case Endif => depth := depth + 1;
        case If =>
          depth := depth - 1;
          if depth <= 0 {
            return Found(i);
          }
        case _ =>
      }
    }
    return NotFound;
  }

  /** Forward from an `#if` and back again from the `#endif` found: the same `#if`. */
  lemma BackwardUndoesForward(ds: seq<Directive>, i: nat, j: nat)
    requires i < |ds| && ds[i] == If
    requires ForwardTarget(ds, i, j) && forall k :: i <= k < j ==> !ForwardTarget(ds, i, k)
    ensures BackwardTarget(ds, j, i) && forall k :: i < k <= j ==> !BackwardTarget(ds, j, k)
  {
    OpenUntilTarget(ds, i, j);
    forall k | i < k <= j
      ensures !BackwardTarget(ds, j, k)
    {
      NetSplits(ds, i, k, j + 1);
    }
  }

  /** Up to its `#endif` a conditional stays open, and there it closes. */
  lemma OpenUntilTarget(ds: seq<Directive>, i: nat, j: nat)
    requires i <= j < |ds| && ds[i] == If && ForwardTarget(ds, i, j)
    requires forall k :: i <= k < j ==> !ForwardTarget(ds, i, k)
    ensures forall k :: i < k <= j ==> Net(ds, i, k) >= 1
    ensures Net(ds, i, j + 1) == 0
  {
    OpenBefore(ds, i, j);
  }

  lemma {:induction false} OpenBefore(ds: seq<Directive>, i: nat, j: nat)
    requires i <= j < |ds| && ds[i] == If && forall k :: i <= k < j ==> !ForwardTarget(ds, i, k)
    ensures forall k :: i < k <= j ==> Net(ds, i, k) >= 1
  {
    if i < j {
      OpenBefore(ds, i, j - 1);
      if i < j - 1 {
        assert !ForwardTarget(ds, i, j - 1);
      } else {
        assert Net(ds, i, i) == 0;
      }
    }
  }

  // --- Branches ---------------------------------------------------------------------------------------------------

  /** Lines that neither open nor close a conditional are passed over. */
  lemma PassedOver(ds: seq<Directive>, a: nat, b: nat)
    requires a <= b <= |ds| && forall k :: a <= k < b ==> ds[k] in {Else, Other}
    ensures Net(ds, a, b) == 0
    decreases b - a
  {
    if a < b {
      PassedOver(ds, a, b - 1);
    }
  }

  /**
   Forward from any line, the next line that opens or closes a conditional decides: an `#endif` is where the motion
   goes, an `#if` has it go where that conditional ends.
   */
  lemma ForwardFromAnywhere(ds: seq<Directive>, cur: nat, i: nat)
    requires cur <= i < |ds| && ds[i] in {If, Endif} && forall k :: cur <= k < i ==> ds[k] in {Else, Other}
    ensures ds[i] == Endif ==> ForwardTarget(ds, cur, i)
    ensures forall j: nat :: ForwardTarget(ds, cur, j) <==> j >= i && ForwardTarget(ds, i, j)
  {
    PassedOver(ds, cur, i);
    forall j: nat
      ensures ForwardTarget(ds, cur, j) <==> j >= i && ForwardTarget(ds, i, j)
    {
      if i <= j < |ds| {
        NetSplits(ds, cur, i, j + 1);
      }
    }
    assert ds[i] == Endif ==> Net(ds, i, i + 1) == -1;
  }

  /** Backward from any line, the last line that opens or closes a conditional decides in the same way. */
  lemma BackwardFromAnywhere(ds: seq<Directive>, cur: nat, i: nat)
    requires i <= cur < |ds| && ds[i] in {If, Endif} && forall k :: i < k <= cur ==> ds[k] in {Else, Other}
    ensures ds[i] == If ==> BackwardTarget(ds, cur, i)
    ensures forall j: nat :: BackwardTarget(ds, cur, j) <==> j <= i && BackwardTarget(ds, i, j)
  {
    PassedOver(ds, i + 1, cur + 1);
    forall j: nat
      ensures BackwardTarget(ds, cur, j) <==> j <= i && BackwardTarget(ds, i, j)
    {
      if j <= i {
        NetSplits(ds, j, i + 1, cur + 1);
      }
    }
    assert ds[i] == If ==> Net(ds, i, i + 1) == 1;
  }

  /** Backward from an `#endif` the motion only reaches an `#if` from which the forward motion comes back. */
  lemma ForwardUndoesBackward(ds: seq<Directive>, i: nat, j: nat)
    requires i < |ds| && ds[i] == Endif && BackwardTarget(ds, i, j) && forall k :: j < k <= i ==> !BackwardTarget(ds, i, k)
    ensures ForwardTarget(ds, j, i) && forall k :: j <= k < i ==> !ForwardTarget(ds, j, k)
  {
    assert j < i;
    NetSplits(ds, j, j + 1, i + 1);
    ClosedAfter(ds, i, j, j + 1);
    forall k | j <= k < i
      ensures !ForwardTarget(ds, j, k)
    {
      NetSplits(ds, j, k + 1, i + 1);
      ClosedAfter(ds, i, j, k + 1);
    }
  }

  lemma {:induction false} ClosedAfter(ds: seq<Directive>, i: nat, j: nat, k: nat)
    requires j < k <= i < |ds| && ds[i] == Endif && forall l :: j < l <= i ==> !BackwardTarget(ds, i, l)
    ensures Net(ds, k, i + 1) <= -1
    decreases i - k
  {
    NetSplits(ds, k, k + 1, i + 1);
    if k < i {
      ClosedAfter(ds, i, j, k + 1);
      assert !BackwardTarget(ds, i, k);
    }
  }

  predicate Opens(d: Directive) {
    d == If || d == Else
  }

  /** A line that ends the branch opened on line `o`: an else or `#endif` with nothing opened in between. */
  predicate Ends(ds: seq<Directive>, o: nat, j: nat) {
    o < j < |ds| && (ds[j] == Else || ds[j] == Endif) && Net(ds, o + 1, j) == 0
  }

  /** The first line that ends the branch opened on line `o`, from line `j` on, or the end of the file. */
  function EndFrom(ds: seq<Directive>, o: nat, j: nat): (e: nat)
    requires o < j <= |ds|
    ensures j <= e <= |ds| && (e < |ds| ==> Ends(ds, o, e)) && forall k :: j <= k < e ==> !Ends(ds, o, k)
    decreases |ds| - j
  {
    if j == |ds| || Ends(ds, o, j) then j else EndFrom(ds, o, j + 1)
  }

  function BranchEnd(ds: seq<Directive>, o: nat): (e: nat)
    requires o < |ds|
    ensures o < e <= |ds|
  {
    EndFrom(ds, o, o + 1)
  }

  lemma BranchEndIs(ds: seq<Directive>, o: nat, e: nat)
    requires o < e <= |ds| && (e < |ds| ==> Ends(ds, o, e)) && forall k :: o < k < e ==> !Ends(ds, o, k)
    ensures BranchEnd(ds, o) == e
  {
  }

  /** Inside a branch everything opened is at most closed again. */
  lemma {:induction false} InsideBranch(ds: seq<Directive>, o: nat, j: nat)
    requires o < |ds| && o < j <= BranchEnd(ds, o)
    ensures Net(ds, o + 1, j) >= 0
  {
    if j > o + 1 {
      InsideBranch(ds, o, j - 1);
      assert !Ends(ds, o, j - 1);
    }
  }

  /** Branches never cross: a branch opened inside another ends inside it. */
  lemma BranchesNest(ds: seq<Directive>, o: nat, p: nat)
    requires o < p < |ds| && p < BranchEnd(ds, o) && Opens(ds[p])
    ensures BranchEnd(ds, p) <= BranchEnd(ds, o)
    ensures BranchEnd(ds, p) < |ds| ==> BranchEnd(ds, p) < BranchEnd(ds, o)
  {
    var e, f := BranchEnd(ds, o), BranchEnd(ds, p);
    InsideBranch(ds, o, p);
    InsideBranch(ds, o, p + 1);
    assert !Ends(ds, o, p);
    if e < |ds| && f >= e {
      NetSplits(ds, o + 1, p + 1, e);
      InsideBranch(ds, p, e);
    }
  }

  /** No line ends two branches. */
  lemma OneBranchEnds(ds: seq<Directive>, o: nat, p: nat)
    requires o < p < |ds| && Opens(ds[p]) && BranchEnd(ds, o) == BranchEnd(ds, p)
    ensures BranchEnd(ds, o) == |ds|
  {
    BranchesNest(ds, o, p);
  }

  // --- Groups -----------------------------------------------------------------------------------------------------

  /** Where the group of a branch ends: past its else branches, at the `#endif` or the end of the file. */
  function GroupEnd(ds: seq<Directive>, o: nat): (e: nat)
    requires o < |ds|
    ensures o < e <= |ds|
    decreases |ds| - o
  {
    var e := BranchEnd(ds, o);
    if e < |ds| && ds[e] == Else then GroupEnd(ds, e) else e
  }

  /** The stack machine and the depth counter agree on where a conditional ends. */
  lemma GroupEndIsForward(ds: seq<Directive>, i: nat)
    requires i < |ds| && ds[i] == If
    ensures GroupEnd(ds, i) < |ds| ==>
      && ForwardTarget(ds, i, GroupEnd(ds, i))
      && forall k :: i <= k < GroupEnd(ds, i) ==> !ForwardTarget(ds, i, k)
    ensures GroupEnd(ds, i) == |ds| ==> forall k :: !ForwardTarget(ds, i, k)
  {
    NetSplits(ds, i, i, i + 1);
    OpenInGroup(ds, i, i);
    var e := GroupEnd(ds, i);
    if e < |ds| {
      assert Net(ds, i, e + 1) == Net(ds, i, e) + Step(ds[e]);
    }
  }

  /** From any branch of the group on, the conditional stays open until the group ends. */
  lemma {:induction false} OpenInGroup(ds: seq<Directive>, i: nat, o: nat)
    requires i <= o < |ds| && Net(ds, i, o + 1) == 1
    ensures forall k :: o < k <= GroupEnd(ds, o) ==> Net(ds, i, k) >= 1
    ensures GroupEnd(ds, o) < |ds| ==> ds[GroupEnd(ds, o)] == Endif && Net(ds, i, GroupEnd(ds, o)) == 1
    decreases |ds| - o
  {
    var e := BranchEnd(ds, o);
    forall k | o < k <= e
      ensures Net(ds, i, k) >= 1
    {
      InsideBranch(ds, o, k);
      NetSplits(ds, i, o + 1, k);
    }
    if e < |ds| {
      NetSplits(ds, i, o + 1, e);
      if ds[e] == Else {
        OpenInGroup(ds, i, e);
      }
    }
  }

  /** The two motions and the branches agree: forward from an `#if` to its group's end, and back to the `#if`. */
  lemma MotionsMeet(ds: seq<Directive>, i: nat)
    requires i < |ds| && ds[i] == If && GroupEnd(ds, i) < |ds|
    ensures var e := GroupEnd(ds, i);
            && ForwardTarget(ds, i, e) && (forall k :: i <= k < e ==> !ForwardTarget(ds, i, k))
            && BackwardTarget(ds, e, i) && (forall k :: i < k <= e ==> !BackwardTarget(ds, e, k))
  {
    hide ForwardTarget, BackwardTarget, GroupEnd;
    GroupEndIsForward(ds, i);
    BackwardUndoesForward(ds, i, GroupEnd(ds, i));
  }

  // --- The stack machine --------------------------------------------------------------------------------------------

  /** A branch: the lines of its body, its condition, and whether the preprocessor compiles it. */
  datatype Branch = Branch(start: nat, end: nat, condition: string, taken: Option<bool>)

  /** The verdict on a branch, given its own condition's and whether an earlier branch of its group was taken. */
  function Verdict(keyword: string, own: Option<bool>, earlierTaken: bool): Option<bool> {
    if earlierTaken then Some(false)
    else if keyword == "else" then None
    else own
  }

  /** The lines of a file, with what each directive's condition evaluates to. */
  datatype Source = Source(lines: seq<string>, isSpace: char -> bool, eval: (string, string, nat) -> Option<bool>) {

    function Ds(): (ds: seq<Directive>)
      ensures |ds| == |lines|
    {
      Directives(lines, isSpace)
    }

    /** The branch that line `j` ends, looked for from line `o - 1` back. */
    function EndedFrom(j: nat, o: nat): (r: Option<nat>)
      requires o <= j < |lines|
      ensures r.Some? ==> r.value < o && Opens(Ds()[r.value]) && BranchEnd(Ds(), r.value) == j
      ensures r == None ==> forall k :: 0 <= k < o && Opens(Ds()[k]) ==> BranchEnd(Ds(), k) != j
    {
      if o == 0 then None
      else if Opens(Ds()[o - 1]) && BranchEnd(Ds(), o - 1) == j then Some(o - 1)
      else EndedFrom(j, o - 1)
    }

    /** Was an earlier branch of the group of line `o` provably taken? */
    function EarlierTaken(o: nat): bool
      requires o < |lines|
      decreases o, 0
    {
      if Ds()[o] != Else then false
      else
        match EndedFrom(o, o)
        case None => false
        case Some(previous) => EarlierTaken(previous) || Taken(previous) == Some(true)
    }

    function Taken(o: nat): Option<bool>
      requires o < |lines|
      decreases o, 1
    {
      var keyword, condition := Keyword(lines[o], isSpace), Condition(lines[o], isSpace);
      Verdict(keyword, eval(keyword, condition, o), EarlierTaken(o))
    }

    /** The branch opened on line `o`, by scanning ahead for its end. */
    function BranchAt(o: nat): Branch
      requires o < |lines|
    {
      Branch(o + 1, BranchEnd(Ds(), o), Condition(lines[o], isSpace), Taken(o))
    }
  }

  /** An open branch on the stack: its line, keyword and condition, and whether an earlier one was taken. */
  datatype Entry = Entry(line: nat, keyword: string, condition: string, earlierTaken: bool)

  ghost predicate IsEntry(s: Source, e: Entry) {
    && e.line < |s.lines| && Opens(s.Ds()[e.line])
    && e.keyword == Keyword(s.lines[e.line], s.isSpace) && e.condition == Condition(s.lines[e.line], s.isSpace)
    && e.earlierTaken == s.EarlierTaken(e.line)
  }

  /** The entry at depth `k` is open at line `i`, with as much opened since as there are entries above it. */
  ghost predicate IsOpen(s: Source, i: nat, e: Entry, above: int)
    requires i <= |s.lines|
  {
    && IsEntry(s, e) && e.line < i
    && Net(s.Ds(), e.line + 1, i) == above
    && forall j :: e.line < j < i ==> !Ends(s.Ds(), e.line, j)
  }

  ghost predicate StackHolds(s: Source, i: nat, stack: seq<Entry>) {
    && i <= |s.lines|
    && forall k :: 0 <= k < |stack| ==> IsOpen(s, i, stack[k], |stack| - 1 - k)
  }

  ghost predicate OnStack(stack: seq<Entry>, o: nat) {
    exists k :: 0 <= k < |stack| && stack[k].line == o
  }

  ghost predicate Emitted(out: seq<Branch>, o: nat) {
    exists k :: 0 <= k < |out| && out[k].start == o + 1
  }

  /** A reported branch: the one its line opens, ended before line `ended`. */
  ghost predicate IsReported(s: Source, ended: nat, b: Branch) {
    && 1 <= b.start <= |s.lines| && Opens(s.Ds()[b.start - 1])
    && b == s.BranchAt(b.start - 1) && b.end < ended
  }

  ghost predicate AllReal(s: Source, ended: nat, out: seq<Branch>) {
    forall k :: 0 <= k < |out| ==> IsReported(s, ended, out[k])
  }

  /** No branch is reported twice, or both reported and on the stack; the stack is in order of lines. */
  ghost predicate NoRepeats(i: nat, stack: seq<Entry>, out: seq<Branch>) {
    && (forall k, l :: 0 <= k < l < |out| ==> out[k].start != out[l].start)
    && (forall k, l :: 0 <= k < l < |stack| ==> stack[k].line < stack[l].line)
    && (forall k :: 0 <= k < |stack| ==> stack[k].line < i && !Emitted(out, stack[k].line))
  }

  /** Every branch opened before line `i` is on the stack or was reported. */
  ghost predicate Covers(s: Source, i: nat, stack: seq<Entry>, out: seq<Branch>) {
    i <= |s.lines| && forall o :: 0 <= o < i && Opens(s.Ds()[o]) ==> OnStack(stack, o) || Emitted(out, o)
  }

  ghost predicate Accounted(s: Source, i: nat, ended: nat, stack: seq<Entry>, out: seq<Branch>) {
    AllReal(s, ended, out) && NoRepeats(i, stack, out) && Covers(s, i, stack, out)
  }

  /** An open entry stays open across a line that does not end it. */
  lemma StaysOpen(s: Source, i: nat, e: Entry, above: int)
    requires i < |s.lines| && IsOpen(s, i, e, above)
    requires above > 0 || s.Ds()[i] in {If, Other}
    ensures IsOpen(s, i + 1, e, above + Step(s.Ds()[i]))
  {
  }

  /** The top entry is the branch that an else or `#endif` ends. */
  lemma TopEnds(s: Source, i: nat, e: Entry)
    requires i < |s.lines| && IsOpen(s, i, e, 0) && s.Ds()[i] in {Else, Endif}
    ensures BranchEnd(s.Ds(), e.line) == i
    ensures s.BranchAt(e.line)
         == Branch(e.line + 1, i, e.condition, Verdict(e.keyword, s.eval(e.keyword, e.condition, e.line), e.earlierTaken))
  {
    BranchEndIs(s.Ds(), e.line, i);
  }

  /** The branch an else ends is the one its verdict depends on. */
  lemma ElseFollowsTop(s: Source, i: nat, e: Entry)
    requires i < |s.lines| && IsOpen(s, i, e, 0) && s.Ds()[i] == Else
    ensures s.EarlierTaken(i) == (e.earlierTaken || s.Taken(e.line) == Some(true))
  {
    TopEnds(s, i, e);
    hide Classify, Keyword, Condition, Net, BranchEnd, Source.EndedFrom;
    var found := s.EndedFrom(i, i);
    if found.Some? && found.value < e.line {
      OneBranchEnds(s.Ds(), found.value, e.line);
    } else if found.Some? && found.value > e.line {
      OneBranchEnds(s.Ds(), e.line, found.value);
    }
  }

  lemma ElseFollowsNone(s: Source, i: nat, out: seq<Branch>)
    requires i < |s.lines| && s.Ds()[i] == Else && Accounted(s, i, i, [], out)
    ensures !s.EarlierTaken(i)
  {
    hide Classify, Keyword, Condition, Verdict, Net, BranchEnd, Source.EndedFrom, Source.Ds, Opens;
    forall k | 0 <= k < i && Opens(s.Ds()[k])
      ensures BranchEnd(s.Ds(), k) < i
    {
      ReportedBefore(s, i, out, k);
    }
    hide Accounted;
    var found := s.EndedFrom(i, i);
  }

  lemma ReportedBefore(s: Source, i: nat, out: seq<Branch>, o: nat)
    requires AllReal(s, i, out) && Covers(s, i, [], out) && o < i && Opens(s.Ds()[o])
    ensures BranchEnd(s.Ds(), o) < i
  {
    hide Classify, Keyword, Condition, Net, BranchEnd, Source.Ds, Opens, Source.Taken, AllReal, Covers;
    NothingOnStack(s, i, out, o);
    var k :| 0 <= k < |out| && out[k].start == o + 1;
    RealAt(s, i, out, k);
  }

  lemma NothingOnStack(s: Source, i: nat, out: seq<Branch>, o: nat)
    requires Covers(s, i, [], out) && o < i && Opens(s.Ds()[o])
    ensures Emitted(out, o)
  {
    hide Classify, BranchEnd, Source.Ds, Opens;
  }

  lemma RealAt(s: Source, ended: nat, out: seq<Branch>, k: nat)
    requires AllReal(s, ended, out) && k < |out|
    ensures IsReported(s, ended, out[k])
  {
    hide IsReported;
  }

  // --- One line of the machine ----------------------------------------------------------------------------------------

  lemma Pushed(s: Source, i: nat, stack: seq<Entry>, out: seq<Branch>, e: Entry)
    requires i < |s.lines| && IsEntry(s, e) && e.line == i
    requires forall k :: 0 <= k < |stack| ==> IsOpen(s, i + 1, stack[k], |stack| - k)
    requires Accounted(s, i, i + 1, stack, out)
    ensures StackHolds(s, i + 1, stack + [e]) && Accounted(s, i + 1, i + 1, stack + [e], out)
  {
    NotYetEmitted(s, i, out);
    hide AllReal;
    PushedNoRepeats(i, stack, out, e);
    PushedCovers(s, i, stack, out, e);
    hide NoRepeats, Covers;
  }

  lemma PushedNoRepeats(i: nat, stack: seq<Entry>, out: seq<Branch>, e: Entry)
    requires NoRepeats(i, stack, out) && e.line == i && !Emitted(out, i)
    ensures NoRepeats(i + 1, stack + [e], out)
  {
    hide Emitted;
  }

  lemma PushedCovers(s: Source, i: nat, stack: seq<Entry>, out: seq<Branch>, e: Entry)
    requires i < |s.lines| && e.line == i && Covers(s, i, stack, out)
    ensures Covers(s, i + 1, stack + [e], out)
  {
    hide Emitted, Source.Ds, Opens;
    forall o | OnStack(stack, o)
      ensures OnStack(stack + [e], o)
    {
      var k :| 0 <= k < |stack| && stack[k].line == o;
      assert (stack + [e])[k].line == o;
    }
    assert (stack + [e])[|stack|].line == i;
  }

  lemma NotYetEmitted(s: Source, i: nat, out: seq<Branch>)
    requires AllReal(s, i + 1, out)
    ensures !Emitted(out, i)
  {
    hide Opens;
  }

  lemma Passed(s: Source, i: nat, stack: seq<Entry>, out: seq<Branch>)
    requires i < |s.lines| && !Opens(s.Ds()[i]) && Accounted(s, i, i + 1, stack, out)
    ensures Accounted(s, i + 1, i + 1, stack, out)
  {
    hide OnStack, Emitted, AllReal;
  }

  lemma Waited(s: Source, i: nat, stack: seq<Entry>, out: seq<Branch>)
    requires Accounted(s, i, i, stack, out)
    ensures Accounted(s, i, i + 1, stack, out)
  {
    hide NoRepeats, Covers;
  }

  /** Entries below the top stay open when the top one is ended. */
  lemma BelowTop(s: Source, i: nat, stack: seq<Entry>, k: nat)
    requires i < |s.lines| && StackHolds(s, i, stack) && k < |stack| - 1
    ensures IsOpen(s, i + 1, stack[k], |stack| - 1 - k + Step(s.Ds()[i]))
  {
    hide IsOpen;
    StaysOpen(s, i, stack[k], |stack| - 1 - k);
  }

  /** Reporting the top entry moves it from the stack to the report. */
  lemma Popped(s: Source, i: nat, ended: nat, stack: seq<Entry>, out: seq<Branch>, b: Branch)
    requires stack != [] && Accounted(s, i, ended, stack, out)
    requires b.start == stack[|stack| - 1].line + 1 && IsReported(s, ended, b)
    ensures Accounted(s, i, ended, stack[..|stack| - 1], out + [b])
  {
    hide IsReported, NoRepeats, Covers;
    PoppedNoRepeats(i, stack, out, b);
    PoppedCovers(s, i, stack, out, b);
  }

  lemma PoppedNoRepeats(i: nat, stack: seq<Entry>, out: seq<Branch>, b: Branch)
    requires stack != [] && NoRepeats(i, stack, out) && b.start == stack[|stack| - 1].line + 1
    ensures NoRepeats(i, stack[..|stack| - 1], out + [b])
  {
    assert !Emitted(out, stack[|stack| - 1].line);
    var rest := stack[..|stack| - 1];
    forall k | 0 <= k < |rest|
      ensures !Emitted(out + [b], rest[k].line)
    {
      assert !Emitted(out, stack[k].line);
    }
  }

  lemma PoppedCovers(s: Source, i: nat, stack: seq<Entry>, out: seq<Branch>, b: Branch)
    requires stack != [] && Covers(s, i, stack, out) && b.start == stack[|stack| - 1].line + 1
    ensures Covers(s, i, stack[..|stack| - 1], out + [b])
  {
    hide OnStack, Emitted, Opens, Source.Ds;
    forall o | OnStack(stack, o) || Emitted(out, o)
      ensures OnStack(stack[..|stack| - 1], o) || Emitted(out + [b], o)
    {
      MovesToReport(stack, out, b, o);
    }
  }

  lemma MovesToReport(stack: seq<Entry>, out: seq<Branch>, b: Branch, o: nat)
    requires stack != [] && b.start == stack[|stack| - 1].line + 1
    requires OnStack(stack, o) || Emitted(out, o)
    ensures OnStack(stack[..|stack| - 1], o) || Emitted(out + [b], o)
  {
    var rest, out' := stack[..|stack| - 1], out + [b];
    if Emitted(out, o) {
      var k :| 0 <= k < |out| && out[k].start == o + 1;
      assert out'[k].start == o + 1;
    } else {
      var k :| 0 <= k < |stack| && stack[k].line == o;
      if k < |stack| - 1 {
        assert rest[k].line == o;
      } else {
        assert out'[|out|].start == o + 1;
      }
    }
  }

  // --- Sorting ----------------------------------------------------------------------------------------------------------

  predicate Ascending(bs: seq<Branch>) {
    forall k, l :: 0 <= k < l < |bs| ==> bs[k].start < bs[l].start
  }

  lemma AscendingInsert(bs: seq<Branch>, i: nat, b: Branch)
    requires Ascending(bs) && i <= |bs|
    requires i > 0 ==> bs[i - 1].start < b.start
    requires i < |bs| ==> b.start < bs[i].start
    ensures Ascending(bs[..i] + [b] + bs[i..])
  {
    var r := bs[..i] + [b] + bs[i..];
    assert forall k :: 0 <= k < i ==> bs[k].start <= bs[i - 1].start;
    assert forall l :: i <= l < |bs| ==> bs[i].start <= bs[l].start;
    forall k, l | 0 <= k < l < |r|
      ensures r[k].start < r[l].start
    {
      var m, n := if k <= i then k else k - 1, if l <= i then l else l - 1;
      assert k < i ==> r[k] == bs[m];
      assert k > i ==> r[k] == bs[m];
      assert l < i ==> r[l] == bs[n];
      assert l > i ==> r[l] == bs[n];
    }
  }

  lemma InsertMembers(bs: seq<Branch>, i: nat, b: Branch)
    requires i <= |bs|
    ensures forall c :: c in bs[..i] + [b] + bs[i..] <==> c in bs || c == b
  {
    assert bs == bs[..i] + bs[i..];
  }

  /** Put a branch in its place by its first line. */
  method Insert(bs: seq<Branch>, b: Branch) returns (r: seq<Branch>)
    requires Ascending(bs) && forall k :: 0 <= k < |bs| ==> bs[k].start != b.start
    ensures Ascending(r) && |r| == |bs| + 1 && forall c :: c in r <==> c in bs || c == b
  {
    var i := |bs|;
    while i > 0 && bs[i - 1].start > b.start
      invariant 0 <= i <= |bs|
      invariant i < |bs| ==> bs[i].start > b.start
    {
      i := i - 1;
    }
    AscendingInsert(bs, i, b);
    InsertMembers(bs, i, b);
    hide Ascending;
    r := bs[..i] + [b] + bs[i..];
  }

  /** Sort branches with different first lines. */
  method SortByStart(bs: seq<Branch>) returns (r: seq<Branch>)
    requires forall k, l :: 0 <= k < l < |bs| ==> bs[k].start != bs[l].start
    ensures Ascending(r) && |r| == |bs| && forall c :: c in r <==> c in bs
  {
    r := [];
    for i := 0 to |bs|
      invariant Ascending(r) && |r| == i && forall c :: c in r <==> c in bs[..i]
    {
      forall k | 0 <= k < |r|
        ensures r[k].start != bs[i].start
      {
        assert r[k] in bs[..i];
      }
      r := Insert(r, bs[i]);
      assert bs[..i + 1] == bs[..i] + [bs[i]];
    }
    assert bs[..|bs|] == bs;
  }

  // --- The machine --------------------------------------------------------------------------------------------------------

  /**
   Split every conditional into its branches with one stack. Every opening or else line gets exactly one
   branch, in order of lines, and each is the branch found by scanning ahead from its line.
   */
  method ConditionalBranches(s: Source) returns (branches: seq<Branch>)
    ensures Ascending(branches)
    ensures forall b :: b in branches <==>
              1 <= b.start <= |s.lines| && Opens(s.Ds()[b.start - 1]) && b == s.BranchAt(b.start - 1)
  {
    hide Classify, Keyword, Condition, Net, IsOpen, IsReported, Accounted, OnStack, Emitted;
    var out: seq<Branch> := [];
    var stack: seq<Entry> := [];
    NothingYet(s);
    for i := 0 to |s.lines|
      invariant StackHolds(s, i, stack) && Accounted(s, i, i, stack, out)
    {
      var directive := Classify(s.lines[i], s.isSpace);
      assert s.Ds()[i] == directive;
      if directive == Other {
        OtherLine(s, i, stack, out);
      } else {
        var keyword, condition := Keyword(s.lines[i], s.isSpace), Condition(s.lines[i], s.isSpace);
        if directive == Else || directive == Endif {
          if stack != [] {
            var top := stack[|stack| - 1];
            var rest := stack[..|stack| - 1];
            var taken := Verdict(top.keyword, s.eval(top.keyword, top.condition, top.line), top.earlierTaken);
            var branch := Branch(top.line + 1, i, top.condition, taken);
            EndLine(s, i, stack, out, branch);
            out := out + [branch];
            stack := rest;
            if directive == Else {
              var anyTaken := top.earlierTaken || taken == Some(true);
              Pushed(s, i, stack, out, Entry(i, keyword, condition, anyTaken));
              stack := stack + [Entry(i, keyword, condition, anyTaken)];
            } else {
              EndifPassed(s, i, stack, out);
            }
          } else if directive == Else {
            StrayElse(s, i, out);
            Pushed(s, i, stack, out, Entry(i, keyword, condition, false));
            stack := stack + [Entry(i, keyword, condition, false)];
          } else {
            OtherLine(s, i, stack, out);
          }
        } else {
          IfLine(s, i, stack, out);
          Pushed(s, i, stack, out, Entry(i, keyword, condition, false));
          stack := stack + [Entry(i, keyword, condition, false)];
        }
      }
    }
    Waited(s, |s.lines|, stack, out);
    LeftOpen(s, stack);
    while stack != []
      invariant StackLeft(s, stack) && Accounted(s, |s.lines|, |s.lines| + 1, stack, out)
      decreases |stack|
    {
      var top := stack[|stack| - 1];
      var taken := Verdict(top.keyword, s.eval(top.keyword, top.condition, top.line), top.earlierTaken);
      var branch := Branch(top.line + 1, |s.lines|, top.condition, taken);
      FileEnds(s, stack, out, branch);
      out := out + [branch];
      stack := stack[..|stack| - 1];
    }
    AllReported(s, out);
    branches := SortByStart(out);
  }

  /** At the end of the file every entry's branch is still open. */
  ghost predicate StackLeft(s: Source, stack: seq<Entry>) {
    forall k :: 0 <= k < |stack| ==> IsEntry(s, stack[k]) && BranchEnd(s.Ds(), stack[k].line) == |s.lines|
  }

  lemma NothingYet(s: Source)
    ensures StackHolds(s, 0, []) && Accounted(s, 0, 0, [], [])
  {
  }

  /** A line that neither opens a branch nor ends one on the stack. */
  lemma OtherLine(s: Source, i: nat, stack: seq<Entry>, out: seq<Branch>)
    requires i < |s.lines| && StackHolds(s, i, stack) && Accounted(s, i, i, stack, out)
    requires s.Ds()[i] == Other || (s.Ds()[i] == Endif && stack == [])
    ensures StackHolds(s, i + 1, stack) && Accounted(s, i + 1, i + 1, stack, out)
  {
    hide Accounted, IsOpen, Classify;
    Waited(s, i, stack, out);
    Passed(s, i, stack, out);
    forall k | 0 <= k < |stack|
      ensures IsOpen(s, i + 1, stack[k], |stack| - 1 - k)
    {
      StaysOpen(s, i, stack[k], |stack| - 1 - k);
    }
  }

  lemma IfLine(s: Source, i: nat, stack: seq<Entry>, out: seq<Branch>)
    requires i < |s.lines| && StackHolds(s, i, stack) && Accounted(s, i, i, stack, out) && s.Ds()[i] == If
    ensures forall k :: 0 <= k < |stack| ==> IsOpen(s, i + 1, stack[k], |stack| - k)
    ensures Accounted(s, i, i + 1, stack, out) && !s.EarlierTaken(i)
  {
    hide Accounted, IsOpen, Classify;
    Waited(s, i, stack, out);
    forall k | 0 <= k < |stack|
      ensures IsOpen(s, i + 1, stack[k], |stack| - k)
    {
      StaysOpen(s, i, stack[k], |stack| - 1 - k);
    }
  }

  lemma StrayElse(s: Source, i: nat, out: seq<Branch>)
    requires i < |s.lines| && Accounted(s, i, i, [], out) && s.Ds()[i] == Else
    ensures Accounted(s, i, i + 1, [], out) && !s.EarlierTaken(i)
  {
    ElseFollowsNone(s, i, out);
    hide Accounted;
    Waited(s, i, [], out);
  }

  /** What a line was stored with is what its branch is reported with. */
  lemma BranchOfEntry(s: Source, e: Entry)
    requires IsEntry(s, e)
    ensures s.BranchAt(e.line)
         == Branch(e.line + 1, BranchEnd(s.Ds(), e.line), e.condition,
                   Verdict(e.keyword, s.eval(e.keyword, e.condition, e.line), e.earlierTaken))
  {
    hide BranchEnd, Verdict, Keyword, Condition, Opens;
  }

  lemma TopReported(s: Source, i: nat, top: Entry, branch: Branch)
    requires i < |s.lines| && IsOpen(s, i, top, 0) && s.Ds()[i] in {Else, Endif}
    requires branch == Branch(top.line + 1, i, top.condition,
                              Verdict(top.keyword, s.eval(top.keyword, top.condition, top.line), top.earlierTaken))
    ensures IsReported(s, i + 1, branch)
    ensures s.Ds()[i] == Else ==> s.EarlierTaken(i) == (top.earlierTaken || branch.taken == Some(true))
  {
    hide Classify, Verdict, Net, Keyword, Condition;
    TopEnds(s, i, top);
    if s.Ds()[i] == Else {
      ElseFollowsTop(s, i, top);
    }
  }

  /** An else or `#endif` reports the top entry; the entries below stay open. */
  lemma EndLine(s: Source, i: nat, stack: seq<Entry>, out: seq<Branch>, branch: Branch)
    requires i < |s.lines| && StackHolds(s, i, stack) && Accounted(s, i, i, stack, out)
    requires stack != [] && s.Ds()[i] in {Else, Endif}
    requires var top := stack[|stack| - 1];
             branch == Branch(top.line + 1, i, top.condition,
                              Verdict(top.keyword, s.eval(top.keyword, top.condition, top.line), top.earlierTaken))
    ensures var rest := stack[..|stack| - 1];
            && Accounted(s, i, i + 1, rest, out + [branch])
            && (s.Ds()[i] == Endif ==> StackHolds(s, i + 1, rest))
            && (s.Ds()[i] == Else ==> forall k :: 0 <= k < |rest| ==> IsOpen(s, i + 1, rest[k], |rest| - k))
    ensures s.Ds()[i] == Else ==>
              s.EarlierTaken(i) == (stack[|stack| - 1].earlierTaken || branch.taken == Some(true))
  {
    hide Accounted, IsOpen, IsReported, Classify, Verdict;
    var rest, top := stack[..|stack| - 1], stack[|stack| - 1];
    assert IsOpen(s, i, top, 0);
    TopReported(s, i, top, branch);
    Waited(s, i, stack, out);
    Popped(s, i, i + 1, stack, out, branch);
    forall k | 0 <= k < |rest|
      ensures IsOpen(s, i + 1, rest[k], |rest| - k + Step(s.Ds()[i]))
    {
      BelowTop(s, i, stack, k);
    }
  }

  lemma EndifPassed(s: Source, i: nat, stack: seq<Entry>, out: seq<Branch>)
    requires i < |s.lines| && s.Ds()[i] == Endif && Accounted(s, i, i + 1, stack, out)
    ensures Accounted(s, i + 1, i + 1, stack, out)
  {
    hide Accounted;
    Passed(s, i, stack, out);
  }

  lemma LeftOpen(s: Source, stack: seq<Entry>)
    requires StackHolds(s, |s.lines|, stack)
    ensures StackLeft(s, stack)
  {
    forall k | 0 <= k < |stack|
      ensures IsEntry(s, stack[k]) && BranchEnd(s.Ds(), stack[k].line) == |s.lines|
    {
      assert IsOpen(s, |s.lines|, stack[k], |stack| - 1 - k);
      BranchEndIs(s.Ds(), stack[k].line, |s.lines|);
    }
  }

  lemma LeftReported(s: Source, top: Entry, branch: Branch)
    requires IsEntry(s, top) && BranchEnd(s.Ds(), top.line) == |s.lines|
    requires branch == Branch(top.line + 1, |s.lines|, top.condition,
                              Verdict(top.keyword, s.eval(top.keyword, top.condition, top.line), top.earlierTaken))
    ensures IsReported(s, |s.lines| + 1, branch)
  {
    hide BranchEnd, Verdict, Keyword, Condition, Classify;
    BranchOfEntry(s, top);
  }

  lemma FileEnds(s: Source, stack: seq<Entry>, out: seq<Branch>, branch: Branch)
    requires StackLeft(s, stack) && Accounted(s, |s.lines|, |s.lines| + 1, stack, out)
    requires stack != []
    requires var top := stack[|stack| - 1];
             branch == Branch(top.line + 1, |s.lines|, top.condition,
                              Verdict(top.keyword, s.eval(top.keyword, top.condition, top.line), top.earlierTaken))
    ensures var rest := stack[..|stack| - 1];
            StackLeft(s, rest) && Accounted(s, |s.lines|, |s.lines| + 1, rest, out + [branch])
  {
    hide Accounted, Verdict, BranchEnd, Classify, Keyword, Condition, IsEntry;
    LeftReported(s, stack[|stack| - 1], branch);
    hide IsReported;
    Popped(s, |s.lines|, |s.lines| + 1, stack, out, branch);
  }

  lemma AllReported(s: Source, out: seq<Branch>)
    requires Accounted(s, |s.lines|, |s.lines| + 1, [], out)
    ensures forall k, l :: 0 <= k < l < |out| ==> out[k].start != out[l].start
    ensures forall b :: b in out <==>
              1 <= b.start <= |s.lines| && Opens(s.Ds()[b.start - 1]) && b == s.BranchAt(b.start - 1)
  {
    hide Opens, Source.BranchAt, Accounted, IsReported;
    Parts(s, out);
    forall b: Branch | 1 <= b.start <= |s.lines| && Opens(s.Ds()[b.start - 1]) && b == s.BranchAt(b.start - 1)
      ensures b in out
    {
      EveryLineReported(s, out, b);
    }
    forall b | b in out
      ensures 1 <= b.start <= |s.lines| && Opens(s.Ds()[b.start - 1]) && b == s.BranchAt(b.start - 1)
    {
      ReportedIsBranch(s, out, b);
    }
  }

  lemma Parts(s: Source, out: seq<Branch>)
    requires Accounted(s, |s.lines|, |s.lines| + 1, [], out)
    ensures forall k, l :: 0 <= k < l < |out| ==> out[k].start != out[l].start
  {
  }

  lemma EveryLineReported(s: Source, out: seq<Branch>, b: Branch)
    requires Accounted(s, |s.lines|, |s.lines| + 1, [], out)
    requires 1 <= b.start <= |s.lines| && Opens(s.Ds()[b.start - 1]) && b == s.BranchAt(b.start - 1)
    ensures b in out
  {
    hide Opens, Source.BranchAt, Accounted;
    LineEmitted(s, out, b.start - 1);
    var k :| 0 <= k < |out| && out[k].start == b.start;
    ReportedIsBranch(s, out, out[k]);
  }

  lemma LineEmitted(s: Source, out: seq<Branch>, o: nat)
    requires Accounted(s, |s.lines|, |s.lines| + 1, [], out) && o < |s.lines| && Opens(s.Ds()[o])
    ensures Emitted(out, o)
  {
    hide Opens, AllReal, NoRepeats;
  }

  lemma ReportedIsBranch(s: Source, out: seq<Branch>, b: Branch)
    requires Accounted(s, |s.lines|, |s.lines| + 1, [], out) && b in out
    ensures 1 <= b.start <= |s.lines| && Opens(s.Ds()[b.start - 1]) && b == s.BranchAt(b.start - 1)
  {
    hide Opens, Source.BranchAt;
    var k :| 0 <= k < |out| && out[k] == b;
    RealAt(s, |s.lines| + 1, out, k);
  }

  // --- Verdicts within a group ----------------------------------------------------------------------------------------------

  /** Line `e` opens a later branch of the group of line `o`. */
  predicate Later(ds: seq<Directive>, o: nat, e: nat)
    requires o < |ds|
    decreases |ds| - o
  {
    var next := BranchEnd(ds, o);
    next < |ds| && ds[next] == Else && (e == next || Later(ds, next, e))
  }

  /** The branch that an else ends is the one whose group it continues. */
  lemma EndedByElse(s: Source, o: nat)
    requires o < |s.lines| && Opens(s.Ds()[o]) && BranchEnd(s.Ds(), o) < |s.lines|
    ensures s.EndedFrom(BranchEnd(s.Ds(), o), BranchEnd(s.Ds(), o)) == Some(o)
  {
    var next := BranchEnd(s.Ds(), o);
    var found := s.EndedFrom(next, next);
    assert found.Some?;
    if found.value < o {
      OneBranchEnds(s.Ds(), found.value, o);
    } else if o < found.value {
      OneBranchEnds(s.Ds(), o, found.value);
    }
  }

  lemma {:induction false} TakenIsEarlier(s: Source, o: nat, e: nat)
    requires o < |s.lines| && Opens(s.Ds()[o]) && Later(s.Ds(), o, e)
    requires s.Taken(o) == Some(true) || s.EarlierTaken(o)
    ensures e < |s.lines| && s.EarlierTaken(e)
    decreases |s.lines| - o
  {
    hide Classify, Keyword, Condition;
    var next := BranchEnd(s.Ds(), o);
    EndedByElse(s, o);
    assert s.EarlierTaken(next);
    if e != next {
      TakenIsEarlier(s, next, e);
    }
  }

  /** Once a branch is provably taken, or follows one that is, every later branch of the group is dead. */
  lemma DeadAfterTaken(s: Source, o: nat, e: nat)
    requires o < |s.lines| && Opens(s.Ds()[o]) && Later(s.Ds(), o, e)
    requires s.Taken(o) == Some(true) || s.EarlierTaken(o)
    ensures e < |s.lines| && s.Taken(e) == Some(false)
  {
    hide Classify, Keyword, Condition;
    TakenIsEarlier(s, o, e);
  }

  lemma {:induction false} LaterOn(ds: seq<Directive>, o: nat, p: nat)
    requires o < |ds| && p < |ds| && Later(ds, o, p)
    requires BranchEnd(ds, p) < |ds| && ds[BranchEnd(ds, p)] == Else
    ensures Later(ds, o, BranchEnd(ds, p))
    decreases |ds| - o
  {
    var next := BranchEnd(ds, o);
    if p != next {
      LaterOn(ds, next, p);
    } else {
      assert Later(ds, next, BranchEnd(ds, next));
    }
  }

  lemma {:induction false} EarlierIsTaken(s: Source, e: nat) returns (o: nat)
    requires e < |s.lines| && s.EarlierTaken(e)
    ensures o < |s.lines| && Opens(s.Ds()[o]) && Later(s.Ds(), o, e) && s.Taken(o) == Some(true)
    decreases e
  {
    hide Classify, Keyword, Condition;
    var previous := s.EndedFrom(e, e).value;
    if s.Taken(previous) == Some(true) {
      o := previous;
    } else {
      o := EarlierIsTaken(s, previous);
      LaterOn(s.Ds(), o, previous);
    }
  }

  /**
   The verdict on every branch: dead if an earlier one of its group is provably taken; otherwise undecided after an
   `#else`, which no condition guards, and else what its own condition says.
   */
  lemma VerdictOfBranch(s: Source, e: nat)
    requires e < |s.lines| && Opens(s.Ds()[e])
    ensures var keyword, condition := Keyword(s.lines[e], s.isSpace), Condition(s.lines[e], s.isSpace);
            s.BranchAt(e).taken ==
            if exists o :: 0 <= o < e && IsTakenBefore(s, o, e) then Some(false)
            else if keyword == "else" then None
            else s.eval(keyword, condition, e)
  {
    hide Classify, Keyword, Condition;
    if s.EarlierTaken(e) {
      var o := EarlierIsTaken(s, e);
      LaterIsAfter(s.Ds(), o, e);
      assert IsTakenBefore(s, o, e);
    } else if o :| 0 <= o < e && IsTakenBefore(s, o, e) {
      TakenIsEarlier(s, o, e);
    }
  }

  /** Line `o` opens a branch that is provably taken, and line `e` a later one of the same group. */
  predicate IsTakenBefore(s: Source, o: nat, e: nat) {
    o < |s.lines| && Opens(s.Ds()[o]) && Later(s.Ds(), o, e) && s.BranchAt(o).taken == Some(true)
  }

  lemma {:induction false} LaterIsAfter(ds: seq<Directive>, o: nat, e: nat)
    requires o < |ds| && Later(ds, o, e)
    ensures o < e < |ds|
    decreases |ds| - o
  {
    if e != BranchEnd(ds, o) {
      LaterIsAfter(ds, BranchEnd(ds, o), e);
    }
  }

  /**
   The lines of a branch: from the one after its own to the first else or `#endif` with nothing left open in
   between, or to the end of the file.
   */
  lemma SpanOfBranch(s: Source, o: nat)
    requires o < |s.lines| && Opens(s.Ds()[o])
    ensures var b := s.BranchAt(o);
            && b.start == o + 1 <= b.end <= |s.lines|
            && b.condition == Condition(s.lines[o], s.isSpace)
            && (b.end < |s.lines| ==> s.Ds()[b.end] in {Else, Endif} && Net(s.Ds(), o + 1, b.end) == 0)
            && forall k :: b.start <= k < b.end && s.Ds()[k] in {Else, Endif} ==> Net(s.Ds(), o + 1, k) != 0
  {
    hide Classify, Keyword, Condition;
    var ds := s.Ds();
    forall k | o < k < BranchEnd(ds, o) && ds[k] in {Else, Endif}
      ensures Net(ds, o + 1, k) != 0
    {
      assert !Ends(ds, o, k);
    }
  }
}
