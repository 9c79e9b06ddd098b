/** The wildcard matcher of the argument list: a backtracking loop that remembers only its last star. */
module Glob {
  import opened Wrappers

  // --- The declarative meaning ----------------------------------------------------------------------

  /** `*` stands for any run of characters, `?` for any one character, anything else for itself. */
  ghost predicate Matches(pattern: string, text: string) {
    if pattern == [] then text == []
    else if pattern[0] == '*' then exists k :: 0 <= k <= |text| && Matches(pattern[1..], text[k..])
    else text != [] && (pattern[0] == '?' || pattern[0] == text[0]) && Matches(pattern[1..], text[1..])
  }

  predicate AllStars(pattern: string) {
    forall i :: 0 <= i < |pattern| ==> pattern[i] == '*'
  }

  /** Does a pattern character that is compared one to one accept a text character? */
  predicate Accepts(p: char, c: char) {
    p == '?' || p == c
  }

  /**
   What the loop decides: as `Matches`, except that a star which meets a `*` of the text is taken for
   that one character, because the comparison of characters comes first.
   */
  ghost predicate Decides(pattern: string, text: string) {
    if pattern == [] then text == []
    else if text == [] then AllStars(pattern)
    else if Accepts(pattern[0], text[0]) then Decides(pattern[1..], text[1..])
    else pattern[0] == '*' && exists k :: 0 <= k <= |text| && Decides(pattern[1..], text[k..])
  }

  // --- Remembering only the last star is enough ------------------------------------------------------

  /** The segment matches that many characters of the text one to one. */
  predicate Aligned(segment: string, text: string) {
    |segment| <= |text| && forall i :: 0 <= i < |segment| ==> Accepts(segment[i], text[i])
  }

  /**
   Once a segment is matched one to one from `x`, any later start `y` that leads to a match leads past the
   segment's end too: no earlier star needs to be tried again.
   */
  lemma {:induction false} SegmentCommits(segment: string, rest: string, text: string, x: nat, y: nat)
    requires x <= y <= |text| && Aligned(segment, text[x..])
    requires Decides(segment + ['*'] + rest, text[y..])
    ensures exists k :: x + |segment| <= k <= |text| && Decides(rest, text[k..])
    decreases |segment|
  {
    var pattern := segment + ['*'] + rest;
    if y == |text| {
      assert AllStars(rest) by {
        forall i | 0 <= i < |rest| ensures rest[i] == '*' { assert pattern[|segment| + 1 + i] == '*'; }
      }
      assert Decides(rest, text[|text|..]);
    } else if segment == [] {
      assert pattern[1..] == rest;
      if text[y] == '*' {
        assert text[y..][1..] == text[y + 1..];
      } else {
        var k :| 0 <= k <= |text[y..]| && Decides(rest, text[y..][k..]);
        assert text[y..][k..] == text[y + k..];
      }
    } else {
      assert segment + (['*'] + rest) == pattern && segment[1..] + ['*'] + rest == segment[1..] + (['*'] + rest);
      NextOfSegment(segment, ['*'] + rest, text, x, y);
      var z :| x < z <= |text| && Decides(segment[1..] + (['*'] + rest), text[z..]);
      assert forall i :: 0 <= i < |segment| ==> text[x..][i] == text[x + i];
      SegmentCommits(segment[1..], rest, text, x + 1, z);
    }
  }

  /** The same at the end of the text: if any later start leads to a match, what is left is only stars. */
  lemma {:induction false} SegmentEnds(segment: string, rest: string, text: string, x: nat, y: nat)
    requires x <= y <= |text| && Aligned(segment, text[x..]) && x + |segment| == |text|
    requires Decides(segment + rest, text[y..])
    ensures AllStars(rest)
    decreases |segment|
  {
    if segment == [] {
      assert segment + rest == rest;
    } else if y == |text| {
      forall i | 0 <= i < |rest| ensures rest[i] == '*' { assert (segment + rest)[|segment| + i] == '*'; }
    } else {
      NextOfSegment(segment, rest, text, x, y);
      var z :| x < z <= |text| && Decides(segment[1..] + rest, text[z..]);
      SegmentEnds(segment[1..], rest, text, x + 1, z);
    }
  }

  /** A match that starts no earlier than an aligned segment stays no earlier after its first character. */
  lemma NextOfSegment(segment: string, rest: string, text: string, x: nat, y: nat)
    requires segment != [] && x <= y < |text| && Aligned(segment, text[x..])
    requires Decides(segment + rest, text[y..])
    ensures exists z :: x < z <= |text| && Decides(segment[1..] + rest, text[z..])
  {
    assert (segment + rest)[1..] == segment[1..] + rest;
    if Accepts(segment[0], text[y]) {
      assert text[y..][1..] == text[y + 1..];
    } else {
      var k :| 0 <= k <= |text[y..]| && Decides(segment[1..] + rest, text[y..][k..]);
      assert text[y..][k..] == text[y + k..];
      assert Accepts(segment[0], text[x..][0]);
    }
  }

  /** Some start at or after `from` matches. */
  ghost predicate MatchesFrom(pattern: string, text: string, from: nat) {
    exists k :: from <= k <= |text| && Decides(pattern, text[k..])
  }

  /**
   The loop's state: what is left to decide is the match of what is left of pattern and text; after a star,
   the text since the star's current start is matched one to one by the pattern since the star.
   */
  ghost predicate Tracks(p: string, t: string, pi: nat, ti: nat, star: Option<nat>, starTi: nat) {
    && pi <= |p| && ti <= |t|
    && match star
       case None => Decides(p, t) <==> Decides(p[pi..], t[ti..])
       case Some(s) =>
         && s < pi && starTi <= ti && ti - starTi == pi - (s + 1) && p[s] == '*'
         && Aligned(p[s + 1..pi], t[starTi..])
         && (Decides(p[s + 1..], t[starTi..]) <==> Decides(p[pi..], t[ti..]))
         && (Decides(p, t) <==> MatchesFrom(p[s + 1..], t, starTi))
  }

  lemma CharacterAccepted(p: string, t: string, pi: nat, ti: nat, star: Option<nat>, starTi: nat)
    requires Tracks(p, t, pi, ti, star, starTi) && pi < |p| && ti < |t| && Accepts(p[pi], t[ti])
    ensures Tracks(p, t, pi + 1, ti + 1, star, starTi)
  {
    assert p[pi..][1..] == p[pi + 1..] && t[ti..][1..] == t[ti + 1..];
    if star.Some? {
      var s := star.value;
      assert p[s + 1..pi + 1] == p[s + 1..pi] + [p[pi]];
      assert t[starTi..][ti - starTi] == t[ti];
    }
  }

  /** At a new star, the choices left by the old one reduce to the choices of the new one. */
  lemma StarReached(p: string, t: string, pi: nat, ti: nat, star: Option<nat>, starTi: nat)
    requires Tracks(p, t, pi, ti, star, starTi) && pi < |p| && ti < |t| && p[pi] == '*' && t[ti] != '*'
    ensures Tracks(p, t, pi + 1, ti, Some(pi), ti)
  {
    StarAtHead(p[pi..], t, ti);
    assert p[pi..][1..] == p[pi + 1..];
    assert p[pi + 1..pi + 1] == [];
    if star.Some? {
      OldStarGivesWay(p, t, pi, ti, star.value, starTi);
    }
    hide Decides, Aligned;
  }

  lemma OldStarGivesWay(p: string, t: string, pi: nat, ti: nat, star: nat, starTi: nat)
    requires Tracks(p, t, pi, ti, Some(star), starTi) && pi < |p| && p[pi] == '*'
    ensures MatchesFrom(p[star + 1..], t, starTi) ==> MatchesFrom(p[pi + 1..], t, ti)
  {
    hide Decides, Aligned;
    var segment := p[star + 1..pi];
    assert p[star + 1..] == segment + ['*'] + p[pi + 1..];
    if MatchesFrom(p[star + 1..], t, starTi) {
      var y :| starTi <= y <= |t| && Decides(p[star + 1..], t[y..]);
      SegmentCommits(segment, p[pi + 1..], t, starTi, y);
    }
  }

  lemma StarAtHead(pattern: string, text: string, ti: nat)
    requires pattern != [] && pattern[0] == '*' && ti < |text| && text[ti] != '*'
    ensures Decides(pattern, text[ti..]) <==> MatchesFrom(pattern[1..], text, ti)
  {
    var u := text[ti..];
    forall k | 0 <= k <= |u|
      ensures u[k..] == text[ti + k..]
    {
    }
    if MatchesFrom(pattern[1..], text, ti) {
      var k :| ti <= k <= |text| && Decides(pattern[1..], text[k..]);
      assert u[k - ti..] == text[k..];
    }
  }

  /** On a mismatch the star takes one more character. */
  lemma StarRetried(p: string, t: string, pi: nat, ti: nat, star: nat, starTi: nat)
    requires Tracks(p, t, pi, ti, Some(star), starTi) && ti < |t| && !Decides(p[pi..], t[ti..])
    ensures Tracks(p, t, star + 1, starTi + 1, Some(star), starTi + 1)
  {
    assert p[star + 1..star + 1] == [];
  }

  /** At the end of the text only stars may be left. */
  lemma TextEnds(p: string, t: string, pi: nat, star: Option<nat>, starTi: nat)
    requires Tracks(p, t, pi, |t|, star, starTi)
    ensures Decides(p, t) <==> AllStars(p[pi..])
  {
    assert t[|t|..] == [];
    if star.Some? {
      var s := star.value;
      var segment := p[s + 1..pi];
      assert p[s + 1..] == segment + p[pi..];
      if MatchesFrom(p[s + 1..], t, starTi) {
        var y :| starTi <= y <= |t| && Decides(p[s + 1..], t[y..]);
        SegmentEnds(segment, p[pi..], t, starTi, y);
      }
    }
  }

  /** Nothing is left to try: a mismatch, no star at hand and none behind. */
  lemma MismatchRefused(p: string, t: string, pi: nat, ti: nat)
    requires pi <= |p| && ti < |t| && (pi < |p| ==> !Accepts(p[pi], t[ti]) && p[pi] != '*')
    ensures !Decides(p[pi..], t[ti..])
  {
  }

  lemma StartTracks(p: string, t: string)
    ensures Tracks(p, t, 0, 0, None, 0)
  {
    assert p[0..] == p && t[0..] == t;
  }

  /** Match a pattern against the whole text, keeping only the last star to return to. */
  method GlobMatch(p: string, t: string) returns (r: bool)
    ensures r == Decides(p, t)
    ensures r ==> Matches(p, t)
    ensures '*' !in t ==> r == Matches(p, t)
  {
    hide Matches, Decides, MatchesFrom, Aligned;
    var pi: nat, ti: nat := 0, 0;
    var star: Option<nat>, starTi: nat := None, 0;
    StartTracks(p, t);
    while ti < |t|
      invariant Tracks(p, t, pi, ti, star, starTi)
      decreases |p| - (if star.Some? then star.value + 1 else 0), |t| - starTi, |t| - ti
    {
      if pi < |p| && (p[pi] == '?' || p[pi] == t[ti]) {
        CharacterAccepted(p, t, pi, ti, star, starTi);
        pi := pi + 1;
        ti := ti + 1;
      } else if pi < |p| && p[pi] == '*' {
        StarReached(p, t, pi, ti, star, starTi);
        star := Some(pi);
        starTi := ti;
        pi := pi + 1;
      } else if star.Some? {
        MismatchRefused(p, t, pi, ti);
        StarRetried(p, t, pi, ti, star.value, starTi);
        pi := star.value + 1;
        starTi := starTi + 1;
        ti := starTi;
      } else {
        MismatchRefused(p, t, pi, ti);
        DecisionMeans(p, t);
        return false;
      }
    }
    TextEnds(p, t, pi, star, starTi);
    ghost var end := pi;
    while pi < |p| && p[pi] == '*'
      invariant end <= pi <= |p|
      invariant forall i :: end <= i < pi ==> p[i] == '*'
    {
      pi := pi + 1;
    }
    r := pi == |p|;
    DecisionMeans(p, t);
    assert pi < |p| ==> p[end..][pi - end] != '*';
  }

  // --- How the decision relates to the meaning -------------------------------------------------------

  lemma {:induction false} AllStarsMatchEmpty(pattern: string)
    ensures Matches(pattern, []) <==> AllStars(pattern)
  {
    if pattern != [] {
      AllStarsMatchEmpty(pattern[1..]);
      assert AllStars(pattern) <==> pattern[0] == '*' && AllStars(pattern[1..]);
      var empty: string := [];
      assert empty[0..] == empty;
    }
  }

  /** The matcher never accepts a text the pattern does not mean. */
  lemma {:induction false} Sound(pattern: string, text: string)
    requires Decides(pattern, text)
    ensures Matches(pattern, text)
    decreases |pattern|
  {
    if pattern == [] {
    } else if text == [] {
      AllStarsMatchEmpty(pattern);
    } else if Accepts(pattern[0], text[0]) {
      Sound(pattern[1..], text[1..]);
    } else {
      var k :| 0 <= k <= |text| && Decides(pattern[1..], text[k..]);
      Sound(pattern[1..], text[k..]);
    }
  }

  /** On a text without `*` the matcher accepts everything the pattern means. */
  lemma {:induction false} Complete(pattern: string, text: string)
    requires '*' !in text && Matches(pattern, text)
    ensures Decides(pattern, text)
    decreases |pattern|
  {
    if pattern == [] {
    } else if text == [] {
      AllStarsMatchEmpty(pattern);
    } else if pattern[0] == '*' {
      var k :| 0 <= k <= |text| && Matches(pattern[1..], text[k..]);
      Complete(pattern[1..], text[k..]);
    } else {
      Complete(pattern[1..], text[1..]);
    }
  }

  lemma DecisionMeans(pattern: string, text: string)
    ensures Decides(pattern, text) ==> Matches(pattern, text)
    ensures '*' !in text && Matches(pattern, text) ==> Decides(pattern, text)
  {
    hide Matches, Decides;
    if Decides(pattern, text) {
      Sound(pattern, text);
    }
    if '*' !in text && Matches(pattern, text) {
      Complete(pattern, text);
    }
  }

  /** `*?` against the text `*`: a match by the meaning of the wildcards, refused by the matcher. */
  lemma StarInTextRefused()
    ensures Matches("*?", "*") && !Decides("*?", "*")
  {
    QuestionsMatch("*");
    var k := 0;
    assert "*"[k..] == "*" && "*?"[1..] == Questions(1);
    assert "*"[1..] == "";
  }

  function Questions(n: nat): string {
    if n == 0 then [] else ['?'] + Questions(n - 1)
  }

  lemma {:induction false} QuestionsMatch(text: string)
    ensures Matches(Questions(|text|), text)
  {
    if text != [] {
      QuestionsMatch(text[1..]);
    }
  }

  lemma {:induction false} TooManyQuestions(n: nat, text: string)
    requires n > |text|
    ensures !Decides(Questions(n), text)
  {
    if text != [] {
      TooManyQuestions(n - 1, text[1..]);
    } else {
      assert Questions(n)[0] == '?';
    }
  }

  /** A common prefix can be dropped from pattern and text. */
  lemma {:induction false} CommonPrefix(prefix: string, pattern: string, text: string)
    ensures Decides(prefix + pattern, prefix + text) <==> Decides(pattern, text)
    ensures Matches(pattern, text) ==> Matches(prefix + pattern, prefix + text)
  {
    if prefix == [] {
      assert prefix + pattern == pattern && prefix + text == text;
    } else {
      CommonPrefix(prefix[1..], pattern, text);
      assert (prefix + pattern)[1..] == prefix[1..] + pattern;
      assert (prefix + text)[1..] == prefix[1..] + text;
    }
  }

  /** A text with a `*` has a pattern that means it and that the matcher refuses. */
  lemma RefusedPattern(text: string) returns (pattern: string)
    requires '*' in text
    ensures Matches(pattern, text) && !Decides(pattern, text)
  {
    var i :| 0 <= i < |text| && text[i] == '*';
    var prefix, rest := text[..i], text[i..];
    var tail := Questions(|rest|);
    var q := ['*'] + tail;
    assert q[1..] == tail && rest[0..] == rest && prefix + rest == text;
    QuestionsMatch(rest);
    TooManyQuestions(|rest|, rest[1..]);
    pattern := prefix + q;
    CommonPrefix(prefix, q, rest);
  }

  /**
   Exactly which texts the matcher serves: it agrees with the meaning of the wildcards on every pattern
   if and only if the text has no `*`.
   */
  lemma ExactOnTextsWithoutStars(text: string)
    ensures (forall pattern :: Decides(pattern, text) <==> Matches(pattern, text)) <==> '*' !in text
  {
    if '*' in text {
      var pattern := RefusedPattern(text);
    } else {
      forall pattern
        ensures Decides(pattern, text) <==> Matches(pattern, text)
      {
        DecisionMeans(pattern, text);
      }
    }
  }

  // --- Which patterns the matcher serves ----------------------------------------------------------------

  lemma {:induction false} WithoutStars(pattern: string, text: string)
    requires '*' !in pattern
    ensures Decides(pattern, text) <==> Matches(pattern, text)
    ensures Matches(pattern, text) ==> |text| == |pattern|
    decreases |pattern|
  {
    if pattern != [] && text != [] {
      WithoutStars(pattern[1..], text[1..]);
    }
  }

  lemma {:induction false} MatchesItself(pattern: string)
    ensures Matches(pattern, pattern)
  {
    if pattern != [] {
      MatchesItself(pattern[1..]);
      if pattern[0] == '*' {
        assert exists k :: 0 <= k <= |pattern| && Matches(pattern[1..], pattern[k..]);
      }
    }
  }

  /**
   A pattern with a `*` has a text that it means and that the matcher refuses: one where each `*` is met by
   a `*`, with a character left over after the last.
   */
  lemma {:induction false} RefusedText(pattern: string) returns (text: string)
    requires '*' in pattern
    ensures Matches(pattern, text) && !Decides(pattern, text)
    decreases |pattern|
  {
    var rest := pattern[1..];
    var tail: string;
    if '*' in rest {
      tail := RefusedText(rest);
      assert tail[0..] == tail;
    } else {
      tail := "x" + rest;
      WithoutStars(rest, tail);
      MatchesItself(rest);
      assert tail[1..] == rest;
    }
    text := [pattern[0]] + tail;
    assert text[1..] == tail;
    if pattern[0] == '*' {
      if '*' in rest {
        assert Matches(rest, text[1..]);
      } else {
        assert text[2..] == rest && Matches(rest, text[2..]);
      }
    }
  }

  /**
   Exactly which patterns the matcher serves: it agrees with the meaning of the wildcards on every text if and
   only if the pattern has no `*`.
   */
  lemma ExactOnPatternsWithoutStars(pattern: string)
    ensures (forall text :: Decides(pattern, text) <==> Matches(pattern, text)) <==> '*' !in pattern
  {
    if '*' in pattern {
      var text := RefusedText(pattern);
    } else {
      forall text
        ensures Decides(pattern, text) <==> Matches(pattern, text)
      {
        WithoutStars(pattern, text);
      }
    }
  }
}
