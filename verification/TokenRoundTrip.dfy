/** Written and read back: quoted lists, balanced bodies and plain words survive tokenizing. */
module TokenRoundTrip {
  import opened Wrappers
  import opened Tokens

  predicate Blanks(s: string) {
    forall i :: 0 <= i < |s| ==> IsBlank(s[i])
  }

  /** The text with every quote doubled. */
  function Doubled(text: string, quote: char): string {
    if text == [] then []
    else (if text[0] == quote then [quote, quote] else [text[0]]) + Doubled(text[1..], quote)
  }

  // --- Quoted text ----------------------------------------------------------------------------------------

  lemma FindNext(input: string, pos: nat, test: char -> bool)
    requires pos < |input|
    ensures Find(input, pos, test) == if test(input[pos]) then pos else Find(input, pos + 1, test)
  {
  }

  /** Reading quoted text character by character. */
  lemma QuotedPlain(input: string, pos: nat, quote: char)
    requires pos < |input| && input[pos] != quote
    ensures var rest := QuotedFrom(input, pos + 1, quote);
            QuotedFrom(input, pos, quote) == Span([input[pos]] + rest.content, rest.pos, rest.closed)
  {
    hide Find, QuotedAt;
    FindNext(input, pos, Is(quote));
    QuotedShift(input, pos, Find(input, pos + 1, Is(quote)), quote);
  }

  lemma QuotedShift(input: string, pos: nat, idx: nat, quote: char)
    requires pos < idx <= |input|
    ensures var rest := QuotedAt(input, pos + 1, idx, quote);
            QuotedAt(input, pos, idx, quote) == Span([input[pos]] + rest.content, rest.pos, rest.closed)
  {
    hide QuotedFrom;
    if idx == |input| {
      assert input[pos..] == [input[pos]] + input[pos + 1..];
    } else if idx + 1 < |input| && input[idx + 1] == quote {
      assert input[pos..idx + 1] == [input[pos]] + input[pos + 1..idx + 1];
    } else {
      assert input[pos..idx] == [input[pos]] + input[pos + 1..idx];
    }
  }

  lemma QuotedDouble(input: string, pos: nat, quote: char)
    requires pos + 1 < |input| && input[pos] == quote && input[pos + 1] == quote
    ensures var rest := QuotedFrom(input, pos + 2, quote);
            QuotedFrom(input, pos, quote) == Span([quote] + rest.content, rest.pos, rest.closed)
  {
    hide Find;
    FindNext(input, pos, Is(quote));
    assert input[pos..pos + 1] == [quote];
  }

  lemma QuotedEnd(input: string, pos: nat, quote: char)
    requires pos < |input| && input[pos] == quote && (pos + 1 == |input| || input[pos + 1] != quote)
    ensures QuotedFrom(input, pos, quote) == Span([], pos + 1, true)
  {
    hide Find;
    FindNext(input, pos, Is(quote));
  }

  /** The input from a position on begins with some text and goes on with the rest. */
  predicate At(input: string, pos: nat, text: string, rest: string) {
    pos <= |input| && input[pos..] == text + rest
  }

  lemma AtSplit(input: string, pos: nat, head: string, tail: string, rest: string)
    requires At(input, pos, head + tail, rest)
    ensures At(input, pos, head, tail + rest) && At(input, pos + |head|, tail, rest)
    ensures head != [] ==> input[pos] == head[0]
    ensures |head| > 1 ==> input[pos + 1] == head[1]
  {
    var all := head + tail + rest;
    assert all == head + (tail + rest);
    assert input[pos + |head|..] == all[|head|..];
    assert head != [] ==> input[pos] == all[0];
    assert |head| > 1 ==> input[pos + 1] == all[1];
  }

  /** Doubling the quotes inside is undone, and the first single quote ends the text. */
  lemma {:induction false} QuotedRoundTrip(input: string, pos: nat, quote: char, text: string, rest: string)
    requires At(input, pos, Doubled(text, quote) + [quote], rest) && (rest == [] || rest[0] != quote)
    ensures var end := pos + |Doubled(text, quote)| + 1;
            QuotedFrom(input, pos, quote) == Span(text, end, true) && At(input, end, [], rest)
    decreases |text|
  {
    hide QuotedFrom, At;
    if text == [] {
      assert Doubled(text, quote) + [quote] == [quote] + [];
      AtSplit(input, pos, [quote], [], rest);
      AtEnds(input, pos + 1, rest);
      QuotedEnd(input, pos, quote);
    } else {
      var head := if text[0] == quote then [quote, quote] else [text[0]];
      var tail := Doubled(text[1..], quote) + [quote];
      assert Doubled(text, quote) + [quote] == head + tail;
      AtSplit(input, pos, head, tail, rest);
      QuotedRoundTrip(input, pos + |head|, quote, text[1..], rest);
      AtInside(input, pos, head, tail + rest);
      if text[0] == quote {
        QuotedDouble(input, pos, quote);
      } else {
        QuotedPlain(input, pos, quote);
      }
      assert text == [text[0]] + text[1..];
    }
  }

  lemma AtEnds(input: string, pos: nat, rest: string)
    requires At(input, pos, [], rest)
    ensures pos + |rest| == |input| && (rest != [] ==> input[pos] == rest[0])
  {
    assert input[pos..] == rest;
  }

  lemma AtInside(input: string, pos: nat, text: string, rest: string)
    requires At(input, pos, text, rest)
    ensures pos + |text| + |rest| == |input|
  {
  }

  // --- Lists of quoted arguments ----------------------------------------------------------------------------

  /** An argument, the quote it is written in and the blanks after it. */
  datatype Item = Item(quote: char, text: string, gap: string)

  /** Arguments may be told apart: real quotes, and blanks between any two. */
  predicate Separated(items: seq<Item>) {
    forall i :: 0 <= i < |items| ==>
      IsQuote(items[i].quote) && Blanks(items[i].gap) && (i < |items| - 1 ==> items[i].gap != [])
  }

  function Written(items: seq<Item>): string {
    if items == [] then []
    else
      [items[0].quote] + Doubled(items[0].text, items[0].quote) + [items[0].quote] + items[0].gap
      + Written(items[1..])
  }

  /** All the tokens from a position on, or the first error. */
  function Run(input: string, pos: nat, validate: bool, unix: bool): Result<seq<Token>, Error>
    requires pos <= |input|
    decreases |input| - pos
  {
    match NextStep(input, pos, validate, unix)
    case End(_) => Ok([])
    case Fail(error, _) => Err(error)
    case Yield(token, next) =>
      match Run(input, next, validate, unix)
      case Ok(tokens) => Ok([token] + tokens)
      case Err(error) => Err(error)
  }

  /** The tokens are the arguments: the texts, in order, of the kinds their quotes ask for, all closed. */
  predicate Reads(tokens: seq<Token>, items: seq<Item>)
    requires Separated(items)
  {
    && |tokens| == |items|
    && forall i :: 0 <= i < |items| ==>
         && tokens[i].content == items[i].text
         && tokens[i].kind == QuoteKind(items[i].quote)
         && tokens[i].isTerminated
  }

  lemma SkipsLead(input: string, pos: nat, lead: string, rest: string)
    requires At(input, pos, lead, rest) && Blanks(lead) && (rest == [] || !IsBlank(rest[0]))
    ensures SkipBlanks(input, pos) == pos + |lead| && At(input, pos + |lead|, [], rest)
  {
    var tail := input[pos..];
    assert forall k :: pos <= k < |input| ==> input[k] == tail[k - pos];
    FindIs(input, pos, NotBlank(), pos + |lead|);
    assert input[pos + |lead|..] == tail[|lead|..];
  }

  /** One written argument after blanks is one token, and what follows it is left to read. */
  lemma ItemStep(input: string, pos: nat, lead: string, item: Item, rest: string, validate: bool, unix: bool)
    requires Blanks(lead) && IsQuote(item.quote) && (rest == [] || rest[0] != item.quote)
    requires At(input, pos, lead, [item.quote] + Doubled(item.text, item.quote) + [item.quote] + rest)
    ensures var at := pos + |lead|;
            var end := at + |Doubled(item.text, item.quote)| + 2;
            && NextStep(input, pos, validate, unix)
               == Yield(Token(QuoteKind(item.quote), at + 1, item.text, true), end)
            && At(input, end, [], rest)
  {
    hide At, SkipBlanks, Doubled, QuotedFrom, PercentStep, WordStep;
    var at := pos + |lead|;
    var body := Doubled(item.text, item.quote) + [item.quote];
    assert [item.quote] + Doubled(item.text, item.quote) + [item.quote] + rest == [item.quote] + body + rest;
    SkipsLead(input, pos, lead, [item.quote] + body + rest);
    AtEnds(input, at, [item.quote] + body + rest);
    AtEmpty(input, at, [item.quote] + body, rest);
    AtSplit(input, at, [item.quote], body, rest);
    QuotedRoundTrip(input, at + 1, item.quote, item.text, rest);
  }

  lemma AtEmpty(input: string, pos: nat, text: string, rest: string)
    ensures At(input, pos, [], text + rest) <==> At(input, pos, text, rest)
  {
    assert [] + (text + rest) == text + rest;
  }

  /**
   Any list of strings comes back: each in quotes of its own with the quotes inside doubled, blanks between,
   in any input from any position. No error, and the tokens are exactly the strings.
   */
  lemma {:induction false} ListRoundTrip(input: string, pos: nat, lead: string, items: seq<Item>,
                                         validate: bool, unix: bool)
    requires At(input, pos, lead, Written(items)) && Blanks(lead) && Separated(items)
    ensures Run(input, pos, validate, unix).Ok? && Reads(Run(input, pos, validate, unix).value, items)
    decreases |items|
  {
    hide At, Blanks, Separated, Reads, Doubled, NextStep;
    if items == [] {
      NoneRead(items);
      EndStep(input, pos, lead, validate, unix);
    } else {
      var item := items[0];
      var rest := item.gap + Written(items[1..]);
      assert Written(items) == [item.quote] + Doubled(item.text, item.quote) + [item.quote] + rest;
      GapEndsQuote(items);
      ItemStep(input, pos, lead, item, rest, validate, unix);
      var end := NextStep(input, pos, validate, unix).pos;
      AtEmpty(input, end, item.gap, Written(items[1..]));
      ListRoundTrip(input, end, item.gap, items[1..], validate, unix);
      ReadsCons(NextStep(input, pos, validate, unix).token, Run(input, end, validate, unix).value, items);
    }
  }

  lemma NoneRead(items: seq<Item>)
    requires items == []
    ensures Separated(items) && Reads([], items)
  {
  }

  lemma ReadsCons(token: Token, tokens: seq<Token>, items: seq<Item>)
    requires items != [] && Separated(items) && Separated(items[1..]) && Reads(tokens, items[1..])
    requires token.content == items[0].text && token.kind == QuoteKind(items[0].quote) && token.isTerminated
    ensures Reads([token] + tokens, items)
  {
    forall i | 1 <= i < |items|
      ensures items[i] == items[1..][i - 1] && ([token] + tokens)[i] == tokens[i - 1]
    {
    }
  }

  lemma EndStep(input: string, pos: nat, lead: string, validate: bool, unix: bool)
    requires At(input, pos, lead, []) && Blanks(lead)
    ensures NextStep(input, pos, validate, unix) == End(|input|)
  {
    SkipsLead(input, pos, lead, []);
  }

  lemma GapEndsQuote(items: seq<Item>)
    requires items != [] && Separated(items)
    ensures var rest := items[0].gap + Written(items[1..]);
            rest == [] || rest[0] != items[0].quote
    ensures Separated(items[1..]) && IsQuote(items[0].quote) && Blanks(items[0].gap)
  {
    if items[0].gap == [] {
      assert items[1..] == [];
    }
  }

  // --- Balanced bodies ------------------------------------------------------------------------------------------

  /** How deep the delimiters of a text leave off, from `level`, or at -1 once it drops below zero. */
  function DepthAfter(body: string, open: char, close: char, level: int): int {
    if body == [] || level < 0 then level
    else DepthAfter(body[1..], open, close, LevelAfter(body[0], open, close, level))
  }

  function LevelAfter(c: char, open: char, close: char, level: int): int {
    if c == open then level + 1 else if c == close then level - 1 else level
  }

  /** Every closing delimiter closes one of the text's own, and all are closed. */
  predicate Balanced(body: string, open: char, close: char) {
    DepthAfter(body, open, close, 0) == 0
  }

  lemma BalancedStep(input: string, pos: nat, open: char, close: char, level: nat)
    requires pos < |input| && level > 0 && open != close
    ensures BalancedEnd(input, pos, open, close, level)
         == BalancedEnd(input, pos + 1, open, close, LevelAfter(input[pos], open, close, level))
  {
    hide Find;
    FindNext(input, pos, IsEither(open, close));
  }

  lemma {:induction false} BalancedRoundTrip(input: string, pos: nat, open: char, close: char, level: nat, body: string, rest: string)
    requires open != close && level > 0 && At(input, pos, body + [close], rest)
    requires DepthAfter(body, open, close, level - 1) == 0
    ensures BalancedEnd(input, pos, open, close, level) == (pos + |body| + 1, true)
    decreases |body|
  {
    hide BalancedEnd, At;
    AtInside(input, pos, body + [close], rest);
    BalancedStep(input, pos, open, close, level);
    if body == [] {
      assert body + [close] == [close] + [];
      AtSplit(input, pos, [close], [], rest);
      LevelZero(input, pos + 1, open, close);
    } else {
      assert body + [close] == [body[0]] + (body[1..] + [close]);
      AtSplit(input, pos, [body[0]], body[1..] + [close], rest);
      BalancedRoundTrip(input, pos + 1, open, close, LevelAfter(body[0], open, close, level), body[1..], rest);
    }
  }

  lemma LevelZero(input: string, pos: nat, open: char, close: char)
    requires pos <= |input|
    ensures BalancedEnd(input, pos, open, close, 0) == (pos, true)
  {
  }

  /** An expansion whose body balances its own delimiters comes back whole, whatever follows. */
  lemma BalancedBodyWhole(input: string, pos: nat, kind: string, open: char, close: char, body: string, rest: string,
                          validate: bool, unix: bool)
    requires FromKind(kind).Some? && (open, close) in {('(', ')'), ('[', ']'), ('{', '}'), ('<', '>')}
    requires Balanced(body, open, close) && At(input, pos, ['%'] + kind + ([open] + (body + [close])), rest)
    ensures var start := pos + |kind| + 2;
            NextStep(input, pos, validate, unix)
            == Yield(Token(Expansion(FromKind(kind).value), start, body, true), start + |body| + 1)
  {
    hide At, BalancedEnd, SkipBlanks, Find, QuotedFrom, WordStep, DepthAfter, FromKind;
    var at := pos + 1 + |kind|;
    AtSplit(input, pos, ['%'] + kind, [open] + (body + [close]), rest);
    AtSplit(input, at, [open], body + [close], rest);
    AtInside(input, at + 1, body + [close], rest);
    KindRead(input, pos, kind, [open] + (body + [close]) + rest);
    BalancedRoundTrip(input, at + 1, open, close, 1, body, rest);
    BodyRead(input, at + 1, body, [close], rest);
  }

  predicate Lowercase(name: string) {
    forall k :: 0 <= k < |name| ==> 'a' <= name[k] <= 'z'
  }

  lemma KindRead(input: string, pos: nat, kind: string, rest: string)
    requires At(input, pos, ['%'] + kind, rest) && FromKind(kind).Some? && rest != [] && !('a' <= rest[0] <= 'z')
    ensures SkipBlanks(input, pos) == pos && input[pos] == '%'
    ensures var at := pos + 1 + |kind|;
            at < |input| && Find(input, pos + 1, NotLowercase()) == at && input[pos + 1..at] == kind
  {
    hide FromKind, At;
    KindLowercase(kind);
    NamedRead(input, pos, kind, rest);
    AtInside(input, pos, ['%'] + kind, rest);
  }

  lemma NamedRead(input: string, pos: nat, name: string, rest: string)
    requires At(input, pos, ['%'] + name, rest) && Lowercase(name) && (rest == [] || !('a' <= rest[0] <= 'z'))
    ensures pos < |input| && SkipBlanks(input, pos) == pos && input[pos] == '%'
    ensures var at := pos + 1 + |name|;
            at <= |input| && Find(input, pos + 1, NotLowercase()) == at && input[pos + 1..at] == name
  {
    hide At;
    AtSplit(input, pos, ['%'], name, rest);
    AtInside(input, pos, ['%'] + name, rest);
    FindNext(input, pos, NotBlank());
    NameRead(input, pos + 1, name, rest);
  }

  lemma NameRead(input: string, pos: nat, name: string, rest: string)
    requires At(input, pos, name, rest) && Lowercase(name) && (rest == [] || !('a' <= rest[0] <= 'z'))
    ensures var at := pos + |name|;
            at <= |input| && Find(input, pos, NotLowercase()) == at && input[pos..at] == name
  {
    var tail := input[pos..];
    var at := pos + |name|;
    forall k | 0 <= k < |tail|
      ensures input[pos + k] == tail[k]
    {
    }
    assert rest != [] ==> tail[|name|] == rest[0];
    forall k | pos <= k < at
      ensures input[k] == name[k - pos]
    {
      assert input[k] == tail[k - pos];
    }
    hide Find;
    FindIs(input, pos, NotLowercase(), at);
  }

  lemma KindLowercase(kind: string)
    requires FromKind(kind).Some?
    ensures Lowercase(kind)
  {
  }

  lemma BodyRead(input: string, pos: nat, body: string, close: string, rest: string)
    requires At(input, pos, body + close, rest)
    ensures pos + |body| <= |input| && input[pos..pos + |body|] == body
  {
    assert input[pos..pos + |body|] == input[pos..][..|body|];
  }

  // --- Plain words ------------------------------------------------------------------------------------------------

  /** The text with a backslash before every blank. */
  function BlanksEscaped(text: string): string {
    if text == [] then []
    else (if IsBlank(text[0]) then ['\\', text[0]] else [text[0]]) + BlanksEscaped(text[1..])
  }

  /**
   Can the word be written without quotes? On Unix it can unless it ends in a backslash or starts like a quoted
   token, an expansion or an escape of one; elsewhere blanks cannot be escaped, and backslashes are free.
   */
  predicate Plain(word: string, unix: bool) {
    && word != [] && !IsQuote(word[0]) && word[0] != '%'
    && if unix then word[|word| - 1] != '\\' && !StartsEscaped(word) else NoBlanks(word)
  }

  predicate StartsEscaped(word: string) {
    |word| > 1 && word[0] == '\\' && (IsQuote(word[1]) || word[1] == '%')
  }

  predicate NoBlanks(word: string) {
    forall i :: 0 <= i < |word| ==> !IsBlank(word[i])
  }

  /** A word read whole, up to `end`; or, if what ends it is open, one read too far or cut short. */
  predicate ReadWhole(r: (string, nat), whole: string, end: nat, open: bool) {
    if open then r.1 > end || |r.0| < |whole| else r == (whole, end)
  }

  /** Text with its blanks escaped comes back whole, unless a backslash is left in front of what follows. */
  lemma {:induction false} WordRoundTrip(input: string, start: nat, pos: nat, taken: string, text: string,
                                         rest: string, unix: bool)
    requires start <= pos && At(input, pos, BlanksEscaped(text), rest) && (unix || NoBlanks(text))
    requires (start == pos ==> !Escaped(input, pos, unix)) && (rest == [] || IsBlank(rest[0]))
    ensures var end := pos + |BlanksEscaped(text)|;
            && end <= |input|
            && ReadWhole(UnquotedFrom(input, start, pos, taken, unix), taken + input[start..pos] + text, end,
                         Escaped(input, end, unix))
    decreases |text|
  {
    hide UnquotedFrom, At, ReadWhole, IsBlank, NoBlanks, BlanksEscaped, Escaped;
    if text == [] {
      WordEnds(input, start, pos, taken, text, rest, unix);
    } else {
      NoBlanksOnward(text);
      AtInside(input, pos, BlanksEscaped(text), rest);
      var before := taken + input[start..pos];
      if IsBlank(text[0]) {
        WrittenBlank(input, start, pos, taken, text, rest, unix);
        WordRoundTrip(input, pos + 2, pos + 2, before + [text[0]], text[1..], rest, unix);
        Regrouped(before, [text[0]], input[pos + 2..pos + 2], text);
      } else {
        WrittenCharacter(input, start, pos, taken, text, rest, unix);
        WordRoundTrip(input, start, pos + 1, taken, text[1..], rest, unix);
        Regrouped(before, [text[0]], [], text);
      }
    }
  }

  lemma NoBlanksOnward(text: string)
    requires text != []
    ensures NoBlanks(text) ==> NoBlanks(text[1..]) && !IsBlank(text[0])
  {
  }

  lemma WrittenBlank(input: string, start: nat, pos: nat, taken: string, text: string, rest: string, unix: bool)
    requires text != [] && IsBlank(text[0]) && unix
    requires start <= pos && At(input, pos, BlanksEscaped(text), rest) && (start == pos ==> !Escaped(input, pos, unix))
    ensures |BlanksEscaped(text)| == 2 + |BlanksEscaped(text[1..])| && At(input, pos + 2, BlanksEscaped(text[1..]), rest)
    ensures pos + 2 <= |input| && !Escaped(input, pos + 2, unix)
    ensures UnquotedFrom(input, start, pos, taken, unix)
         == UnquotedFrom(input, pos + 2, pos + 2, taken + input[start..pos] + [text[0]], unix)
  {
    var head := ['\\', text[0]];
    assert BlanksEscaped(text) == head + BlanksEscaped(text[1..]);
    AtSplit(input, pos, head, BlanksEscaped(text[1..]), rest);
    AtInside(input, pos, head, BlanksEscaped(text[1..]) + rest);
    hide UnquotedFrom, At, BlanksEscaped;
    EscapedBlank(input, start, pos, taken, unix);
  }

  lemma WrittenCharacter(input: string, start: nat, pos: nat, taken: string, text: string, rest: string, unix: bool)
    requires text != [] && !IsBlank(text[0])
    requires start <= pos && At(input, pos, BlanksEscaped(text), rest) && (start == pos ==> !Escaped(input, pos, unix))
    ensures |BlanksEscaped(text)| == 1 + |BlanksEscaped(text[1..])| && At(input, pos + 1, BlanksEscaped(text[1..]), rest)
    ensures pos < |input| && taken + input[start..pos + 1] == taken + input[start..pos] + [text[0]]
    ensures UnquotedFrom(input, start, pos, taken, unix) == UnquotedFrom(input, start, pos + 1, taken, unix)
  {
    var head := [text[0]];
    assert BlanksEscaped(text) == head + BlanksEscaped(text[1..]);
    AtSplit(input, pos, head, BlanksEscaped(text[1..]), rest);
    AtInside(input, pos, head, BlanksEscaped(text[1..]) + rest);
    hide UnquotedFrom, At, BlanksEscaped;
    PlainCharacter(input, start, pos, taken, unix);
    assert input[start..pos + 1] == input[start..pos] + [text[0]];
  }

  lemma Regrouped(before: string, first: string, none: string, text: string)
    requires text != [] && first == [text[0]] && none == []
    ensures before + first + none + text[1..] == before + text
    ensures before + first + text[1..] == before + text
  {
    assert first + text[1..] == text;
  }

  lemma WordEnds(input: string, start: nat, pos: nat, taken: string, text: string, rest: string, unix: bool)
    requires text == [] && start <= pos && At(input, pos, BlanksEscaped(text), rest)
    requires (start == pos ==> !Escaped(input, pos, unix)) && (rest == [] || IsBlank(rest[0]))
    ensures |BlanksEscaped(text)| == 0 && pos <= |input|
    ensures ReadWhole(UnquotedFrom(input, start, pos, taken, unix), taken + input[start..pos] + text, pos,
                      Escaped(input, pos, unix))
  {
    AtEnds(input, pos, rest);
    hide At;
    assert taken + input[start..pos] + text == taken + input[start..pos];
  }

  lemma PlainCharacter(input: string, start: nat, pos: nat, taken: string, unix: bool)
    requires start <= pos < |input| && !IsBlank(input[pos]) && (start == pos ==> !Escaped(input, pos, unix))
    ensures UnquotedFrom(input, start, pos, taken, unix) == UnquotedFrom(input, start, pos + 1, taken, unix)
  {
  }

  lemma EscapedBlank(input: string, start: nat, pos: nat, taken: string, unix: bool)
    requires unix && start <= pos && pos + 1 < |input| && input[pos] == '\\' && IsBlank(input[pos + 1])
    requires start == pos ==> !Escaped(input, pos, unix)
    ensures UnquotedFrom(input, start, pos, taken, unix)
         == UnquotedFrom(input, pos + 2, pos + 2, taken + input[start..pos] + [input[pos + 1]], unix)
  {
    PlainCharacter(input, start, pos, taken, unix);
    assert Escaped(input, pos + 1, unix);
  }

  lemma {:induction false} LastWritten(text: string)
    requires text != []
    ensures BlanksEscaped(text) != [] && BlanksEscaped(text)[|BlanksEscaped(text)| - 1] == text[|text| - 1]
    ensures BlanksEscaped(text)[0] == if IsBlank(text[0]) then '\\' else text[0]
    ensures |text| > 1 && !IsBlank(text[0]) ==>
              |BlanksEscaped(text)| > 1 && BlanksEscaped(text)[1] == if IsBlank(text[1]) then '\\' else text[1]
  {
    if |text| > 1 {
      LastWritten(text[1..]);
    }
  }

  /** What the reader makes of a word from its first character on. */
  lemma WordText(input: string, pos: nat, word: string, rest: string, unix: bool)
    requires word != [] && (unix || NoBlanks(word)) && pos < |input|
    requires At(input, pos, BlanksEscaped(word), rest) && (rest == [] || IsBlank(rest[0]))
    ensures pos + |BlanksEscaped(word)| <= |input|
    ensures ReadWhole(UnquotedFrom(input, pos, pos + 1, "", unix), word, pos + |BlanksEscaped(word)|,
                      unix && word[|word| - 1] == '\\')
  {
    assert NoBlanks(word) ==> NoBlanks(word[1..]) && !IsBlank(word[0]);
    hide At, UnquotedFrom, ReadWhole, BlanksEscaped, NoBlanks, IsBlank, Escaped;
    EndEscaped(input, pos, word, rest, unix);
    if IsBlank(word[0]) {
      FirstWritten(input, pos, word, rest);
      WordStarts(input, pos, unix);
      BlankNotEscaped(input, pos + 2, unix);
      WordRoundTrip(input, pos + 2, pos + 2, [word[0]], word[1..], rest, unix);
    } else {
      FirstWritten(input, pos, word, rest);
      WordRoundTrip(input, pos, pos + 1, "", word[1..], rest, unix);
    }
  }

  lemma EndEscaped(input: string, pos: nat, word: string, rest: string, unix: bool)
    requires word != [] && At(input, pos, BlanksEscaped(word), rest)
    ensures pos + |BlanksEscaped(word)| <= |input|
    ensures Escaped(input, pos + |BlanksEscaped(word)|, unix) <==> unix && word[|word| - 1] == '\\'
  {
    hide At, BlanksEscaped;
    LastWritten(word);
    AtLast(input, pos, BlanksEscaped(word), rest);
  }

  lemma BlankNotEscaped(input: string, pos: nat, unix: bool)
    requires 0 < pos <= |input| && IsBlank(input[pos - 1])
    ensures !Escaped(input, pos, unix)
  {
  }

  lemma FirstWritten(input: string, pos: nat, word: string, rest: string)
    requires word != [] && At(input, pos, BlanksEscaped(word), rest)
    ensures var size := if IsBlank(word[0]) then 2 else 1;
            && |BlanksEscaped(word)| == size + |BlanksEscaped(word[1..])| && pos + size <= |input|
            && At(input, pos + size, BlanksEscaped(word[1..]), rest)
            && input[pos + size - 1] == word[0] && (size == 2 ==> input[pos] == '\\')
            && (size == 1 ==> "" + input[pos..pos + 1] + word[1..] == word)
            && (size == 2 ==> [word[0]] + input[pos + 2..pos + 2] + word[1..] == word)
  {
    hide At, BlanksEscaped, IsBlank;
    FirstWrittenAt(input, pos, word, rest);
    if IsBlank(word[0]) {
      FirstAndRest(word, [word[0]], input[pos + 2..pos + 2]);
    } else {
      FirstAndRest(word, input[pos..pos + 1], "");
    }
  }

  lemma FirstAndRest(word: string, first: string, none: string)
    requires word != [] && first == [word[0]] && none == []
    ensures first + none + word[1..] == word && "" + first + word[1..] == word
  {
    assert first + word[1..] == word;
  }

  lemma FirstWrittenAt(input: string, pos: nat, word: string, rest: string)
    requires word != [] && At(input, pos, BlanksEscaped(word), rest)
    ensures var size := if IsBlank(word[0]) then 2 else 1;
            && |BlanksEscaped(word)| == size + |BlanksEscaped(word[1..])| && pos + size <= |input|
            && At(input, pos + size, BlanksEscaped(word[1..]), rest)
            && input[pos + size - 1] == word[0] && (size == 2 ==> input[pos] == '\\')
  {
    var head := if IsBlank(word[0]) then ['\\', word[0]] else [word[0]];
    assert BlanksEscaped(word) == head + BlanksEscaped(word[1..]);
    hide At, BlanksEscaped;
    AtSplit(input, pos, head, BlanksEscaped(word[1..]), rest);
    AtInside(input, pos, head, BlanksEscaped(word[1..]) + rest);
  }

  lemma AtLast(input: string, pos: nat, text: string, rest: string)
    requires At(input, pos, text, rest) && text != []
    ensures pos + |text| <= |input| && input[pos + |text| - 1] == text[|text| - 1] && input[pos] == text[0]
    ensures |text| > 1 ==> input[pos + 1] == text[1]
  {
    AtIndex(input, pos, text, rest, |text| - 1);
    AtIndex(input, pos, text, rest, 0);
    if |text| > 1 {
      AtIndex(input, pos, text, rest, 1);
    }
  }

  lemma WordStarts(input: string, pos: nat, unix: bool)
    requires unix && pos + 1 < |input| && input[pos] == '\\' && IsBlank(input[pos + 1])
    ensures UnquotedFrom(input, pos, pos + 1, "", unix)
         == UnquotedFrom(input, pos + 2, pos + 2, [input[pos + 1]], unix)
  {
    assert Escaped(input, pos + 1, unix);
    assert "" + input[pos..pos] + [input[pos + 1]] == [input[pos + 1]];
  }

  /** Where blanks cannot be escaped, a word ends at the first of them. */
  lemma {:induction false} EndsAtBlank(input: string, start: nat, pos: nat, taken: string, blank: nat)
    requires start <= pos <= blank < |input| && IsBlank(input[blank])
    ensures UnquotedFrom(input, start, pos, taken, false).1 <= blank
    decreases blank - pos
  {
    if pos < blank && !IsBlank(input[pos]) {
      EndsAtBlank(input, start, pos + 1, taken, blank);
    }
  }

  lemma {:induction false} BlankWritten(text: string, i: nat) returns (k: nat)
    requires i < |text| && IsBlank(text[i])
    ensures 0 < k < |BlanksEscaped(text)| && IsBlank(BlanksEscaped(text)[k])
    decreases i
  {
    if i == 0 {
      k := 1;
    } else {
      k := BlankWritten(text[1..], i - 1);
      k := k + if IsBlank(text[0]) then 2 else 1;
    }
  }

  /**
   Exactly which words can be written without quotes: with its blanks escaped a word is one unquoted token with
   the word as content if and only if it is plain.
   */
  lemma PlainWordStep(input: string, pos: nat, word: string, rest: string, validate: bool, unix: bool)
    requires At(input, pos, BlanksEscaped(word), rest) && (rest == [] || IsBlank(rest[0]))
    ensures (NextStep(input, pos, validate, unix)
             == Yield(Token(Unquoted, pos, word, false), pos + |BlanksEscaped(word)|)) <==> Plain(word, unix)
  {
    if word != [] {
      AtLast(input, pos, BlanksEscaped(word), rest);
      LastWritten(word);
      hide At, Find, QuotedFrom, BalancedFrom, WordStep, UnquotedFrom, BlanksEscaped;
      assert !IsBlank(input[pos]);
      FindNext(input, pos, NotBlank());
      if IsQuote(input[pos]) || input[pos] == '%' {
        NotUnquoted(input, pos, validate, unix);
      } else {
        WordStepPlain(input, pos, word, rest, unix);
      }
    }
  }

  lemma NotUnquoted(input: string, pos: nat, validate: bool, unix: bool)
    requires pos < |input| && SkipBlanks(input, pos) == pos && (IsQuote(input[pos]) || input[pos] == '%')
    ensures var s := NextStep(input, pos, validate, unix); s.Yield? ==> s.token.kind != Unquoted
  {
    hide Find, QuotedFrom, BalancedFrom;
  }

  lemma WordStepPlain(input: string, pos: nat, word: string, rest: string, unix: bool)
    requires word != [] && At(input, pos, BlanksEscaped(word), rest) && (rest == [] || IsBlank(rest[0]))
    requires !IsQuote(word[0]) && word[0] != '%'
    ensures pos < |input| && !IsBlank(input[pos])
    ensures (WordStep(input, pos, unix) == Yield(Token(Unquoted, pos, word, false), pos + |BlanksEscaped(word)|))
            <==> Plain(word, unix)
  {
    hide At, UnquotedFrom, BlanksEscaped, NoBlanks, WordStep, StartsEscaped, ReadWhole;
    WordStepReads(input, pos, word, rest, unix);
    if !unix && !NoBlanks(word) {
      BlankEndsWord(input, pos, word, rest);
    } else if unix && StartsEscaped(word) {
      DropsFirst(input, pos, word, rest);
    } else {
      WordText(input, pos, word, rest, unix);
      WholeExactly(UnquotedFrom(input, pos, pos + 1, "", unix), word, pos + |BlanksEscaped(word)|,
                   unix && word[|word| - 1] == '\\');
    }
  }

  lemma WholeExactly(r: (string, nat), whole: string, end: nat, open: bool)
    requires ReadWhole(r, whole, end, open)
    ensures r == (whole, end) <==> !open
  {
  }

  /** A word starts to be read at its first character, or after it if that is a backslash which is dropped. */
  lemma WordStepReads(input: string, pos: nat, word: string, rest: string, unix: bool)
    requires word != [] && At(input, pos, BlanksEscaped(word), rest) && (rest == [] || IsBlank(rest[0]))
    ensures pos + |BlanksEscaped(word)| <= |input| && pos < |input| && !IsBlank(input[pos])
    ensures var start := if unix && StartsEscaped(word) then pos + 1 else pos;
            && start < |input|
            && var r := UnquotedFrom(input, start, start + 1, "", unix);
               WordStep(input, pos, unix) == Yield(Token(Unquoted, pos, r.0, false), r.1)
  {
    assert |word| == 1 && !IsBlank(word[0]) ==> BlanksEscaped(word) == word;
    hide At, UnquotedFrom, BlanksEscaped;
    AtLast(input, pos, BlanksEscaped(word), rest);
    LastWritten(word);
    if |word| == 1 && !IsBlank(word[0]) {
      AtSplit(input, pos, word, [], rest);
      AtEnds(input, pos + 1, rest);
    } else if IsBlank(word[0]) {
      FirstWritten(input, pos, word, rest);
    }
  }

  lemma BlankEndsWord(input: string, pos: nat, word: string, rest: string)
    requires At(input, pos, BlanksEscaped(word), rest) && pos < |input| && !NoBlanks(word)
    ensures UnquotedFrom(input, pos, pos + 1, "", false).1 < pos + |BlanksEscaped(word)|
  {
    hide At, UnquotedFrom;
    var i :| 0 <= i < |word| && IsBlank(word[i]);
    var k := BlankWritten(word, i);
    AtIndex(input, pos, BlanksEscaped(word), rest, k);
    EndsAtBlank(input, pos, pos + 1, "", pos + k);
  }

  lemma DropsFirst(input: string, pos: nat, word: string, rest: string)
    requires At(input, pos, BlanksEscaped(word), rest) && (rest == [] || IsBlank(rest[0])) && StartsEscaped(word)
    ensures pos + 1 < |input| && input[pos + 1] == word[1]
    ensures UnquotedFrom(input, pos + 1, pos + 2, "", true) != (word, pos + |BlanksEscaped(word)|)
  {
    AtLast(input, pos, BlanksEscaped(word), rest);
    LastWritten(word);
    hide At, UnquotedFrom;
    assert BlanksEscaped(word) == [word[0]] + BlanksEscaped(word[1..]);
    AtSplit(input, pos, [word[0]], BlanksEscaped(word[1..]), rest);
    WordText(input, pos + 1, word[1..], rest, true);
  }

  lemma AtIndex(input: string, pos: nat, text: string, rest: string, k: nat)
    requires At(input, pos, text, rest) && k < |text|
    ensures pos + k < |input| && input[pos + k] == text[k]
  {
    AtInside(input, pos, text, rest);
    assert input[pos..][k] == text[k];
  }
}
