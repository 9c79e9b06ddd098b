/** Expansions and tokens left open: what each written form is read as, and what validation refuses. */
module Expansions {
  import opened Wrappers
  import opened Tokens
  import opened TokenRoundTrip

  // --- Expansions by name -----------------------------------------------------------------------------

  /** What an expansion of the given name, body and end is: one of four kinds, or unknown. */
  predicate IsExpansion(s: Step, name: string, nameEnd: nat, body: string, end: nat, validate: bool) {
    var token := (kind: TokenKind) => Token(kind, nameEnd + 1, body, true);
    && (name == "" ==> s == Yield(token(Expansion(Variable)), end))
    && (name == "u" ==> s == Yield(token(Expansion(Unicode)), end))
    && (name == "sh" ==> s == Yield(token(Expansion(Shell)), end))
    && (name == "reg" ==> s == Yield(token(Expansion(Register)), end))
    && (name !in {"", "u", "sh", "reg"} ==>
          s == if validate then Fail(UnknownExpansion(name), nameEnd) else Yield(token(Expand), end))
  }

  /** A percent sign, a name and a delimiter are read, and then what is between delimiters. */
  lemma DelimiterRead(input: string, pos: nat, name: string, open: char, close: char, rest: string, validate: bool,
                      unix: bool)
    requires Lowercase(name) && !('a' <= open <= 'z') && Delimiters(open) == Some((open, close))
    requires At(input, pos, ['%'] + name, [open] + rest)
    ensures var at := pos + 1 + |name|;
            && at < |input|
            && NextStep(input, pos, validate, unix) ==
               match FromKind(name)
               case Some(kind) => DelimitedStep(input, at, open, close, Expansion(kind), validate)
               case None =>
                 if validate then Fail(UnknownExpansion(name), at)
                 else DelimitedStep(input, at, open, close, Expand, validate)
  {
    hide At, SkipBlanks, Find, DelimitedStep, WordStep, QuotedFrom, FromKind;
    var at := pos + 1 + |name|;
    NamedRead(input, pos, name, [open] + rest);
    assert ['%'] + name + [] == ['%'] + name;
    AtSplit(input, pos, ['%'] + name, [], [open] + rest);
    AtEnds(input, at, [open] + rest);
  }

  lemma ByName(s: Step, name: string, nameEnd: nat, body: string, end: nat, validate: bool)
    requires s == match FromKind(name)
                  case Some(kind) => Yield(Token(Expansion(kind), nameEnd + 1, body, true), end)
                  case None =>
                    if validate then Fail(UnknownExpansion(name), nameEnd)
                    else Yield(Token(Expand, nameEnd + 1, body, true), end)
    ensures IsExpansion(s, name, nameEnd, body, end, validate)
  {
  }

  lemma BracketsDelimit(open: char, close: char)
    requires (open, close) in {('(', ')'), ('[', ']'), ('{', '}'), ('<', '>')}
    ensures Delimiters(open) == Some((open, close)) && open != close && !('a' <= open <= 'z')
  {
  }

  lemma BodySpan(input: string, pos: nat, open: char, close: char, body: string, rest: string)
    requires open != close && Balanced(body, open, close) && At(input, pos, body + [close], rest)
    ensures BalancedFrom(input, pos, open, close) == Span(body, pos + |body| + 1, true)
  {
    hide At, BalancedEnd, DepthAfter;
    AtInside(input, pos, body + [close], rest);
    BalancedRoundTrip(input, pos, open, close, 1, body, rest);
    BodyRead(input, pos, body, [close], rest);
  }

  /** An expansion in brackets, with a body that balances them. */
  lemma BracketedExpansion(input: string, pos: nat, name: string, open: char, close: char, body: string, rest: string,
                           validate: bool, unix: bool)
    requires Lowercase(name) && (open, close) in {('(', ')'), ('[', ']'), ('{', '}'), ('<', '>')}
    requires Balanced(body, open, close) && At(input, pos, ['%'] + name + ([open] + (body + [close])), rest)
    ensures var nameEnd := pos + 1 + |name|;
            IsExpansion(NextStep(input, pos, validate, unix), name, nameEnd, body, nameEnd + |body| + 2, validate)
  {
    hide At, BalancedFrom, QuotedFrom, NextStep, Balanced, FromKind, IsExpansion, Delimiters;
    BracketsDelimit(open, close);
    var at := pos + 1 + |name|;
    AtSplit(input, pos, ['%'] + name, [open] + (body + [close]), rest);
    AtSplit(input, at, [open], body + [close], rest);
    AtInside(input, at + 1, body + [close], rest);
    assert [open] + (body + [close]) + rest == [open] + (body + [close] + rest);
    DelimiterRead(input, pos, name, open, close, body + [close] + rest, validate, unix);
    BodySpan(input, at + 1, open, close, body, rest);
    ByName(NextStep(input, pos, validate, unix), name, at, body, at + |body| + 2, validate);
  }

  /** An expansion in quotes or bars, doubled inside its text. */
  lemma QuotedExpansion(input: string, pos: nat, name: string, quote: char, text: string, rest: string,
                        validate: bool, unix: bool)
    requires Lowercase(name) && quote in {'\'', '"', '|'} && (rest == [] || rest[0] != quote)
    requires At(input, pos, ['%'] + name + ([quote] + (Doubled(text, quote) + [quote])), rest)
    ensures var nameEnd := pos + 1 + |name|;
            IsExpansion(NextStep(input, pos, validate, unix), name, nameEnd, text,
                        nameEnd + |Doubled(text, quote)| + 2, validate)
  {
    hide At, BalancedFrom, NextStep, QuotedFrom, Doubled;
    var at := pos + 1 + |name|;
    var body := Doubled(text, quote) + [quote];
    AtSplit(input, pos, ['%'] + name, [quote] + body, rest);
    AtSplit(input, at, [quote], body, rest);
    AtInside(input, at + 1, body, rest);
    assert [quote] + body + rest == [quote] + (body + rest);
    DelimiterRead(input, pos, name, quote, quote, body + rest, validate, unix);
    QuotedRoundTrip(input, at + 1, quote, text, rest);
  }

  predicate IsDelimiter(c: char) {
    c in {'(', '[', '{', '<', '\'', '"', '|'}
  }

  /** A percent sign and a name with no delimiter after it: an error, or the name on its own. */
  lemma NoDelimiter(input: string, pos: nat, name: string, rest: string, validate: bool, unix: bool)
    requires Lowercase(name) && (rest == [] || (!('a' <= rest[0] <= 'z') && !IsDelimiter(rest[0])))
    requires At(input, pos, ['%'] + name, rest)
    ensures var nameEnd := pos + 1 + |name|;
            NextStep(input, pos, validate, unix)
            == if validate then Fail(MissingExpansionDelimiter(name), nameEnd)
               else Yield(Token(KindOnly, pos + 1, name, false), nameEnd)
  {
    hide At, BalancedFrom, SkipBlanks, Find, QuotedFrom, WordStep;
    NamedRead(input, pos, name, rest);
    assert ['%'] + name + [] == ['%'] + name;
    AtSplit(input, pos, ['%'] + name, [], rest);
    AtEnds(input, pos + 1 + |name|, rest);
  }

  /** Spaces and tabs, and nothing else, are skipped in front of a token. */
  lemma SpacesAndTabsSkipped(input: string, pos: nat, lead: string, rest: string, validate: bool, unix: bool)
    requires At(input, pos, lead, rest) && forall i :: 0 <= i < |lead| ==> lead[i] == ' ' || lead[i] == '\t'
    requires rest != [] ==> rest[0] != ' ' && rest[0] != '\t'
    ensures pos + |lead| <= |input| && SkipBlanks(input, pos) == pos + |lead|
    ensures NextStep(input, pos, validate, unix) == NextStep(input, pos + |lead|, validate, unix)
  {
    SkipsLead(input, pos, lead, rest);
    AtInside(input, pos, lead, rest);
    assert SkipBlanks(input, pos + |lead|) == pos + |lead|;
    hide At, Find, QuotedFrom, PercentStep, WordStep;
  }

  // --- Tokens left open -------------------------------------------------------------------------------

  /** Quoted text that the line ends in is all read, and known to be open. */
  lemma {:induction false} QuoteLeftOpen(input: string, pos: nat, quote: char, text: string)
    requires At(input, pos, Doubled(text, quote), [])
    ensures QuotedFrom(input, pos, quote) == Span(text, |input|, false)
    decreases |text|
  {
    if text == [] {
      AtEnds(input, pos, []);
    } else {
      var head := if text[0] == quote then [quote, quote] else [text[0]];
      assert Doubled(text, quote) == head + Doubled(text[1..], quote);
      hide QuotedFrom, At;
      AtSplit(input, pos, head, Doubled(text[1..], quote), []);
      QuoteLeftOpen(input, pos + |head|, quote, text[1..]);
      AtInside(input, pos, head, Doubled(text[1..], quote) + []);
      if text[0] == quote {
        QuotedDouble(input, pos, quote);
      } else {
        QuotedPlain(input, pos, quote);
      }
      assert text == [text[0]] + text[1..];
    }
  }

  /** A quoted token that is not closed is an error when validating, and its text otherwise. */
  lemma OpenQuoteStep(input: string, pos: nat, quote: char, text: string, validate: bool, unix: bool)
    requires quote in {'"', '\'', '`'} && At(input, pos, [quote] + Doubled(text, quote), [])
    ensures var kind := if quote == '"' then Expand else if quote == '\'' then Quoted(Single) else Quoted(Backtick);
            var token := Token(kind, pos + 1, text, false);
            NextStep(input, pos, validate, unix)
            == if validate then Fail(UnterminatedToken(token), |input|) else Yield(token, |input|)
  {
    hide At, Find, QuotedFrom, PercentStep, WordStep;
    AtSplit(input, pos, [quote], Doubled(text, quote), []);
    AtInside(input, pos, [quote] + Doubled(text, quote), []);
    FindNext(input, pos, NotBlank());
    QuoteLeftOpen(input, pos + 1, quote, text);
  }

  /** Text that never closes its level is all read, and known to be open. */
  lemma {:induction false} BracketLeftOpen(input: string, pos: nat, open: char, close: char, level: nat, body: string)
    requires open != close && level > 0 && At(input, pos, body, [])
    requires DepthAfter(body, open, close, level - 1) >= 0
    ensures BalancedEnd(input, pos, open, close, level) == (|input|, false)
    decreases |body|
  {
    if body == [] {
      AtEnds(input, pos, []);
      assert Find(input, pos, IsEither(open, close)) == |input|;
    } else {
      hide BalancedEnd, At;
      assert body == [body[0]] + body[1..];
      AtSplit(input, pos, [body[0]], body[1..], []);
      AtInside(input, pos, body, []);
      BalancedStep(input, pos, open, close, level);
      assert LevelAfter(body[0], open, close, level) > 0;
      BracketLeftOpen(input, pos + 1, open, close, LevelAfter(body[0], open, close, level), body[1..]);
    }
  }

  /** An expansion of a known kind that is not closed is an error when validating, and its body otherwise. */
  lemma OpenBracketStep(input: string, pos: nat, name: string, open: char, close: char, body: string, validate: bool,
                        unix: bool)
    requires FromKind(name).Some? && (open, close) in {('(', ')'), ('[', ']'), ('{', '}'), ('<', '>')}
    requires DepthAfter(body, open, close, 0) >= 0 && At(input, pos, ['%'] + name + ([open] + body), [])
    ensures var token := Token(Expansion(FromKind(name).value), pos + |name| + 2, body, false);
            NextStep(input, pos, validate, unix)
            == if validate then Fail(UnterminatedToken(token), |input|) else Yield(token, |input|)
  {
    hide At, BalancedEnd, NextStep, DepthAfter, FromKind;
    var at := pos + 1 + |name|;
    AtSplit(input, pos, ['%'] + name, [open] + body, []);
    AtSplit(input, at, [open], body, []);
    AtInside(input, at + 1, body, []);
    KindLowercase(name);
    assert [open] + body + [] == [open] + body;
    DelimiterRead(input, pos, name, open, close, body, validate, unix);
    BracketLeftOpen(input, at + 1, open, close, 1, body);
    assert body + [] == body;
    BodyRead(input, at + 1, body, [], []);
  }

  // --- Validation -----------------------------------------------------------------------------------------

  /**
   Validation only refuses: a step either is the one without validation, and its token is closed or a word, or it is
   an error in place of a token. An error about a token left open is about that very token.
   */
  lemma ValidationRefuses(input: string, pos: nat, unix: bool)
    requires pos <= |input|
    ensures var lenient, strict := NextStep(input, pos, false, unix), NextStep(input, pos, true, unix);
            && !lenient.Fail?
            && (strict.Fail? || strict == lenient)
            && (strict.Yield? ==> strict.token.isTerminated || strict.token.kind == Unquoted)
            && (strict.Fail? ==> lenient.Yield?)
            && (strict.Fail? && strict.error.UnterminatedToken? ==>
                  !strict.error.token.isTerminated && lenient == Yield(strict.error.token, strict.pos))
  {
    hide Find, QuotedFrom, BalancedFrom, UnquotedFrom;
  }

  /** On Unix a backslash lets a word start with a quote or a percent sign. */
  lemma EscapedStart(input: string, pos: nat, word: string, rest: string, validate: bool)
    requires word != [] && (IsQuote(word[0]) || word[0] == '%') && word[|word| - 1] != '\\'
    requires At(input, pos, ['\\'] + BlanksEscaped(word), rest) && (rest == [] || IsBlank(rest[0]))
    ensures NextStep(input, pos, validate, true)
         == Yield(Token(Unquoted, pos, word, false), pos + 1 + |BlanksEscaped(word)|)
  {
    hide At, Find, QuotedFrom, PercentStep, UnquotedFrom, BlanksEscaped, ReadWhole;
    AtSplit(input, pos, ['\\'], BlanksEscaped(word), rest);
    LastWritten(word);
    AtLast(input, pos + 1, BlanksEscaped(word), rest);
    FindNext(input, pos, NotBlank());
    WordText(input, pos + 1, word, rest, true);
    WholeExactly(UnquotedFrom(input, pos + 1, pos + 2, "", true), word, pos + 1 + |BlanksEscaped(word)|, false);
  }
}
