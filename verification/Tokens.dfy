/** The tokens of a command line, as functions of the input and a position. */
module Tokens {
  import opened Wrappers

  datatype Quote = Single | Backtick

  datatype ExpansionKind = Variable | Unicode | Shell | Register

  datatype TokenKind = Unquoted | Quoted(quote: Quote) | Expand | Expansion(kind: ExpansionKind) | KindOnly

  datatype Token = Token(kind: TokenKind, contentStart: nat, content: string, isTerminated: bool)

  datatype Error =
    | WrongPositionalCount(min: nat, max: Option<nat>, actual: nat)
    | UnterminatedToken(token: Token)
    | DuplicatedFlag(flag: string)
    | UnknownFlag(text: string)
    | FlagMissingArgument(flag: string)
    | MissingExpansionDelimiter(expansion: string)
    | UnknownExpansion(name: string)

  /** What a step of the tokenizer yields, and the position it leaves. */
  datatype Step = End(pos: nat) | Yield(token: Token, pos: nat) | Fail(error: Error, pos: nat)

  predicate IsBlank(c: char) {
    c == ' ' || c == '\t'
  }

  predicate IsQuote(c: char) {
    c == '"' || c == '\'' || c == '`'
  }

  function FromKind(name: string): Option<ExpansionKind> {
    match name
    case "" => Some(Variable)
    case "u" => Some(Unicode)
    case "sh" => Some(Shell)
    case "reg" => Some(Register)
    case _ => None
  }

  // --- Scanning -------------------------------------------------------------------------------------------

  /** First position from `pos` on with a character the test accepts, or the end. */
  function Find(input: string, pos: nat, test: char -> bool): (i: nat)
    requires pos <= |input|
    ensures pos <= i <= |input| && (i < |input| ==> test(input[i]))
    ensures forall k :: pos <= k < i ==> !test(input[k])
    decreases |input| - pos
  {
    if pos == |input| || test(input[pos]) then pos else Find(input, pos + 1, test)
  }

  function Is(quote: char): char -> bool {
    c => c == quote
  }

  function IsEither(open: char, close: char): char -> bool {
    c => c == open || c == close
  }

  function NotBlank(): char -> bool {
    c => !IsBlank(c)
  }

  function NotLowercase(): char -> bool {
    c => !('a' <= c <= 'z')
  }

  lemma FindIs(input: string, pos: nat, test: char -> bool, i: nat)
    requires pos <= i <= |input| && (i < |input| ==> test(input[i]))
    requires forall k :: pos <= k < i ==> !test(input[k])
    ensures Find(input, pos, test) == i
  {
  }

  function SkipBlanks(input: string, pos: nat): (i: nat)
    requires pos <= |input|
    ensures pos <= i <= |input|
  {
    Find(input, pos, NotBlank())
  }

  // --- Quoted text ------------------------------------------------------------------------------------------

  /** Content, end position and whether the closing delimiter was found. */
  datatype Span = Span(content: string, pos: nat, closed: bool)

  /** Text up to a closing quote; a doubled quote stands for one. */
  function QuotedFrom(input: string, pos: nat, quote: char): (s: Span)
    requires pos <= |input|
    ensures pos <= s.pos <= |input|
    decreases |input| - pos, 1
  {
    QuotedAt(input, pos, Find(input, pos, Is(quote)), quote)
  }

  /** The same, when the next quote is at `idx`. */
  function QuotedAt(input: string, pos: nat, idx: nat, quote: char): (s: Span)
    requires pos <= idx <= |input|
    ensures pos <= s.pos <= |input|
    decreases |input| - idx, 0
  {
    if idx == |input| then Span(input[pos..], |input|, false)
    else if idx + 1 < |input| && input[idx + 1] == quote then
      var rest := QuotedFrom(input, idx + 2, quote);
      Span(input[pos..idx + 1] + rest.content, rest.pos, rest.closed)
    else Span(input[pos..idx], idx + 1, true)
  }

  /** Text up to the delimiter that closes the `level` open ones. */
  function BalancedEnd(input: string, pos: nat, open: char, close: char, level: nat): (r: (nat, bool))
    requires pos <= |input|
    ensures pos <= r.0 <= |input| && (r.1 && level > 0 ==> pos < r.0)
    decreases |input| - pos
  {
    if level == 0 then (pos, true)
    else
      var idx := Find(input, pos, IsEither(open, close));
      if idx == |input| then (|input|, false)
      else if input[idx] == open then BalancedEnd(input, idx + 1, open, close, level + 1)
      else BalancedEnd(input, idx + 1, open, close, level - 1)
  }

  function BalancedFrom(input: string, pos: nat, open: char, close: char): (s: Span)
    requires pos <= |input|
    ensures pos <= s.pos <= |input|
  {
    var (end, closed) := BalancedEnd(input, pos, open, close, 1);
    Span(input[pos..if closed then end - 1 else end], end, closed)
  }

  // --- Unquoted text ------------------------------------------------------------------------------------------

  /** Is the blank at `pos` escaped by a backslash before it? */
  predicate Escaped(input: string, pos: nat, unix: bool)
    requires pos <= |input|
  {
    unix && pos > 0 && input[pos - 1] == '\\'
  }

  /** A word with its escaped blanks; `start` is where the part not yet taken over begins. */
  function UnquotedFrom(input: string, start: nat, pos: nat, taken: string, unix: bool): (s: (string, nat))
    requires start <= pos <= |input| && (start == pos ==> !Escaped(input, pos, unix))
    ensures pos <= s.1 <= |input|
    decreases |input| - pos
  {
    if pos == |input| then
      (taken + input[start..if Escaped(input, pos, unix) then pos - 1 else pos], pos)
    else if !IsBlank(input[pos]) then UnquotedFrom(input, start, pos + 1, taken, unix)
    else if Escaped(input, pos, unix) then
      UnquotedFrom(input, pos + 1, pos + 1, taken + input[start..pos - 1] + [input[pos]], unix)
    else (taken + input[start..pos], pos)
  }

  // --- One step -------------------------------------------------------------------------------------------------

  function Delimiters(c: char): Option<(char, char)> {
    match c
    case '(' => Some(('(', ')'))
    case '[' => Some(('[', ']'))
    case '{' => Some(('{', '}'))
    case '<' => Some(('<', '>'))
    case '\'' => Some(('\'', '\''))
    case '\"' => Some(('\"', '\"'))
    case '|' => Some(('|', '|'))
    case _ => None
  }

  /** The expansion at a percent sign. */
  function PercentStep(input: string, pos: nat, validate: bool): (s: Step)
    requires pos < |input|
    ensures pos < s.pos <= |input| && !s.End?
  {
    var kindStart := pos + 1;
    var kindEnd := Find(input, kindStart, NotLowercase());
    var name := input[kindStart..kindEnd];
    var delimiters := if kindEnd < |input| then Delimiters(input[kindEnd]) else None;
    match delimiters
    case None =>
      if validate then Fail(MissingExpansionDelimiter(name), kindEnd)
      else Yield(Token(KindOnly, kindStart, name, false), kindEnd)
    case Some((open, close)) =>
      match FromKind(name)
      case None =>
        if validate then Fail(UnknownExpansion(name), kindEnd)
        else DelimitedStep(input, kindEnd, open, close, Expand, validate)
      case Some(kind) => DelimitedStep(input, kindEnd, open, close, Expansion(kind), validate)
  }

  function DelimitedStep(input: string, at: nat, open: char, close: char, kind: TokenKind, validate: bool): (s: Step)
    requires at < |input|
    ensures at < s.pos <= |input| && !s.End?
  {
    var span := if open == close then QuotedFrom(input, at + 1, open) else BalancedFrom(input, at + 1, open, close);
    Finished(Token(kind, at + 1, span.content, span.closed), span.pos, validate)
  }

  /** An unterminated token is an error when validating. */
  function Finished(token: Token, pos: nat, validate: bool): Step {
    if validate && !token.isTerminated then Fail(UnterminatedToken(token), pos) else Yield(token, pos)
  }

  function QuoteKind(c: char): TokenKind
    requires IsQuote(c)
  {
    match c
    case '"' => Expand
    case '\'' => Quoted(Single)
    case _ => Quoted(Backtick)
  }

  /** The token after the blanks at `pos`. Every step but the last moves strictly forward. */
  function NextStep(input: string, pos: nat, validate: bool, unix: bool): (s: Step)
    requires pos <= |input|
    ensures s.pos <= |input| && (s.End? || pos < s.pos) && (s.End? ==> s.pos == |input|)
  {
    var at := SkipBlanks(input, pos);
    if at == |input| then End(at)
    else if IsQuote(input[at]) then
      var span := QuotedFrom(input, at + 1, input[at]);
      Finished(Token(QuoteKind(input[at]), at + 1, span.content, span.closed), span.pos, validate)
    else if input[at] == '%' then PercentStep(input, at, validate)
    else WordStep(input, at, unix)
  }

  /** An unquoted word. A backslash before a quote or a percent sign at its start is dropped. */
  function WordStep(input: string, at: nat, unix: bool): (s: Step)
    requires at < |input| && !IsBlank(input[at])
    ensures at < s.pos <= |input| && s.Yield?
  {
    var escape := unix && input[at] == '\\' && at + 1 < |input| && (IsQuote(input[at + 1]) || input[at + 1] == '%');
    var start := if escape then at + 1 else at;
    var (content, pos) := UnquotedFrom(input, start, start + 1, "", unix);
    Yield(Token(Unquoted, at, content, false), pos)
  }
}
