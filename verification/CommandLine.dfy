/** The tokenizer as an object that advances, and the arguments a command line is parsed into. */
module CommandLine {
  import opened Wrappers
  import opened Tokens
  import opened TokenRoundTrip

  // --- The tokenizer ----------------------------------------------------------------------------------------

  class Tokenizer {
    const input: string
    const validate: bool
    /** Do backslashes escape? They do on Unix. */
    const unix: bool
    var pos: nat

    ghost predicate Valid()
      reads this
    {
      pos <= |input|
    }

    constructor (input: string, validate: bool, unix: bool)
      ensures Valid() && pos == 0
      ensures this.input == input && this.validate == validate && this.unix == unix
    {
      this.input := input;
      this.validate := validate;
      this.unix := unix;
      pos := 0;
    }

    method SkipBlanks()
      requires Valid()
      modifies this
      ensures Valid() && pos == Tokens.SkipBlanks(input, old(pos))
    {
      ghost var start := pos;
      while pos < |input| && IsBlank(input[pos])
        invariant start <= pos <= |input| && forall k :: start <= k < pos ==> IsBlank(input[k])
        decreases |input| - pos
      {
        pos := pos + 1;
      }
      FindIs(input, start, NotBlank(), pos);
    }

    /** All that is left, as one token that is not interpreted. */
    method Rest() returns (s: Step)
      requires Valid()
      modifies this
      ensures Valid() && s == RestStep(input, old(pos)) && pos == s.pos
    {
      SkipBlanks();
      if pos == |input| {
        return End(pos);
      }
      var contentStart := pos;
      pos := |input|;
      return Yield(Token(Expand, contentStart, input[contentStart..], false), pos);
    }

    /** Read a word, taking over finished parts at each escaped blank. */
    method ParseUnquoted() returns (content: string)
      requires Valid() && pos < |input| && !IsBlank(input[pos])
      modifies this
      ensures Valid() && (content, pos) == UnquotedFrom(input, old(pos), old(pos) + 1, "", unix)
    {
      var escaped := "";
      var start: nat := pos;
      ghost var first := pos;
      ghost var result := UnquotedFrom(input, first, first + 1, "", unix);
      while pos < |input|
        invariant first <= start <= pos <= |input|
        invariant pos == first ==> start == first && escaped == []
        invariant pos > first ==> (start == pos ==> !Escaped(input, pos, unix))
        invariant pos > first ==> UnquotedFrom(input, start, pos, escaped, unix) == result
        decreases |input| - pos
      {
        if IsBlank(input[pos]) {
          if unix && input[pos - 1] == '\\' {
            escaped := escaped + input[start..pos - 1] + [input[pos]];
            start := pos + 1;
          } else if escaped == [] {
            assert escaped + input[start..pos] == input[start..pos];
            return input[start..pos];
          } else {
            break;
          }
        }
        pos := pos + 1;
      }
      var end := if unix && input[pos - 1] == '\\' then pos - 1 else pos;
      if escaped == [] {
        assert pos == |input|;
        assert escaped + input[start..end] == input[start..end];
        return input[start..end];
      }
      return escaped + input[start..end];
    }

    /** Read quoted text up to its closing quote, or to the end of the input. */
    method ParseQuoted(quote: char) returns (content: string, closed: bool)
      requires Valid() && pos < |input| && input[pos] == quote
      modifies this
      ensures Valid() && Span(content, pos, closed) == QuotedFrom(input, old(pos) + 1, quote)
    {
      hide QuotedFrom, Find;
      pos := pos + 1;
      var escaped := "";
      ghost var result := QuotedFrom(input, pos, quote);
      var idx := Find(input, pos, Is(quote));
      QuotedUnfolds(input, pos, idx, quote);
      while idx < |input|
        invariant Valid() && pos <= idx <= |input| && idx == Find(input, pos, Is(quote))
        invariant Joined(escaped, QuotedAt(input, pos, idx, quote)) == result
        decreases |input| - idx
      {
        if idx + 1 < |input| && input[idx + 1] == quote {
          JoinedTwice(escaped, input[pos..idx + 1], QuotedFrom(input, idx + 2, quote));
          escaped := escaped + input[pos..idx + 1];
          pos := idx + 2;
        } else {
          content := escaped + input[pos..idx];
          pos := idx + 1;
          return content, true;
        }
        idx := Find(input, pos, Is(quote));
        QuotedUnfolds(input, pos, idx, quote);
      }
      content := escaped + input[pos..];
      pos := |input|;
      return content, false;
    }

    /** Read text up to the delimiter that closes the one at the cursor, counting nested ones. */
    method ParseQuotedBalanced(open: char, close: char) returns (content: string, closed: bool)
      requires Valid() && pos < |input| && input[pos] == open
      modifies this
      ensures Valid() && Span(content, pos, closed) == BalancedFrom(input, old(pos) + 1, open, close)
    {
      hide BalancedEnd, Find;
      pos := pos + 1;
      var start: nat := pos;
      var level: nat := 1;
      ghost var result := BalancedEnd(input, pos, open, close, 1);
      var idx := Find(input, pos, IsEither(open, close));
      BalancedUnfolds(input, pos, idx, open, close, level);
      while idx < |input|
        invariant Valid() && start <= pos <= idx <= |input| && idx == Find(input, pos, IsEither(open, close))
        invariant level > 0 && BalancedEnd(input, pos, open, close, level) == result
        invariant BalancedEnd(input, pos, open, close, level) == BalancedAt(input, idx, open, close, level)
        decreases |input| - idx
      {
        pos := idx + 1;
        if input[idx] == open {
          level := level + 1;
        } else {
          level := level - 1;
          if level == 0 {
            LevelZero(input, pos, open, close);
            break;
          }
        }
        idx := Find(input, pos, IsEither(open, close));
        BalancedUnfolds(input, pos, idx, open, close, level);
      }
      closed := level == 0;
      var end := if closed then pos - 1 else |input|;
      if !closed {
        pos := |input|;
      }
      content := input[start..end];
    }

    /** Read the expansion at the cursor. */
    method ParsePercentToken() returns (s: Step)
      requires Valid() && pos < |input| && input[pos] == '%'
      modifies this
      ensures Valid() && s == PercentStep(input, old(pos), validate) && pos == s.pos
    {
      hide QuotedFrom, BalancedFrom, Find, FromKind, Delimiters;
      pos := pos + 1;
      var kindStart := pos;
      pos := Find(input, pos, NotLowercase());
      var name := input[kindStart..pos];
      var delimiters := if pos < |input| then Delimiters(input[pos]) else None;
      if delimiters == None {
        return if validate then Fail(MissingExpansionDelimiter(name), pos)
               else Yield(Token(KindOnly, kindStart, name, false), pos);
      }
      var (open, close) := delimiters.value;
      var contentStart := pos + 1;
      var known := FromKind(name);
      if known == None && validate {
        return Fail(UnknownExpansion(name), pos);
      }
      var kind := if known.Some? then Expansion(known.value) else Expand;
      DelimiterOpens(input[pos]);
      var content, closed;
      if open == close {
        content, closed := ParseQuoted(open);
      } else {
        content, closed := ParseQuotedBalanced(open, close);
      }
      s := Finished(Token(kind, contentStart, content, closed), pos, validate);
    }

    /** The next token, or the end, or the error of a token that does not validate. */
    method Next() returns (s: Step)
      requires Valid()
      modifies this
      ensures Valid() && s == NextStep(input, old(pos), validate, unix) && pos == s.pos
      ensures s.End? || old(pos) < pos
    {
      SkipBlanks();
      if pos == |input| {
        return End(pos);
      }
      var c := input[pos];
      if IsQuote(c) {
        var contentStart := pos + 1;
        var content, closed := ParseQuoted(c);
        return Finished(Token(QuoteKind(c), contentStart, content, closed), pos, validate);
      }
      if c == '%' {
        s := ParsePercentToken();
        return;
      }
      var contentStart := pos;
      if unix && c == '\\' && pos + 1 < |input| && (IsQuote(input[pos + 1]) || input[pos + 1] == '%') {
        pos := pos + 1;
      }
      var content := ParseUnquoted();
      return Yield(Token(Unquoted, contentStart, content, false), pos);
    }
  }

  function Joined(before: string, s: Span): Span {
    Span(before + s.content, s.pos, s.closed)
  }

  lemma JoinedTwice(a: string, b: string, s: Span)
    ensures Joined(a, Joined(b, s)) == Joined(a + b, s)
  {
    assert a + (b + s.content) == a + b + s.content;
  }

  lemma QuotedUnfolds(input: string, pos: nat, idx: nat, quote: char)
    requires pos <= |input| && idx == Find(input, pos, Is(quote))
    ensures QuotedFrom(input, pos, quote) == QuotedAt(input, pos, idx, quote)
    ensures Joined("", QuotedAt(input, pos, idx, quote)) == QuotedAt(input, pos, idx, quote)
  {
    hide Find, QuotedAt;
    assert "" + QuotedAt(input, pos, idx, quote).content == QuotedAt(input, pos, idx, quote).content;
  }

  /** `BalancedEnd` once the next delimiter is known to be at `idx`. */
  function BalancedAt(input: string, idx: nat, open: char, close: char, level: nat): (nat, bool)
    requires idx <= |input| && level > 0
  {
    if idx == |input| then (|input|, false)
    else BalancedEnd(input, idx + 1, open, close, if input[idx] == open then level + 1 else level - 1)
  }

  lemma BalancedUnfolds(input: string, pos: nat, idx: nat, open: char, close: char, level: nat)
    requires pos <= |input| && level > 0 && idx == Find(input, pos, IsEither(open, close))
    ensures BalancedEnd(input, pos, open, close, level) == BalancedAt(input, idx, open, close, level)
  {
    hide Find;
  }

  lemma DelimiterOpens(c: char)
    requires Delimiters(c).Some?
    ensures Delimiters(c).value.0 == c
  {
  }

  function RestStep(input: string, pos: nat): (s: Step)
    requires pos <= |input|
    ensures s.pos <= |input| && (s.End? || pos < s.pos)
  {
    var at := Tokens.SkipBlanks(input, pos);
    if at == |input| then End(at) else Yield(Token(Expand, at, input[at..], false), |input|)
  }

  // --- Arguments ----------------------------------------------------------------------------------------------

  datatype Flag = Flag(name: string, alias: Option<char>, takesArgument: bool)

  datatype Signature = Signature(min: nat, max: Option<nat>, rawAfter: Option<nat>, flags: seq<Flag>)

  datatype CompletionState = Positional | FlagState(flag: Option<Flag>) | FlagArgument(argumentOf: Flag)

  datatype ArgState = ArgState(onlyPositionals: bool, state: CompletionState, positionals: seq<string>,
                               flags: map<string, string>)

  const NO_ARGS := ArgState(false, Positional, [], map[])

  /** The flag that is waiting for its argument. */
  function Awaiting(s: ArgState): Option<Flag> {
    if s.state.FlagState? && s.state.flag.Some? && s.state.flag.value.takesArgument then s.state.flag else None
  }

  function FindFlag(flags: seq<Flag>, test: Flag -> bool): Option<Flag> {
    if flags == [] then None else if test(flags[0]) then Some(flags[0]) else FindFlag(flags[1..], test)
  }

  /** The flag an argument that starts with a dash names. */
  function NamedFlag(flags: seq<Flag>, arg: string): Option<Flag>
    requires arg != []
  {
    if "--" <= arg then FindFlag(flags, (f: Flag) => f.name == arg[2..])
    else FindFlag(flags, (f: Flag) => f.alias.Some? && [f.alias.value] == arg[1..])
  }

  /** Take one argument. */
  function Pushed(s: ArgState, signature: Signature, validate: bool, arg: string): Result<ArgState, Error> {
    if !s.onlyPositionals && arg == "--" then
      Ok(s.(onlyPositionals := true, state := FlagState(None)))
    else if Awaiting(s).Some? then
      var flag := Awaiting(s).value;
      Ok(s.(flags := s.flags[flag.name := arg], state := FlagArgument(flag)))
    else if !s.onlyPositionals && arg != [] && arg[0] == '-' then
      match NamedFlag(signature.flags, arg)
      case None =>
        if validate then Err(UnknownFlag(arg))
        else Ok(s.(positionals := s.positionals + [arg], state := FlagState(None)))
      case Some(flag) =>
        if validate && flag.name in s.flags then Err(DuplicatedFlag(flag.name))
        else Ok(s.(flags := s.flags[flag.name := ""], state := FlagState(Some(flag))))
    else
      Ok(s.(positionals := s.positionals + [arg], state := Positional))
  }

  predicate CountAllowed(signature: Signature, count: nat) {
    signature.min <= count && (signature.max.Some? ==> count <= signature.max.value)
  }

  function FinishError(s: ArgState, signature: Signature, validate: bool): Option<Error> {
    if !validate then None
    else if Awaiting(s).Some? then Some(FlagMissingArgument(Awaiting(s).value.name))
    else if !CountAllowed(signature, |s.positionals|) then
      Some(WrongPositionalCount(signature.min, signature.max, |s.positionals|))
    else None
  }

  predicate IsRaw(s: ArgState, signature: Signature) {
    signature.rawAfter.Some? && |s.positionals| >= signature.rawAfter.value
  }

  /** The state a reader is in and the step it takes. */
  function ReadStep(s: ArgState, signature: Signature, input: string, pos: nat, validate: bool, unix: bool)
    : (r: (ArgState, Step))
    requires pos <= |input|
    ensures r.1.pos <= |input| && (r.1.End? || pos < r.1.pos)
  {
    if IsRaw(s, signature) then (s.(onlyPositionals := true), RestStep(input, pos))
    else (s, NextStep(input, pos, validate, unix))
  }

  /** The rest of a command line, each token expanded and taken in turn. */
  function ParseFrom(s: ArgState, signature: Signature, input: string, pos: nat, validate: bool, unix: bool,
                     expand: Token -> Result<string, Error>): Result<ArgState, Error>
    requires pos <= |input|
    decreases |input| - pos
  {
    var (read, step) := ReadStep(s, signature, input, pos, validate, unix);
    match step
    case End(_) =>
      (match FinishError(read, signature, validate)
       case None => Ok(read)
       case Some(error) => Err(error))
    case Fail(error, _) => Err(error)
    case Yield(token, next) =>
      match expand(token)
      case Err(error) => Err(error)
      case Ok(arg) =>
        match Pushed(read, signature, validate, arg)
        case Err(error) => Err(error)
        case Ok(taken) => ParseFrom(taken, signature, input, next, validate, unix, expand)
  }

  class Args {
    const signature: Signature
    const validate: bool
    var onlyPositionals: bool
    var state: CompletionState
    var positionals: seq<string>
    var flags: map<string, string>

    constructor (signature: Signature, validate: bool)
      ensures this.signature == signature && this.validate == validate && State() == NO_ARGS
    {
      this.signature := signature;
      this.validate := validate;
      onlyPositionals := false;
      state := Positional;
      positionals := [];
      flags := map[];
    }

    ghost function State(): ArgState
      reads this
    {
      ArgState(onlyPositionals, state, positionals, flags)
    }

    function FlagAwaitingArgument(): (r: Option<Flag>)
      reads this
      ensures r == Awaiting(State())
    {
      if state.FlagState? && state.flag.Some? && state.flag.value.takesArgument then state.flag else None
    }

    /** Take one argument, or report why it cannot be taken. */
    method Push(arg: string) returns (error: Option<Error>)
      modifies this
      ensures error == None ==> Pushed(old(State()), signature, validate, arg) == Ok(State())
      ensures error.Some? ==>
                Pushed(old(State()), signature, validate, arg) == Err(error.value) && State() == old(State())
    {
      error := None;
      var awaiting := FlagAwaitingArgument();
      if !onlyPositionals && arg == "--" {
        onlyPositionals := true;
        state := FlagState(None);
      } else if awaiting.Some? {
        flags := flags[awaiting.value.name := arg];
        state := FlagArgument(awaiting.value);
      } else if !onlyPositionals && arg != [] && arg[0] == '-' {
        var named := NamedFlag(signature.flags, arg);
        if named == None {
          if validate {
            return Some(UnknownFlag(arg));
          }
          positionals := positionals + [arg];
          state := FlagState(None);
          return None;
        }
        var flag := named.value;
        if validate && flag.name in flags {
          return Some(DuplicatedFlag(flag.name));
        }
        flags := flags[flag.name := ""];
        state := FlagState(Some(flag));
      } else {
        positionals := positionals + [arg];
        state := Positional;
      }
    }

    /** Read the next token; once enough positionals are there, the rest of the line is one token. */
    method ReadToken(parser: Tokenizer) returns (s: Step)
      requires parser.Valid()
      modifies this, parser
      ensures parser.Valid() && parser.pos == s.pos
      ensures (State(), s) == ReadStep(old(State()), signature, parser.input, old(parser.pos),
                                      parser.validate, parser.unix)
    {
      if signature.rawAfter.Some? && |positionals| >= signature.rawAfter.value {
        onlyPositionals := true;
        s := parser.Rest();
      } else {
        s := parser.Next();
      }
    }

    method Finish() returns (error: Option<Error>)
      ensures error == FinishError(State(), signature, validate)
    {
      if !validate {
        return None;
      }
      var awaiting := FlagAwaitingArgument();
      if awaiting.Some? {
        return Some(FlagMissingArgument(awaiting.value.name));
      }
      if !CountAllowed(signature, |positionals|) {
        return Some(WrongPositionalCount(signature.min, signature.max, |positionals|));
      }
      return None;
    }

    /** Parse a command line. */
    static method Parse(line: string, signature: Signature, validate: bool, unix: bool,
                        expand: Token -> Result<string, Error>) returns (args: Args, error: Option<Error>)
      ensures fresh(args)
      ensures ParseFrom(NO_ARGS, signature, line, 0, validate, unix, expand)
           == if error == None then Ok(args.State()) else Err(error.value)
    {
      var tokenizer := new Tokenizer(line, validate, unix);
      args := new Args(signature, validate);
      ghost var result := ParseFrom(NO_ARGS, signature, line, 0, validate, unix, expand);
      while true
        invariant tokenizer.Valid() && fresh(tokenizer) && fresh(args)
        invariant tokenizer.input == line && tokenizer.validate == validate && tokenizer.unix == unix
        invariant args.signature == signature && args.validate == validate
        invariant ParseFrom(args.State(), signature, line, tokenizer.pos, validate, unix, expand) == result
        decreases |line| - tokenizer.pos
      {
        var step := args.ReadToken(tokenizer);
        match step {
          case End(_) =>
            error := args.Finish();
            return;
          case Fail(e, _) =>
            return args, Some(e);
          case Yield(token, _) =>
            match expand(token) {
              case Err(e) =>
                return args, Some(e);
              case Ok(arg) =>
                error := args.Push(arg);
                if error.Some? {
                  return;
                }
            }
        }
      }
    }
  }

  // --- After the end of flags -------------------------------------------------------------------------------------

  function Texts(items: seq<Item>): (texts: seq<string>)
    ensures |texts| == |items|
  {
    seq(|items|, i requires 0 <= i < |items| => items[i].text)
  }

  /** A command line that ends its flags and then quotes a list of arguments. */
  function Dashed(gap: string, items: seq<Item>): string {
    "--" + (gap + Written(items))
  }

  lemma {:induction false} PositionalsOnly(s: ArgState, signature: Signature, input: string, pos: nat, lead: string,
                                           items: seq<Item>, validate: bool, unix: bool,
                                           expand: Token -> Result<string, Error>)
    requires s.onlyPositionals && Awaiting(s) == None && signature.rawAfter == None
    requires At(input, pos, lead, Written(items)) && Blanks(lead) && Separated(items)
    requires forall t :: expand(t) == Ok(t.content)
    requires validate ==> CountAllowed(signature, |s.positionals| + |items|)
    ensures var r := ParseFrom(s, signature, input, pos, validate, unix, expand);
            r.Ok? && r.value.positionals == s.positionals + Texts(items) && r.value.flags == s.flags
    decreases |items|
  {
    hide At, Blanks, Separated, NextStep, NamedFlag;
    if items == [] {
      EndStep(input, pos, lead, validate, unix);
      assert s.positionals + Texts(items) == s.positionals;
    } else {
      var item := items[0];
      var rest := item.gap + Written(items[1..]);
      assert Written(items) == [item.quote] + Doubled(item.text, item.quote) + [item.quote] + rest;
      GapEndsQuote(items);
      ItemStep(input, pos, lead, item, rest, validate, unix);
      var end := NextStep(input, pos, validate, unix).pos;
      AtEmpty(input, end, item.gap, Written(items[1..]));
      var taken := s.(positionals := s.positionals + [item.text], state := Positional);
      assert Pushed(s, signature, validate, item.text) == Ok(taken);
      PositionalsOnly(taken, signature, input, end, item.gap, items[1..], validate, unix, expand);
      assert Texts(items) == [item.text] + Texts(items[1..]);
      assert s.positionals + Texts(items) == taken.positionals + Texts(items[1..]);
    }
  }

  /**
   After `--` nothing is a flag: whatever the strings and the flags of the command, an allowed number of
   quoted strings is parsed to exactly those positionals, in order, and to no flags.
   */
  lemma DashedListIsPositional(signature: Signature, gap: string, items: seq<Item>, validate: bool, unix: bool,
                               expand: Token -> Result<string, Error>)
    requires signature.rawAfter == None && (validate ==> CountAllowed(signature, |items|))
    requires Blanks(gap) && Separated(items) && (items == [] || gap != [])
    requires forall t :: expand(t) == Ok(t.content)
    ensures var r := ParseFrom(NO_ARGS, signature, Dashed(gap, items), 0, validate, unix, expand);
            r.Ok? && r.value.positionals == Texts(items) && r.value.flags == map[]
  {
    hide NextStep, NamedFlag, Separated, Texts;
    var input := Dashed(gap, items);
    var rest := gap + Written(items);
    assert BlanksEscaped("-") == "-" && BlanksEscaped("--") == "--";
    DashesRead(input, rest, gap, items, validate, unix);
    assert input[2..] == rest;
    var s := NO_ARGS.(onlyPositionals := true, state := FlagState(None));
    assert Pushed(NO_ARGS, signature, validate, "--") == Ok(s);
    PositionalsOnly(s, signature, input, 2, gap, items, validate, unix, expand);
    assert [] + Texts(items) == Texts(items);
  }

  lemma DashesRead(input: string, rest: string, gap: string, items: seq<Item>, validate: bool, unix: bool)
    requires input == "--" + rest && rest == gap + Written(items) && Blanks(gap) && (items == [] || gap != [])
    ensures NextStep(input, 0, validate, unix) == Yield(Token(Unquoted, 0, "--", false), 2)
  {
    assert BlanksEscaped("-") == "-" && BlanksEscaped("--") == "--";
    assert input[0..] == input;
    PlainWordStep(input, 0, "--", rest, validate, unix);
  }
}
