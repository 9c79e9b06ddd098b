/** What lists of arguments a signature accepts, and what they mean: the parser against a grammar. */
module ArgumentLists {
  import opened Wrappers
  import opened Tokens
  import opened TokenRoundTrip
  import opened CommandLine
  import Counting

  // --- The grammar ----------------------------------------------------------------------------------

  /** A positional, a flag on its own, or a flag and the argument after it. A flag is named in full or by its alias. */
  datatype Piece = Word(text: string) | Switch(flag: Flag, written: string) | Setting(flag: Flag, written: string, value: string)

  /** How a list goes on after its pieces: not at all, after `--`, or with what is left once enough positionals are there. */
  datatype Tail = Open | Dashed(rest: seq<string>) | Raw(rest: seq<string>)

  datatype Line = Line(pieces: seq<Piece>, tail: Tail) {
    function Next(): Line
      requires pieces != []
    {
      Line(pieces[1..], tail)
    }

    /** The arguments as they are written. */
    function Written(): seq<string>
      decreases |pieces|
    {
      if pieces == [] then
        match tail
        case Open => []
        case Dashed(rest) => ["--"] + rest
        case Raw(rest) => rest
      else
        (match pieces[0]
         case Word(text) => [text]
         case Switch(_, written) => [written]
         case Setting(_, written, value) => [written, value])
        + Next().Written()
    }

    /** The positionals they give. */
    function Positionals(): seq<string>
      decreases |pieces|
    {
      if pieces == [] then
        (if tail.Open? then [] else tail.rest)
      else (if pieces[0].Word? then [pieces[0].text] else []) + Next().Positionals()
    }

    /** The flags they name, in order. */
    function FlagNames(): seq<string>
      decreases |pieces|
    {
      if pieces == [] then [] else
        (if pieces[0].Word? then [] else [pieces[0].flag.name]) + Next().FlagNames()
    }

    /** The arguments they give to flags, empty for a flag without one. */
    function Values(): map<string, string>
      decreases |pieces|
    {
      if pieces == [] then map[] else
        (match pieces[0]
         case Word(_) => map[]
         case Switch(flag, _) => map[flag.name := ""]
         case Setting(flag, _, value) => map[flag.name := value])
        + Next().Values()
    }
  }

  predicate StartsDashed(arg: string) {
    arg != [] && arg[0] == '-' && arg != "--"
  }

  predicate Names(signature: Signature, written: string, flag: Flag) {
    StartsDashed(written) && NamedFlag(signature.flags, written) == Some(flag)
  }

  predicate RawAt(signature: Signature, count: nat) {
    signature.rawAfter.Some? && count >= signature.rawAfter.value
  }

  /**
   The lists a signature allows, with `count` positionals and the flags `seen` before them. No flag comes twice.
   A flag that takes an argument is followed by one, which is any string but `--`, or by the `--` itself.
   */
  predicate Allowed(signature: Signature, line: Line, count: nat, seen: set<string>)
    decreases |line.pieces|
  {
    if line.pieces == [] then
      match line.tail
      case Open => true
      case Dashed(_) => !RawAt(signature, count)
      case Raw(_) => RawAt(signature, count)
    else
      && !RawAt(signature, count)
      && match line.pieces[0]
         case Word(text) =>
           text != "--" && !StartsDashed(text) && Allowed(signature, line.Next(), count + 1, seen)
         case Switch(flag, written) =>
           && Names(signature, written, flag) && flag.name !in seen
           && (flag.takesArgument ==> |line.pieces| == 1 && line.tail.Dashed?)
           && Allowed(signature, line.Next(), count, seen + {flag.name})
         case Setting(flag, written, value) =>
           && Names(signature, written, flag) && flag.name !in seen
           && flag.takesArgument && value != "--"
           && Allowed(signature, line.Next(), count, seen + {flag.name})
  }

  // --- The parser on a list -------------------------------------------------------------------------

  /** Before each argument is read, enough positionals end the flags. */
  function Ready(s: ArgState, signature: Signature): ArgState {
    if IsRaw(s, signature) then s.(onlyPositionals := true) else s
  }

  /** All the arguments of a list, taken in turn. */
  function PushAll(s: ArgState, signature: Signature, validate: bool, args: seq<string>): Result<ArgState, Error>
    decreases |args|
  {
    var ready := Ready(s, signature);
    if args == [] then Ok(ready) else
      match Pushed(ready, signature, validate, args[0])
      case Err(error) => Err(error)
      case Ok(taken) => PushAll(taken, signature, validate, args[1..])
  }

  lemma {:induction false} PushAllSplits(s: ArgState, signature: Signature, validate: bool, a: seq<string>, b: seq<string>)
    ensures PushAll(s, signature, validate, a + b) ==
            match PushAll(s, signature, validate, a)
            case Err(error) => Err(error)
            case Ok(r) => PushAll(r, signature, validate, b)
    decreases |a|
  {
    hide Pushed;
    if a == [] {
      assert a + b == b;
    } else {
      assert (a + b)[1..] == a[1..] + b;
      match Pushed(Ready(s, signature), signature, validate, a[0])
      case Err(_) =>
      case Ok(taken) => PushAllSplits(taken, signature, validate, a[1..], b);
    }
  }

  /** Only positionals: every string is taken as it is. */
  lemma {:induction false} AllPositional(s: ArgState, signature: Signature, validate: bool, args: seq<string>)
    requires Ready(s, signature).onlyPositionals && Awaiting(s) == None
    ensures var r := PushAll(s, signature, validate, args);
            r.Ok? && r.value.positionals == s.positionals + args && r.value.flags == s.flags && Awaiting(r.value) == None
    decreases |args|
  {
    if args != [] {
      var taken := Ready(s, signature).(positionals := s.positionals + [args[0]], state := Positional);
      AllPositional(taken, signature, validate, args[1..]);
      assert s.positionals + [args[0]] + args[1..] == s.positionals + args;
    }
  }

  // --- Every allowed list is accepted with its meaning --------------------------------------------------

  /** A state between two pieces. */
  predicate Between(s: ArgState) {
    !s.onlyPositionals && Awaiting(s) == None
  }

  predicate Means(r: Result<ArgState, Error>, s: ArgState, line: Line) {
    && r.Ok? && Awaiting(r.value) == None
    && r.value.positionals == s.positionals + line.Positionals()
    && r.value.flags == s.flags + line.Values()
  }

  lemma {:induction false} AllowedAccepted(s: ArgState, signature: Signature, line: Line)
    requires Between(s) && Allowed(signature, line, |s.positionals|, s.flags.Keys)
    ensures Means(PushAll(s, signature, true, line.Written()), s, line)
    decreases |line.pieces|
  {
    if line.pieces == [] {
      TailAccepted(s, signature, line);
    } else {
      hide PushAll;
      var taken := AfterPiece(s, line.pieces[0]);
      PieceTaken(s, signature, line);
      if line.pieces[0].Switch? && line.pieces[0].flag.takesArgument {
        TailAccepted(taken, signature, line.Next());
      } else {
        AllowedAccepted(taken, signature, line.Next());
      }
      MeansOnward(PushAll(s, signature, true, line.Written()), s, taken, line);
    }
  }

  /** The state after a piece. */
  function AfterPiece(s: ArgState, piece: Piece): ArgState {
    match piece
    case Word(text) => s.(positionals := s.positionals + [text], state := Positional)
    case Switch(flag, _) => s.(flags := s.flags[flag.name := ""], state := FlagState(Some(flag)))
    case Setting(flag, _, value) => s.(flags := s.flags[flag.name := value], state := FlagArgument(flag))
  }

  lemma PieceTaken(s: ArgState, signature: Signature, line: Line)
    requires line.pieces != [] && Between(s) && Allowed(signature, line, |s.positionals|, s.flags.Keys)
    ensures var taken := AfterPiece(s, line.pieces[0]);
            && PushAll(s, signature, true, line.Written()) == PushAll(taken, signature, true, line.Next().Written())
            && Allowed(signature, line.Next(), |taken.positionals|, taken.flags.Keys)
  {
    hide NamedFlag;
    var more := line.Next().Written();
    match line.pieces[0]
    case Word(text) =>
      assert line.Written()[1..] == more;
    case Switch(flag, written) =>
      assert s.flags[flag.name := ""].Keys == s.flags.Keys + {flag.name};
      assert line.Written()[1..] == more;
    case Setting(flag, written, value) =>
      assert s.flags[flag.name := value].Keys == s.flags.Keys + {flag.name};
      assert line.Written()[1..] == [value] + more;
      var waiting := s.(flags := s.flags[flag.name := ""], state := FlagState(Some(flag)));
      assert Pushed(s, signature, true, written) == Ok(waiting);
      assert waiting.flags[flag.name := value] == s.flags[flag.name := value];
      assert ([value] + more)[1..] == more;
  }

  lemma TailAccepted(s: ArgState, signature: Signature, line: Line)
    requires line.pieces == [] && !s.onlyPositionals && Allowed(signature, line, |s.positionals|, s.flags.Keys)
    requires Awaiting(s) == None || line.tail.Dashed?
    ensures Means(PushAll(s, signature, true, line.Written()), s, line)
  {
    assert s.flags + line.Values() == s.flags;
    match line.tail
    case Open =>
    case Dashed(rest) =>
      assert line.Written()[0] == "--" && line.Written()[1..] == rest;
      AllPositional(s.(onlyPositionals := true, state := FlagState(None)), signature, true, rest);
    case Raw(rest) =>
      AllPositional(s, signature, true, rest);
  }

  lemma MeansOnward(r: Result<ArgState, Error>, s: ArgState, taken: ArgState, line: Line)
    requires line.pieces != [] && taken == AfterPiece(s, line.pieces[0]) && Means(r, taken, line.Next())
    ensures Means(r, s, line)
  {
    var first, rest := line.pieces[0], line.Next();
    var words := if first.Word? then [first.text] else [];
    var own := match first
               case Word(_) => map[]
               case Switch(flag, _) => map[flag.name := ""]
               case Setting(flag, _, value) => map[flag.name := value];
    assert taken.positionals == s.positionals + words && line.Positionals() == words + rest.Positionals();
    assert taken.flags == s.flags + own && line.Values() == own + rest.Values();
    hide *;
    Regrouped(s, words, own, rest.Positionals(), rest.Values());
  }

  lemma Regrouped(s: ArgState, words: seq<string>, own: map<string, string>, positionals: seq<string>,
                  values: map<string, string>)
    ensures s.positionals + words + positionals == s.positionals + (words + positionals)
    ensures s.flags + own + values == s.flags + (own + values)
  {
  }

  lemma FromNothing(line: Line)
    ensures NO_ARGS.flags.Keys == {} && Between(NO_ARGS)
    ensures NO_ARGS.positionals + line.Positionals() == line.Positionals()
    ensures NO_ARGS.flags + line.Values() == line.Values()
  {
  }

  // --- Every accepted list is allowed ---------------------------------------------------------------------

  /** An accepted list of arguments was written by the grammar: here is how. */
  lemma {:induction false} AcceptedAllowed(s: ArgState, signature: Signature, args: seq<string>) returns (line: Line)
    requires Between(s) && PushAll(s, signature, true, args).Ok?
    requires Awaiting(PushAll(s, signature, true, args).value) == None
    ensures line.Written() == args && Allowed(signature, line, |s.positionals|, s.flags.Keys)
    decreases |args|
  {
    if IsRaw(s, signature) {
      line := Line([], Raw(args));
    } else if args == [] {
      line := Line([], Open);
    } else if args[0] == "--" {
      line := Line([], Dashed(args[1..]));
      assert ["--"] + args[1..] == args;
    } else if !StartsDashed(args[0]) {
      line := AcceptedAllowed(AfterPiece(s, Word(args[0])), signature, args[1..]);
      line := Line([Word(args[0])] + line.pieces, line.tail);
      OnePiece(line, args, 1);
    } else {
      line := FlagAllowed(s, signature, args);
    }
  }

  lemma OnePiece(line: Line, args: seq<string>, size: nat)
    requires line.pieces != [] && size <= |args| && args[size..] == line.Next().Written()
    requires match line.pieces[0]
             case Word(text) => args[..size] == [text]
             case Switch(_, written) => args[..size] == [written]
             case Setting(_, written, value) => args[..size] == [written, value]
    ensures line.Written() == args
  {
    assert args == args[..size] + args[size..];
  }

  lemma {:induction false} FlagAllowed(s: ArgState, signature: Signature, args: seq<string>) returns (line: Line)
    requires Between(s) && PushAll(s, signature, true, args).Ok?
    requires Awaiting(PushAll(s, signature, true, args).value) == None
    requires args != [] && StartsDashed(args[0]) && !IsRaw(s, signature)
    ensures line.Written() == args && Allowed(signature, line, |s.positionals|, s.flags.Keys)
    decreases |args|, 0
  {
    hide NamedFlag;
    var written := args[0];
    assert NamedFlag(signature.flags, written).Some?;
    var flag := NamedFlag(signature.flags, written).value;
    assert flag.name !in s.flags;
    var taken := AfterPiece(s, Switch(flag, written));
    assert Pushed(s, signature, true, written) == Ok(taken);
    assert s.flags[flag.name := ""].Keys == s.flags.Keys + {flag.name};
    if !flag.takesArgument {
      line := AcceptedAllowed(taken, signature, args[1..]);
      line := Line([Switch(flag, written)] + line.pieces, line.tail);
      OnePiece(line, args, 1);
    } else {
      assert args[1..] != [];
      var value, more := args[1], args[2..];
      assert args[1..][0] == value && args[1..][1..] == more;
      if value == "--" {
        line := Line([Switch(flag, written)], Dashed(more));
        assert args[1..] == ["--"] + more;
        OnePiece(line, args, 1);
      } else {
        var after := AfterPiece(s, Setting(flag, written, value));
        assert taken.flags[flag.name := value] == s.flags[flag.name := value];
        assert s.flags[flag.name := value].Keys == s.flags.Keys + {flag.name};
        line := AcceptedAllowed(after, signature, more);
        line := Line([Setting(flag, written, value)] + line.pieces, line.tail);
        OnePiece(line, args, 2);
      }
    }
  }

  /**
   Exactly what a signature accepts: an argument list is taken without an error, its count of positionals and the
   argument of its last flag included, if and only if the grammar writes it with an allowed number of positionals.
   */
  lemma AcceptedExactly(signature: Signature, args: seq<string>)
    ensures Accepted(PushAll(NO_ARGS, signature, true, args), signature)
            <==> exists line :: IsLineOf(signature, args, line)
  {
    hide PushAll, Allowed;
    var r := PushAll(NO_ARGS, signature, true, args);
    if Accepted(r, signature) {
      FromNothing(Line([], Open));
      var line := AcceptedAllowed(NO_ARGS, signature, args);
      FromNothing(line);
      AllowedAccepted(NO_ARGS, signature, line);
      assert IsLineOf(signature, args, line);
    }
    if line :| IsLineOf(signature, args, line) {
      FromNothing(line);
      AllowedAccepted(NO_ARGS, signature, line);
    }
  }

  predicate Accepted(r: Result<ArgState, Error>, signature: Signature) {
    r.Ok? && FinishError(r.value, signature, true) == None
  }

  predicate IsLineOf(signature: Signature, args: seq<string>, line: Line) {
    && line.Written() == args && Allowed(signature, line, 0, {})
    && CountAllowed(signature, |line.Positionals()|)
  }

  /** In an allowed list no flag comes twice, every flag is one of the signature's, and these are the flags it sets. */
  lemma {:induction false} FlagsOfSignature(signature: Signature, line: Line, count: nat, seen: set<string>)
    requires Allowed(signature, line, count, seen)
    ensures Counting.Distinct(line.FlagNames()) && forall n <- line.FlagNames() :: n !in seen
    ensures forall n <- line.FlagNames() :: exists flag <- signature.flags :: flag.name == n
    ensures forall n :: n in line.Values() <==> n in line.FlagNames()
    decreases |line.pieces|
  {
    if line.pieces != [] {
      var first := line.pieces[0];
      if first.Word? {
        FlagsOfSignature(signature, line.Next(), count + 1, seen);
      } else {
        FlagsOfSignature(signature, line.Next(), count, seen + {first.flag.name});
        NamedIsOfSignature(signature.flags, first.written);
      }
    }
  }

  /** A flag is written as two dashes and its name, or as a dash and its alias. */
  predicate IsNameOf(flag: Flag, arg: string) {
    arg == "--" + flag.name || (flag.alias.Some? && arg == ['-', flag.alias.value])
  }

  /** The flag looked up is the first of the signature that the argument names. */
  lemma NamedIsOfSignature(flags: seq<Flag>, arg: string)
    requires StartsDashed(arg)
    ensures match NamedFlag(flags, arg)
            case Some(flag) => exists i :: 0 <= i < |flags| && flags[i] == flag && IsNameOf(flag, arg)
                                           && forall j :: 0 <= j < i ==> !IsNameOf(flags[j], arg)
            case None => forall flag <- flags :: !IsNameOf(flag, arg)
  {
    if "--" <= arg {
      assert arg == "--" + arg[2..];
      FoundFlag(flags, (f: Flag) => f.name == arg[2..]);
    } else {
      assert arg == ['-'] + arg[1..];
      FoundFlag(flags, (f: Flag) => f.alias.Some? && [f.alias.value] == arg[1..]);
    }
  }

  lemma {:induction false} FoundFlag(flags: seq<Flag>, test: Flag -> bool)
    ensures match FindFlag(flags, test)
            case Some(flag) => exists i :: 0 <= i < |flags| && flags[i] == flag && test(flag)
                                           && forall j :: 0 <= j < i ==> !test(flags[j])
            case None => forall flag <- flags :: !test(flag)
  {
    if flags != [] && !test(flags[0]) {
      FoundFlag(flags[1..], test);
      if FindFlag(flags[1..], test).Some? {
        var i :| 0 <= i < |flags[1..]| && flags[1..][i] == FindFlag(flags[1..], test).value
                 && forall j :: 0 <= j < i ==> !test(flags[1..][j]);
        assert forall j :: 0 < j < i + 1 ==> flags[j] == flags[1..][j - 1];
        assert flags[i + 1] == FindFlag(flags, test).value;
      }
    }
  }

  /** An unknown flag, or one that was given before, is an error wherever it stands among the flags. */
  lemma FlagRefused(signature: Signature, line: Line, arg: string, more: seq<string>)
    requires line.tail.Open? && Allowed(signature, line, 0, {}) && !RawAt(signature, |line.Positionals()|)
    requires StartsDashed(arg)
    requires match NamedFlag(signature.flags, arg)
             case Some(flag) => flag.name in line.Values()
             case None => true
    ensures PushAll(NO_ARGS, signature, true, line.Written() + ([arg] + more)) ==
            Err(match NamedFlag(signature.flags, arg)
                case Some(flag) => DuplicatedFlag(flag.name)
                case None => UnknownFlag(arg))
  {
    hide NamedFlag, Allowed;
    FromNothing(line);
    AllowedAccepted(NO_ARGS, signature, line);
    PushAllSplits(NO_ARGS, signature, true, line.Written(), [arg] + more);
    OpenStaysBetween(NO_ARGS, signature, line);
    var s := PushAll(NO_ARGS, signature, true, line.Written()).value;
    assert ([arg] + more)[0] == arg;
  }

  lemma {:induction false} OpenStaysBetween(s: ArgState, signature: Signature, line: Line)
    requires Between(s) && line.tail.Open? && Allowed(signature, line, |s.positionals|, s.flags.Keys)
    requires !RawAt(signature, |s.positionals + line.Positionals()|)
    ensures var r := PushAll(s, signature, true, line.Written()); r.Ok? && Between(r.value)
    decreases |line.pieces|
  {
    if line.pieces != [] {
      PieceTaken(s, signature, line);
      var taken := AfterPiece(s, line.pieces[0]);
      assert taken.positionals + line.Next().Positionals() == s.positionals + line.Positionals();
      hide PushAll;
      OpenStaysBetween(taken, signature, line.Next());
    }
  }

  // --- From the command line ---------------------------------------------------------------------------

  /** The tokens of a command line, expanded, are a list the parser takes. */
  lemma {:induction false} ParseTakes(s: ArgState, signature: Signature, input: string, pos: nat, validate: bool, unix: bool,
                                      expand: Token -> Result<string, Error>) returns (args: seq<string>)
    requires pos <= |input| && ParseFrom(s, signature, input, pos, validate, unix, expand).Ok?
    ensures PushAll(s, signature, validate, args) == ParseFrom(s, signature, input, pos, validate, unix, expand)
    ensures FinishError(PushAll(s, signature, validate, args).value, signature, validate) == None
    decreases |input| - pos
  {
    hide NextStep, Pushed, FinishError;
    var (read, step) := ReadStep(s, signature, input, pos, validate, unix);
    match step
    case End(_) =>
      args := [];
    case Fail(_, _) =>
      args := [];
    case Yield(token, next) =>
      var arg := expand(token).value;
      var taken := Pushed(read, signature, validate, arg).value;
      args := ParseTakes(taken, signature, input, next, validate, unix, expand);
      assert ([arg] + args)[1..] == args;
      args := [arg] + args;
  }

  /**
   What a validated command line parses to, whatever its text, signature and expansion: the positionals and flags of
   a list the grammar writes. So no flag is unknown or given twice, none waits for its argument, and the number
   of positionals is allowed.
   */
  lemma ValidatedParse(signature: Signature, input: string, unix: bool, expand: Token -> Result<string, Error>)
      returns (line: Line)
    requires ParseFrom(NO_ARGS, signature, input, 0, true, unix, expand).Ok?
    ensures Allowed(signature, line, 0, {}) && CountAllowed(signature, |line.Positionals()|)
    ensures var r := ParseFrom(NO_ARGS, signature, input, 0, true, unix, expand).value;
            && r.positionals == line.Positionals() && r.flags == line.Values() && Awaiting(r) == None
            && (forall n <- r.flags :: exists flag <- signature.flags :: flag.name == n)
  {
    hide ParseFrom, PushAll, Allowed;
    var args := ParseTakes(NO_ARGS, signature, input, 0, true, unix, expand);
    FromNothing(Line([], Open));
    line := AcceptedAllowed(NO_ARGS, signature, args);
    FromNothing(line);
    AllowedAccepted(NO_ARGS, signature, line);
    FlagsOfSignature(signature, line, 0, {});
  }

  /** The result of a list once the whole of it was read. */
  function Concluded(r: Result<ArgState, Error>, signature: Signature, validate: bool): Result<ArgState, Error> {
    match r
    case Err(_) => r
    case Ok(s) =>
      match FinishError(s, signature, validate)
      case None => r
      case Some(error) => Err(error)
  }

  /** A command line of quoted arguments is taken as the list of their texts, flags and all. */
  lemma {:induction false} QuotedListTaken(s: ArgState, signature: Signature, input: string, pos: nat, lead: string,
                                           items: seq<Item>, validate: bool, unix: bool,
                                           expand: Token -> Result<string, Error>)
    requires signature.rawAfter == None && forall t :: expand(t) == Ok(t.content)
    requires At(input, pos, lead, TokenRoundTrip.Written(items)) && Blanks(lead) && Separated(items)
    ensures ParseFrom(s, signature, input, pos, validate, unix, expand)
         == Concluded(PushAll(s, signature, validate, Texts(items)), signature, validate)
    decreases |items|
  {
    hide At, Blanks, Separated, NextStep, Pushed, FinishError;
    if items == [] {
      EndStep(input, pos, lead, validate, unix);
    } else {
      var item := items[0];
      var rest := item.gap + TokenRoundTrip.Written(items[1..]);
      assert TokenRoundTrip.Written(items) == [item.quote] + Doubled(item.text, item.quote) + [item.quote] + rest;
      GapEndsQuote(items);
      ItemStep(input, pos, lead, item, rest, validate, unix);
      var end := NextStep(input, pos, validate, unix).pos;
      AtEmpty(input, end, item.gap, TokenRoundTrip.Written(items[1..]));
      assert Texts(items)[0] == item.text && Texts(items)[1..] == Texts(items[1..]);
      match Pushed(s, signature, validate, item.text)
      case Err(_) =>
      case Ok(taken) =>
        QuotedListTaken(taken, signature, input, end, item.gap, items[1..], validate, unix, expand);
    }
  }

  /** There and back: any list the grammar writes, each argument quoted, parses to its own positionals and flags. */
  lemma WrittenListParses(signature: Signature, line: Line, items: seq<Item>, unix: bool,
                          expand: Token -> Result<string, Error>)
    requires signature.rawAfter == None && forall t :: expand(t) == Ok(t.content)
    requires Allowed(signature, line, 0, {}) && CountAllowed(signature, |line.Positionals()|)
    requires Separated(items) && Texts(items) == line.Written()
    ensures var r := ParseFrom(NO_ARGS, signature, TokenRoundTrip.Written(items), 0, true, unix, expand);
            r.Ok? && r.value.positionals == line.Positionals() && r.value.flags == line.Values()
  {
    hide ParseFrom, PushAll, Allowed, Separated, Texts;
    var input := TokenRoundTrip.Written(items);
    assert At(input, 0, [], input) by {
      assert input[0..] == [] + input;
    }
    QuotedListTaken(NO_ARGS, signature, input, 0, [], items, true, unix, expand);
    FromNothing(line);
    AllowedAccepted(NO_ARGS, signature, line);
  }

  // --- Raw text ------------------------------------------------------------------------------------------

  /** Every argument is followed by blanks. */
  predicate Gapped(items: seq<Item>) {
    forall i :: 0 <= i < |items| ==> IsQuote(items[i].quote) && Blanks(items[i].gap) && items[i].gap != []
  }

  /** What is left of a line after blanks is one token, whatever is in it: nothing is interpreted. */
  lemma RestIsOneToken(input: string, pos: nat, lead: string, text: string)
    requires At(input, pos, lead, text) && Blanks(lead) && text != [] && !IsBlank(text[0])
    ensures RestStep(input, pos) == Yield(Token(Expand, pos + |lead|, text, false), |input|)
  {
    SkipsLead(input, pos, lead, text);
    AtEnds(input, pos + |lead|, text);
    assert input[pos + |lead|..] == text;
  }

  /** The positionals reach the number after which text is raw with the last of the arguments, and no earlier. */
  predicate RawsAfter(s: ArgState, signature: Signature, validate: bool, args: seq<string>)
    decreases |args|
  {
    if args == [] then IsRaw(s, signature)
    else
      && !IsRaw(s, signature)
      && match Pushed(s, signature, validate, args[0])
         case Err(_) => false
         case Ok(taken) => RawsAfter(taken, signature, validate, args[1..])
  }

  /** Quoted arguments and then raw text are taken as the list of their texts and that text, unchanged. */
  lemma {:induction false} RawTaken(s: ArgState, signature: Signature, input: string, pos: nat, lead: string,
                                    items: seq<Item>, text: string, validate: bool, unix: bool,
                                    expand: Token -> Result<string, Error>)
    requires At(input, pos, lead, TokenRoundTrip.Written(items) + text) && Blanks(lead) && Gapped(items)
    requires text != [] && !IsBlank(text[0]) && forall t :: expand(t) == Ok(t.content)
    requires RawsAfter(s, signature, validate, Texts(items))
    ensures ParseFrom(s, signature, input, pos, validate, unix, expand)
         == Concluded(PushAll(s, signature, validate, Texts(items) + [text]), signature, validate)
    decreases |items|
  {
    hide At, Blanks, NextStep, Pushed, FinishError, RestStep;
    if items == [] {
      assert TokenRoundTrip.Written(items) + text == text;
      assert Texts(items) + [text] == [text] && [text][1..] == [];
      RestIsOneToken(input, pos, lead, text);
      match Pushed(Ready(s, signature), signature, validate, text)
      case Err(_) =>
      case Ok(taken) => NothingLeft(taken, signature, input, validate, unix, expand);
    } else {
      var item := items[0];
      var more := TokenRoundTrip.Written(items[1..]) + text;
      RawItem(input, pos, lead, items, text, validate, unix);
      var end := NextStep(input, pos, validate, unix).pos;
      assert Texts(items)[0] == item.text && Texts(items)[1..] == Texts(items[1..]);
      assert (Texts(items) + [text])[1..] == Texts(items[1..]) + [text];
      var taken := Pushed(s, signature, validate, item.text).value;
      RawTaken(taken, signature, input, end, item.gap, items[1..], text, validate, unix, expand);
    }
  }

  lemma NothingLeft(s: ArgState, signature: Signature, input: string, validate: bool, unix: bool,
                    expand: Token -> Result<string, Error>)
    ensures ParseFrom(s, signature, input, |input|, validate, unix, expand)
         == Concluded(PushAll(s, signature, validate, []), signature, validate)
  {
    hide FinishError;
    assert SkipBlanks(input, |input|) == |input|;
  }

  lemma RawItem(input: string, pos: nat, lead: string, items: seq<Item>, text: string, validate: bool, unix: bool)
    requires items != [] && At(input, pos, lead, TokenRoundTrip.Written(items) + text) && Blanks(lead) && Gapped(items)
    ensures var step := NextStep(input, pos, validate, unix);
            && step.Yield? && step.token.content == items[0].text
            && At(input, step.pos, items[0].gap, TokenRoundTrip.Written(items[1..]) + text)
  {
    var item := items[0];
    var more := TokenRoundTrip.Written(items[1..]) + text;
    var rest := item.gap + more;
    var quoted := [item.quote] + Doubled(item.text, item.quote) + [item.quote];
    assert TokenRoundTrip.Written(items) + text == quoted + rest;
    assert rest[0] == item.gap[0];
    hide At, NextStep;
    ItemStep(input, pos, lead, item, rest, validate, unix);
    AtEmpty(input, NextStep(input, pos, validate, unix).pos, item.gap, more);
  }

  /** In a list the grammar writes, text is raw exactly where it says. */
  lemma {:induction false} RawWhereWritten(s: ArgState, signature: Signature, line: Line, args: seq<string>)
    requires Between(s) && line.tail.Raw? && Allowed(signature, line, |s.positionals|, s.flags.Keys)
    requires line.Written() == args + line.tail.rest
    ensures RawsAfter(s, signature, true, args)
    decreases |line.pieces|
  {
    if line.pieces == [] {
      assert |args| == 0;
    } else {
      var taken := AfterPiece(s, line.pieces[0]);
      var size := if line.pieces[0].Setting? then 2 else 1;
      var more := line.Next().Written();
      SizeOf(line, args, size);
      PieceTaken(s, signature, line);
      RawWhereWritten(taken, signature, line.Next(), args[size..]);
      PiecePushed(s, signature, line, args);
    }
  }

  lemma SizeOf(line: Line, args: seq<string>, size: nat)
    requires line.pieces != [] && line.tail.Raw? && line.Written() == args + line.tail.rest
    requires size == if line.pieces[0].Setting? then 2 else 1
    ensures size <= |args| && line.Next().Written() == args[size..] + line.tail.rest
    ensures line.Written()[..size] == args[..size]
  {
    LongerThanTail(line.Next());
    SpelledThenNext(line, size);
    var written, next := line.Written(), line.Next().Written();
    hide Line.Written;
    Prefix(written, written[..size], next, args, line.tail.rest);
  }

  lemma SpelledThenNext(line: Line, size: nat)
    requires line.pieces != [] && size == if line.pieces[0].Setting? then 2 else 1
    ensures size <= |line.Written()| && line.Written() == line.Written()[..size] + line.Next().Written()
  {
  }

  lemma Prefix(written: seq<string>, first: seq<string>, next: seq<string>, args: seq<string>, rest: seq<string>)
    requires written == first + next == args + rest && |next| >= |rest|
    ensures |first| <= |args| && next == args[|first|..] + rest && first == args[..|first|]
  {
    assert next == (args + rest)[|first|..];
    assert first == (args + rest)[..|first|];
  }

  lemma {:induction false} LongerThanTail(line: Line)
    requires line.tail.Raw?
    ensures |line.Written()| >= |line.tail.rest|
    decreases |line.pieces|
  {
    if line.pieces != [] {
      LongerThanTail(line.Next());
    }
  }

  lemma PiecePushed(s: ArgState, signature: Signature, line: Line, args: seq<string>)
    requires line.pieces != [] && line.tail.Raw? && Between(s)
    requires Allowed(signature, line, |s.positionals|, s.flags.Keys)
    requires var size := if line.pieces[0].Setting? then 2 else 1;
             && size <= |args| && line.Written()[..size] == args[..size]
             && RawsAfter(AfterPiece(s, line.pieces[0]), signature, true, args[size..])
    ensures RawsAfter(s, signature, true, args)
  {
    hide NamedFlag;
    match line.pieces[0]
    case Word(text) =>
      assert args[0] == args[..1][0] == text;
    case Switch(flag, written) =>
      assert args[0] == args[..1][0] == written;
    case Setting(flag, written, value) =>
      assert args[0] == args[..2][0] == written && args[1] == args[..2][1] == value;
      var waiting := s.(flags := s.flags[flag.name := ""], state := FlagState(Some(flag)));
      assert Pushed(s, signature, true, written) == Ok(waiting);
      assert waiting.flags[flag.name := value] == s.flags[flag.name := value];
      assert args[1..][1..] == args[2..];
  }

  /**
   There and back with raw text: flags and positionals the grammar writes, each quoted, and then any text parse to
   their own meaning and that text as one more positional. Quotes, blanks and dashes in the text stay as they are.
   */
  lemma RawListParses(signature: Signature, line: Line, lead: string, items: seq<Item>, text: string, unix: bool,
                      expand: Token -> Result<string, Error>)
    requires forall t :: expand(t) == Ok(t.content)
    requires line.tail == Raw([text]) && line.Written() == Texts(items) + [text]
    requires Allowed(signature, line, 0, {}) && CountAllowed(signature, |line.Positionals()|)
    requires Blanks(lead) && Gapped(items) && text != [] && !IsBlank(text[0])
    ensures var input := lead + (TokenRoundTrip.Written(items) + text);
            var r := ParseFrom(NO_ARGS, signature, input, 0, true, unix, expand);
            r.Ok? && r.value.positionals == line.Positionals() && r.value.flags == line.Values()
  {
    hide ParseFrom, PushAll, Allowed, Texts, RawsAfter, Gapped;
    var input := lead + (TokenRoundTrip.Written(items) + text);
    assert At(input, 0, lead, TokenRoundTrip.Written(items) + text);
    FromNothing(line);
    RawWhereWritten(NO_ARGS, signature, line, Texts(items));
    RawTaken(NO_ARGS, signature, input, 0, lead, items, text, true, unix, expand);
    AllowedAccepted(NO_ARGS, signature, line);
  }

  lemma {:induction false} WordsThenRaw(s: ArgState, signature: Signature, validate: bool, words: seq<string>, text: string)
    requires Between(s) && signature.rawAfter.Some? && signature.rawAfter.value == |s.positionals| + |words|
    requires forall w <- words :: w != "--" && !StartsDashed(w)
    ensures RawsAfter(s, signature, validate, words)
    ensures var r := PushAll(s, signature, validate, words + [text]);
            && r.Ok? && Awaiting(r.value) == None
            && r.value.positionals == s.positionals + words + [text] && r.value.flags == s.flags
    decreases |words|
  {
    if words == [] {
      assert words + [text] == [text] && s.positionals + words == s.positionals;
      AllPositional(s, signature, validate, [text]);
    } else {
      var taken := AfterPiece(s, Word(words[0]));
      assert words[0] in words && forall w <- words[1..] :: w in words;
      assert Pushed(s, signature, validate, words[0]) == Ok(taken);
      assert (words + [text])[1..] == words[1..] + [text];
      WordsThenRaw(taken, signature, validate, words[1..], text);
      assert s.positionals + [words[0]] + words[1..] == s.positionals + words;
    }
  }

  /** A line of as many quoted words as come before raw text, and then the text, gives just these positionals. */
  lemma WordsAndTextParse(signature: Signature, lead: string, items: seq<Item>, text: string, validate: bool, unix: bool,
                          expand: Token -> Result<string, Error>)
    requires forall t :: expand(t) == Ok(t.content)
    requires signature.rawAfter == Some(|items|) && forall w <- Texts(items) :: w != "--" && !StartsDashed(w)
    requires Blanks(lead) && Gapped(items) && text != [] && !IsBlank(text[0])
    requires validate ==> CountAllowed(signature, |items| + 1)
    ensures var input := lead + (TokenRoundTrip.Written(items) + text);
            var r := ParseFrom(NO_ARGS, signature, input, 0, validate, unix, expand);
            r.Ok? && r.value.positionals == Texts(items) + [text] && r.value.flags == map[]
  {
    hide ParseFrom, PushAll, Texts, RawsAfter, Gapped;
    var input := lead + (TokenRoundTrip.Written(items) + text);
    assert At(input, 0, lead, TokenRoundTrip.Written(items) + text);
    WordsThenRaw(NO_ARGS, signature, validate, Texts(items), text);
    RawTaken(NO_ARGS, signature, input, 0, lead, items, text, validate, unix, expand);
    assert NO_ARGS.positionals + Texts(items) + [text] == Texts(items) + [text];
  }

  // --- Without validation ------------------------------------------------------------------------------

  /** A tokenizer that does not validate never fails. */
  lemma NeverFails(input: string, pos: nat, unix: bool)
    requires pos <= |input|
    ensures !NextStep(input, pos, false, unix).Fail?
  {
    hide Find, QuotedFrom, BalancedFrom, UnquotedFrom;
  }

  /** A command line that is not validated always parses, if its tokens expand. */
  lemma {:induction false} UnvalidatedParse(s: ArgState, signature: Signature, input: string, pos: nat, unix: bool,
                                            expand: Token -> Result<string, Error>)
    requires pos <= |input| && forall t :: expand(t).Ok?
    ensures ParseFrom(s, signature, input, pos, false, unix, expand).Ok?
    decreases |input| - pos
  {
    hide NextStep, NamedFlag;
    NeverFails(input, pos, unix);
    var (read, step) := ReadStep(s, signature, input, pos, false, unix);
    if step.Yield? {
      var taken := Pushed(read, signature, false, expand(step.token).value).value;
      UnvalidatedParse(taken, signature, input, step.pos, unix, expand);
    }
  }

  /** A flag that takes an argument is accepted without one in front of `--`. */
  lemma DashesForArgument(signature: Signature, flag: Flag, written: string, rest: seq<string>)
    requires Names(signature, written, flag) && flag.takesArgument && !RawAt(signature, 0)
    ensures PushAll(NO_ARGS, signature, true, [written, "--"] + rest).Ok?
    ensures PushAll(NO_ARGS, signature, true, [written, "--"] + rest).value.flags == map[flag.name := ""]
    ensures Awaiting(PushAll(NO_ARGS, signature, true, [written, "--"] + rest).value) == None
    ensures PushAll(NO_ARGS, signature, true, [written]).Ok?
    ensures Awaiting(PushAll(NO_ARGS, signature, true, [written]).value) == Some(flag)
  {
    hide NamedFlag;
    var line := Line([Switch(flag, written)], Dashed(rest));
    FromNothing(line);
    AllowedAccepted(NO_ARGS, signature, line);
    assert line.Written() == [written, "--"] + rest;
    assert line.Values() == map[flag.name := ""];
    assert [written][1..] == [];
  }

  /** Without validation, when no flag is known, every argument but `--` is a positional, dashes and all. */
  lemma {:induction false} UnknownFlagsKept(s: ArgState, signature: Signature, args: seq<string>)
    requires signature.flags == [] && Awaiting(s) == None && forall a <- args :: a != "--"
    ensures var r := PushAll(s, signature, false, args);
            r.Ok? && r.value.positionals == s.positionals + args && r.value.flags == s.flags && Awaiting(r.value) == None
    decreases |args|
  {
    if args != [] {
      var r := Pushed(Ready(s, signature), signature, false, args[0]);
      assert args[0] in args && forall a <- args[1..] :: a in args;
      assert r.Ok? && r.value.positionals == s.positionals + [args[0]] && Awaiting(r.value) == None;
      UnknownFlagsKept(r.value, signature, args[1..]);
      assert s.positionals + [args[0]] + args[1..] == s.positionals + args;
    }
  }

  // --- What is wrong at the end --------------------------------------------------------------------------

  /** A list that ends in a flag without its argument is an error about that flag, whatever the number of positionals. */
  lemma ArgumentMissing(signature: Signature, line: Line, flag: Flag, written: string)
    requires line.tail.Open? && Allowed(signature, line, 0, {}) && !RawAt(signature, |line.Positionals()|)
    requires Names(signature, written, flag) && flag.takesArgument && flag.name !in line.Values()
    ensures Concluded(PushAll(NO_ARGS, signature, true, line.Written() + [written]), signature, true)
         == Err(FlagMissingArgument(flag.name))
  {
    hide NamedFlag, Allowed;
    FromNothing(line);
    AllowedAccepted(NO_ARGS, signature, line);
    PushAllSplits(NO_ARGS, signature, true, line.Written(), [written]);
    OpenStaysBetween(NO_ARGS, signature, line);
    assert [written][1..] == [];
  }

  /** A list the grammar writes with too few or too many positionals is an error about their number. */
  lemma WrongCount(signature: Signature, line: Line)
    requires Allowed(signature, line, 0, {})
    requires var count := |line.Positionals()|;
             count < signature.min || (signature.max.Some? && count > signature.max.value)
    ensures Concluded(PushAll(NO_ARGS, signature, true, line.Written()), signature, true)
         == Err(WrongPositionalCount(signature.min, signature.max, |line.Positionals()|))
  {
    hide PushAll, Allowed;
    FromNothing(line);
    AllowedAccepted(NO_ARGS, signature, line);
  }

  // --- What is being completed ---------------------------------------------------------------------------

  /** What the last argument of a list was: a positional, a flag, the argument of a flag, or the end of the flags. */
  function LastState(line: Line): CompletionState {
    if line.tail != Open then
      if line.tail.rest != [] then Positional else if line.tail.Dashed? then FlagState(None) else LastPiece(line.pieces)
    else LastPiece(line.pieces)
  }

  function LastPiece(pieces: seq<Piece>): CompletionState {
    if pieces == [] then Positional
    else
      match pieces[|pieces| - 1]
      case Word(_) => Positional
      case Switch(flag, _) => FlagState(Some(flag))
      case Setting(flag, _, _) => FlagArgument(flag)
  }

  lemma {:induction false} PositionalLast(s: ArgState, signature: Signature, args: seq<string>)
    requires Ready(s, signature).onlyPositionals && Awaiting(s) == None
    ensures var r := PushAll(s, signature, true, args);
            r.Ok? && r.value.state == if args == [] then s.state else Positional
    decreases |args|
  {
    if args != [] {
      var taken := Ready(s, signature).(positionals := s.positionals + [args[0]], state := Positional);
      PositionalLast(taken, signature, args[1..]);
    }
  }

  /** The state a list leaves says what its last argument was, which is what is completed. */
  lemma {:induction false} StateOfLast(s: ArgState, signature: Signature, line: Line)
    requires Between(s) && Allowed(signature, line, |s.positionals|, s.flags.Keys)
    requires line.pieces == [] ==> s.state == Positional
    ensures var r := PushAll(s, signature, true, line.Written()); r.Ok? && r.value.state == LastState(line)
    decreases |line.pieces|
  {
    StateOfTail(s, signature, line, s.state);
    hide PushAll, LastPiece, Allowed;
  }

  lemma {:induction false} StateOfTail(s: ArgState, signature: Signature, line: Line, before: CompletionState)
    requires !s.onlyPositionals && (Awaiting(s) == None || (line.pieces == [] && line.tail.Dashed?))
    requires Allowed(signature, line, |s.positionals|, s.flags.Keys) && s.state == before
    ensures var r := PushAll(s, signature, true, line.Written());
            && r.Ok?
            && r.value.state == if line.pieces == [] && !line.tail.Dashed? && (line.tail.Open? || line.tail.rest == [])
                                then before else LastState(line)
    decreases |line.pieces|
  {
    if line.pieces == [] {
      match line.tail
      case Open =>
      case Dashed(rest) =>
        assert line.Written()[0] == "--" && line.Written()[1..] == rest;
        PositionalLast(s.(onlyPositionals := true, state := FlagState(None)), signature, rest);
      case Raw(rest) =>
        PositionalLast(s, signature, rest);
    } else {
      hide PushAll;
      var taken := AfterPiece(s, line.pieces[0]);
      PieceTaken(s, signature, line);
      StateOfTail(taken, signature, line.Next(), taken.state);
    }
  }

  // --- Tokens and their expansions -----------------------------------------------------------------------

  function Expanded(tokens: seq<Token>, expand: Token -> Result<string, Error>): Result<seq<string>, Error> {
    if tokens == [] then Ok([])
    else
      match expand(tokens[0])
      case Err(error) => Err(error)
      case Ok(arg) =>
        match Expanded(tokens[1..], expand)
        case Err(error) => Err(error)
        case Ok(args) => Ok([arg] + args)
  }

  /** Without raw text a command line is taken as the list of what its tokens expand to. */
  lemma {:induction false} ParsesTokens(s: ArgState, signature: Signature, input: string, pos: nat, validate: bool,
                                        unix: bool, expand: Token -> Result<string, Error>)
    requires pos <= |input| && signature.rawAfter == None && Run(input, pos, validate, unix).Ok?
    requires Expanded(Run(input, pos, validate, unix).value, expand).Ok?
    ensures ParseFrom(s, signature, input, pos, validate, unix, expand)
         == Concluded(PushAll(s, signature, validate, Expanded(Run(input, pos, validate, unix).value, expand).value),
                      signature, validate)
    decreases |input| - pos
  {
    hide NextStep, Pushed, FinishError;
    var step := NextStep(input, pos, validate, unix);
    if step.Yield? {
      var tokens := Run(input, pos, validate, unix).value;
      var more := Run(input, step.pos, validate, unix).value;
      assert tokens[0] == step.token && tokens[1..] == more;
      var args := Expanded(more, expand).value;
      assert ([expand(step.token).value] + args)[1..] == args;
      match Pushed(s, signature, validate, expand(step.token).value)
      case Err(_) =>
      case Ok(taken) => ParsesTokens(taken, signature, input, step.pos, validate, unix, expand);
    }
  }

  /** A token that cannot be read or expanded is the error of the command line, if nothing before it is wrong. */
  lemma FirstFailure(s: ArgState, signature: Signature, input: string, pos: nat, validate: bool, unix: bool,
                     expand: Token -> Result<string, Error>)
    requires pos <= |input| && !IsRaw(s, signature)
    ensures var r, step := ParseFrom(s, signature, input, pos, validate, unix, expand), NextStep(input, pos, validate, unix);
            && (step.Fail? ==> r == Err(step.error))
            && (step.Yield? && expand(step.token).Err? ==> r == Err(expand(step.token).error))
  {
    hide NextStep, Pushed, FinishError;
  }
}
