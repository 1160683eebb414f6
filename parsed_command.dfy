/** SimpleParsedCommand: a leaf command with typed arguments. Dispatch
    checks that every argument has a token, parses the arguments left to
    right from the token at the same position, stops at the first failure,
    and otherwise runs the command with the parsed values. */
module SimpleParsedCommand {
  import opened Wrappers
  import opened Strings
  import opened Outcomes
  import opened SimpleCommandArgument
  import SimpleBooleanArgument
  import SimpleArgumentString

  /** The host's parsers and completers for the CustomParser ids. */
  type HostParse = (nat, string) -> ParseOutcome
  type HostComplete = (nat, string) -> seq<string>

  /** parseArgument, dispatched on the argument's parser. */
  function Parse(arg: Argument, token: string, host: HostParse): ParseOutcome
  {
    match arg.parser
    case BooleanParser => SimpleBooleanArgument.Parse(token)
    case StringParser => SimpleArgumentString.Parse(token)
    case CustomParser(id, _) => host(id, token)
  }

  /** onTabCompletion, dispatched on the argument's parser: the string
      argument and a parser that does not override it keep the default. */
  function Complete(arg: Argument, input: string, host: HostComplete): seq<string>
  {
    match arg.parser
    case BooleanParser => SimpleBooleanArgument.Complete(input)
    case StringParser => DefaultCompletion(arg, input)
    case CustomParser(id, completes) => if completes then host(id, input) else DefaultCompletion(arg, input)
  }

  /** How the parse loop ends: every argument parsed, the argument at
      `index` threw ParseFailedException, or it returned null. */
  datatype Parsing = AllParsed(values: seq<Value>) | RejectedAt(index: nat, cause: Option<string>) | NullAt(index: nat)

  /** The parse loop, argument `j` on `tokens[j]`, stopping at the first
      argument that does not yield a value. */
  function ParseAll(args: seq<Argument>, tokens: seq<string>, host: HostParse): (r: Parsing)
    requires |args| <= |tokens|
    ensures r.AllParsed? ==> |r.values| == |args|
    ensures r.RejectedAt? ==> r.index < |args|
    ensures r.NullAt? ==> r.index < |args|
    decreases |args|
  {
    if |args| == 0 then AllParsed([])
    else
      match Parse(args[0], tokens[0], host)
      case Failure(cause) => RejectedAt(0, cause)
      case Success(None) => NullAt(0)
      case Success(Some(v)) => Shift([v], ParseAll(args[1..], tokens[1..], host))
  }

  /** A loop outcome after the values `done` were already collected. */
  function Shift(done: seq<Value>, p: Parsing): Parsing
  {
    match p
    case AllParsed(vs) => AllParsed(done + vs)
    case RejectedAt(k, cause) => RejectedAt(|done| + k, cause)
    case NullAt(k) => NullAt(|done| + k)
  }

  /** Arguments 0 .. k-1 each yield a value from their token. */
  predicate PrefixParses(args: seq<Argument>, tokens: seq<string>, host: HostParse, k: nat)
    requires k <= |args| <= |tokens|
  {
    forall j | 0 <= j < k :: Parse(args[j], tokens[j], host).Success? && Parse(args[j], tokens[j], host).value.Some?
  }

  function Names(args: seq<Argument>): seq<string>
  {
    seq(|args|, j requires 0 <= j < |args| => args[j].name)
  }

  /** onCommand: the missing-arguments message names the arguments from
      position |tokens| on; a rejected argument has its error sent; a null
      value is a RuntimeException; otherwise onArgumentCommand runs with all
      the tokens (surplus ones included) and the parsed values. The error is
      sent by the corrected SendError: as written, sendError throws for
      every rejection (SendErrorAsWritten). */
  function OnCommand(node: nat, args: seq<Argument>, tokens: seq<string>, host: HostParse): Result<Outcome, Fault>
  {
    if |args| > |tokens| then Ok(Sent(MissingArguments(Join(Names(args[|tokens|..]), ", "))))
    else
      match ParseAll(args, tokens, host)
      case RejectedAt(k, cause) =>
        (match SendError(args[k], tokens[k], cause)
         case Err(e) => Err(e)
         case Ok(m) => Ok(Sent(m)))
      case NullAt(_) => Err(NullParsedValue)
      case AllParsed(vs) => Ok(RanParsed(node, tokens, vs))
  }

  /** onCommand's loop: an indexed loop collecting the values, returning
      as soon as one argument fails (with the corrected SendError). */
  method RunOnCommand(node: nat, args: seq<Argument>, tokens: seq<string>, host: HostParse) returns (r: Result<Outcome, Fault>)
    ensures r == OnCommand(node, args, tokens, host)
  {
    if |args| > |tokens| {
      var missing := Join(Names(args[|tokens|..]), ", ");
      return Ok(Sent(MissingArguments(missing)));
    }
    var parsed: seq<Value> := [];
    assert args[0..] == args && tokens[0..] == tokens;
    ShiftNone(ParseAll(args, tokens, host));
    for i := 0 to |args|
      invariant |parsed| == i
      invariant ParseAll(args, tokens, host) == Shift(parsed, ParseAll(args[i..], tokens[i..], host))
    {
      var outcome := Parse(args[i], tokens[i], host);
      assert args[i..][0] == args[i] && tokens[i..][0] == tokens[i];
      match outcome {
        case Failure(cause) =>
          var sent := SendError(args[i], tokens[i], cause);
          match sent {
            case Err(e) => return Err(e);
            case Ok(m) => return Ok(Sent(m));
          }
        case Success(None) =>
          return Err(NullParsedValue);
        case Success(Some(v)) =>
          assert args[i..][1..] == args[i + 1..] && tokens[i..][1..] == tokens[i + 1..];
          ShiftShift(parsed, [v], ParseAll(args[i + 1..], tokens[i + 1..], host));
          parsed := parsed + [v];
      }
    }
    assert ParseAll(args[|args|..], tokens[|args|..], host) == AllParsed([]);
    assert parsed + [] == parsed;
    return Ok(RanParsed(node, tokens, parsed));
  }

  lemma ShiftNone(p: Parsing)
    ensures Shift([], p) == p
  {
    match p
    case AllParsed(vs) => assert [] + vs == vs;
    case _ =>
  }

  lemma ShiftShift(a: seq<Value>, b: seq<Value>, p: Parsing)
    ensures Shift(a, Shift(b, p)) == Shift(a + b, p)
  {
    match p
    case AllParsed(vs) => assert a + (b + vs) == a + b + vs;
    case _ =>
  }

  /** onTabComplete: the argument at position |tokens|-1 completes the last
      token; no token or more tokens than arguments index out of bounds
      (the null check on the argument can never fire). */
  function OnTabComplete(args: seq<Argument>, tokens: seq<string>, host: HostComplete): (r: Result<seq<string>, Fault>)
    ensures r.Ok? <==> 1 <= |tokens| <= |args|
    ensures r.Err? ==> r.error == IndexOutOfBounds
    ensures r.Ok? ==> r.value == Complete(args[|tokens| - 1], tokens[|tokens| - 1], host)
  {
    if |tokens| == 0 || |tokens| > |args| then Err(IndexOutOfBounds)
    else Ok(Complete(args[|tokens| - 1], tokens[|tokens| - 1], host))
  }

  /** The parse loop collects every value iff every argument yields one
      from its own token, value j from token j. */
  lemma {:induction false} AllParsedIff(args: seq<Argument>, tokens: seq<string>, host: HostParse, vs: seq<Value>)
    requires |args| <= |tokens|
    ensures ParseAll(args, tokens, host) == AllParsed(vs)
        <==> |vs| == |args| && forall j | 0 <= j < |args| :: Parse(args[j], tokens[j], host) == Success(Some(vs[j]))
    decreases |args|
  {
    if |args| != 0 {
      match Parse(args[0], tokens[0], host)
      case Failure(_) =>
      case Success(None) =>
      case Success(Some(v)) =>
        var rest := ParseAll(args[1..], tokens[1..], host);
        if |vs| != 0 {
          AllParsedIff(args[1..], tokens[1..], host, vs[1..]);
          assert vs == [vs[0]] + vs[1..];
          if ParseAll(args, tokens, host) == AllParsed(vs) {
            assert rest == AllParsed(vs[1..]);
            forall j | 0 <= j < |args|
              ensures Parse(args[j], tokens[j], host) == Success(Some(vs[j]))
            {
              if j > 0 {
                assert args[1..][j - 1] == args[j] && tokens[1..][j - 1] == tokens[j];
              }
            }
          }
          if |vs| == |args| && forall j | 0 <= j < |args| :: Parse(args[j], tokens[j], host) == Success(Some(vs[j])) {
            forall j | 0 <= j < |args| - 1
              ensures Parse(args[1..][j], tokens[1..][j], host) == Success(Some(vs[1..][j]))
            {
              assert Parse(args[j + 1], tokens[j + 1], host) == Success(Some(vs[j + 1]));
            }
            assert rest == AllParsed(vs[1..]);
          }
        }
    }
  }

  /** The loop stops at argument k with the cause c iff every earlier
      argument yields a value and argument k throws with c: later parsers
      are never consulted. */
  lemma {:induction false} RejectedAtIff(args: seq<Argument>, tokens: seq<string>, host: HostParse, k: nat, cause: Option<string>)
    requires |args| <= |tokens|
    ensures ParseAll(args, tokens, host) == RejectedAt(k, cause)
        <==> k < |args| && PrefixParses(args, tokens, host, k) && Parse(args[k], tokens[k], host) == Failure(cause)
    decreases |args|
  {
    if |args| != 0 {
      match Parse(args[0], tokens[0], host)
      case Failure(_) =>
      case Success(None) =>
      case Success(Some(v)) =>
        if 0 < k <= |args| {
          RejectedAtIff(args[1..], tokens[1..], host, k - 1, cause);
          PrefixShift(args, tokens, host, k);
        }
    }
  }

  /** The loop hits a null value at argument k iff every earlier argument
      yields a value and argument k returns null. */
  lemma {:induction false} NullAtIff(args: seq<Argument>, tokens: seq<string>, host: HostParse, k: nat)
    requires |args| <= |tokens|
    ensures ParseAll(args, tokens, host) == NullAt(k)
        <==> k < |args| && PrefixParses(args, tokens, host, k) && Parse(args[k], tokens[k], host) == Success(None)
    decreases |args|
  {
    if |args| != 0 {
      match Parse(args[0], tokens[0], host)
      case Failure(_) =>
      case Success(None) =>
      case Success(Some(v)) =>
        if 0 < k <= |args| {
          NullAtIff(args[1..], tokens[1..], host, k - 1);
          PrefixShift(args, tokens, host, k);
        }
    }
  }

  /** Helper: a prefix of length k parses iff the first argument does and
      the following k-1 do. */
  lemma PrefixShift(args: seq<Argument>, tokens: seq<string>, host: HostParse, k: nat)
    requires 0 < k <= |args| <= |tokens|
    ensures PrefixParses(args, tokens, host, k)
        <==> (Parse(args[0], tokens[0], host).Success? && Parse(args[0], tokens[0], host).value.Some?
              && PrefixParses(args[1..], tokens[1..], host, k - 1))
  {
    if PrefixParses(args[1..], tokens[1..], host, k - 1) {
      forall j | 1 <= j < k
        ensures Parse(args[j], tokens[j], host).Success? && Parse(args[j], tokens[j], host).value.Some?
      {
        assert args[1..][j - 1] == args[j] && tokens[1..][j - 1] == tokens[j];
      }
    }
    if PrefixParses(args, tokens, host, k) {
      forall j | 0 <= j < k - 1
        ensures Parse(args[1..][j], tokens[1..][j], host).Success? && Parse(args[1..][j], tokens[1..][j], host).value.Some?
      {
        assert args[1..][j] == args[j + 1];
      }
    }
  }

  /** Tokens beyond the last argument are never parsed. */
  lemma {:induction false} SurplusTokensIgnored(args: seq<Argument>, tokens: seq<string>, host: HostParse)
    requires |args| <= |tokens|
    ensures ParseAll(args, tokens, host) == ParseAll(args, tokens[..|args|], host)
    decreases |args|
  {
    if |args| != 0 {
      assert tokens[..|args|][0] == tokens[0];
      assert tokens[..|args|][1..] == tokens[1..][..|args| - 1];
      SurplusTokensIgnored(args[1..], tokens[1..], host);
    }
  }

  /** Every dispatch ends in exactly one of: the missing-arguments message
      (iff a token is missing), one argument error, a fault, or the command
      run with one value per argument, value j parsed from token j. An
      argument error is the error of the first argument that rejected its
      token, built from that argument's template and token. */
  lemma OnCommandOutcomes(node: nat, args: seq<Argument>, tokens: seq<string>, host: HostParse)
    ensures OnCommand(node, args, tokens, host).Ok? && OnCommand(node, args, tokens, host).value.Sent?
            && OnCommand(node, args, tokens, host).value.message.MissingArguments?
        <==> |args| > |tokens|
    ensures OnCommand(node, args, tokens, host).Ok? && OnCommand(node, args, tokens, host).value.RanParsed? ==>
      var o := OnCommand(node, args, tokens, host).value;
      o.node == node && o.args == tokens && |args| <= |tokens| && |o.parsed| == |args|
      && forall j | 0 <= j < |args| :: Parse(args[j], tokens[j], host) == Success(Some(o.parsed[j]))
    ensures OnCommand(node, args, tokens, host).Ok? && OnCommand(node, args, tokens, host).value.Sent?
            && OnCommand(node, args, tokens, host).value.message.ArgumentError? ==>
      exists k, reason | 0 <= k < |args| ::
        k < |tokens| && PrefixParses(args, tokens, host, k) && Parse(args[k], tokens[k], host) == Failure(Some(reason))
        && OnCommand(node, args, tokens, host).value.message
           == ArgumentError(Substitute(args[k].errorMessage, args[k].name, tokens[k], reason))
  {
    if |args| <= |tokens| {
      match ParseAll(args, tokens, host)
      case AllParsed(vs) => AllParsedIff(args, tokens, host, vs);
      case RejectedAt(k, cause) =>
        RejectedAtIff(args, tokens, host, k, cause);
        if cause.Some? {
          assert k < |tokens| && PrefixParses(args, tokens, host, k) && Parse(args[k], tokens[k], host) == Failure(Some(cause.value));
        }
      case NullAt(k) =>
    }
  }

  /** Conversely, when every argument yields a value from its token, the
      command runs with exactly those values and all the tokens. */
  lemma OnCommandRuns(node: nat, args: seq<Argument>, tokens: seq<string>, host: HostParse, vs: seq<Value>)
    requires |args| <= |tokens| && |vs| == |args|
    requires forall j | 0 <= j < |args| :: Parse(args[j], tokens[j], host) == Success(Some(vs[j]))
    ensures OnCommand(node, args, tokens, host) == Ok(RanParsed(node, tokens, vs))
  {
    AllParsedIff(args, tokens, host, vs);
  }

  /** When argument k is the first that rejects its token, dispatch sends
      exactly that argument's error for that token and cause. */
  lemma OnCommandRejects(node: nat, args: seq<Argument>, tokens: seq<string>, host: HostParse, k: nat, cause: Option<string>)
    requires k < |args| <= |tokens|
    requires PrefixParses(args, tokens, host, k) && Parse(args[k], tokens[k], host) == Failure(cause)
    ensures cause.Some? ==>
      OnCommand(node, args, tokens, host)
      == Ok(Sent(ArgumentError(Substitute(args[k].errorMessage, args[k].name, tokens[k], cause.value))))
    ensures cause.None? ==> OnCommand(node, args, tokens, host) == Err(NullPointer)
  {
    RejectedAtIff(args, tokens, host, k, cause);
  }

  /** When argument k is the first that returns null, dispatch is the
      null-value exception. */
  lemma OnCommandNull(node: nat, args: seq<Argument>, tokens: seq<string>, host: HostParse, k: nat)
    requires k < |args| <= |tokens|
    requires PrefixParses(args, tokens, host, k) && Parse(args[k], tokens[k], host) == Success(None)
    ensures OnCommand(node, args, tokens, host) == Err(NullParsedValue)
  {
    NullAtIff(args, tokens, host, k);
  }

  /** A command whose arguments are all strings runs whenever every
      argument has a token, with the tokens themselves as values. */
  lemma StringArgumentsNeverFail(node: nat, args: seq<Argument>, tokens: seq<string>, host: HostParse)
    requires forall j | 0 <= j < |args| :: args[j].parser == StringParser
    requires |args| <= |tokens|
    ensures OnCommand(node, args, tokens, host)
         == Ok(RanParsed(node, tokens, seq(|args|, j requires 0 <= j < |args| => StringValue(tokens[j]))))
  {
    var vs := seq(|args|, j requires 0 <= j < |args| => StringValue(tokens[j]));
    AllParsedIff(args, tokens, host, vs);
  }

  /** The argument test command (integer, double, float, string) given two
      tokens reports "someFloat, someString" as missing. */
  lemma MissingArgumentsExample(node: nat, host: HostParse)
    ensures OnCommand(node, [NewArgument("someInteger", CustomParser(0, false)), NewArgument("someDouble", CustomParser(1, false)),
                             NewArgument("someFloat", CustomParser(2, false)), NewArgument("someString", StringParser)],
                      ["1", "2.5"], host)
         == Ok(Sent(MissingArguments("someFloat, someString")))
  {
    var args := [NewArgument("someInteger", CustomParser(0, false)), NewArgument("someDouble", CustomParser(1, false)),
                 NewArgument("someFloat", CustomParser(2, false)), NewArgument("someString", StringParser)];
    assert Names(args[2..]) == ["someFloat", "someString"];
    assert ["someFloat", "someString"][1..] == ["someString"];
    assert Join(["someString"], ", ") == "someString";
    assert "someFloat" + ", " + "someString" == "someFloat, someString";
  }

  /** A rejected boolean token: as written, building its error message
      crashes; as intended, the parser's reason appears in the message. */
  lemma BooleanRejectionMessage(name: string)
    requires '%' !in name
    ensures SimpleBooleanArgument.Parse("maybe") == Failure(Some(SimpleBooleanArgument.BOOLEAN_REASON))
    ensures SendErrorAsWritten(NewArgument(name, BooleanParser), "maybe", Some(SimpleBooleanArgument.BOOLEAN_REASON))
         == Err(NullPointer)
    ensures OnCommand(0, [NewArgument(name, BooleanParser)], ["maybe"], (id, t) => Failure(None))
         == Ok(Sent(ArgumentError(TemplateHead + name + TemplateMiddle + SimpleBooleanArgument.BOOLEAN_REASON + TemplateTail + "maybe")))
  {
    assert !SimpleBooleanArgument.CaseVariant("maybe", "true") by {
      assert "maybe"[0] != 't' && "maybe"[0] as int != 't' as int - 32;
    }
    assert !SimpleBooleanArgument.CaseVariant("maybe", "false") by {
      assert "maybe"[0] != 'f' && "maybe"[0] as int != 'f' as int - 32;
    }
    assert '%' !in SimpleBooleanArgument.BOOLEAN_REASON && '%' !in "maybe";
    DefaultTemplateMessage(name, "maybe", SimpleBooleanArgument.BOOLEAN_REASON);
  }
}
