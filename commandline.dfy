/** The command-line front end (src/parse.rs:22-137): every token is an
    option or an operation, options only raise flags, and the collected
    operations are validated unless usage help was requested. */
module CommandLine {
  import opened Errors
  import opened Strings
  import opened Data
  import opened Numerals
  import opened Grammar

  /** The spellings of each option. */
  predicate Spells(key: string, option: ArgOption) {
    match option
    case Force => key == "-f" || key == "--force"
    case Restart => key == "-r" || key == "--restart"
    case Simulate => key == "-s" || key == "--simulate"
    case Usage => key == "-h" || key == "--help"
  }

  /** `parse_arg_option`: exact spellings only; anything else is `ArgOpt`. */
  function ParseArgOption(key: string): (r: Result<Arg>)
    ensures forall o :: r == Ok(Arg.Option(o)) <==> Spells(key, o)
    ensures r.Err? <==> forall o :: !Spells(key, o)
    ensures r.Err? ==> r.error == ArgOpt
    ensures r.Ok? ==> r.value.Option?
  {
    if key == "-f" || key == "--force" then Ok(Arg.Option(Force))
    else if key == "-r" || key == "--restart" then Ok(Arg.Option(Restart))
    else if key == "-s" || key == "--simulate" then Ok(Arg.Option(Simulate))
    else if key == "-h" || key == "--help" then Ok(Arg.Option(Usage))
    else
      assert forall o :: !Spells(key, o);
      Err(ArgOpt)
  }

  /** `parse_arg_operation`: an operation, wrapped as an argument. */
  function ParseArgOperation(arg: string): (r: Result<Arg>)
    ensures r.Ok? <==> OperationOf(arg).Ok?
    ensures r.Ok? ==> r.value == Arg.Operation(OperationOf(arg).value)
    ensures r.Err? ==> r.error == OperationOf(arg).error
  {
    var op :- OperationOf(arg);
    Ok(Arg.Operation(op))
  }

  /** One token: tried as an option, then as an operation. A failure
      reports the token with the operation parser's error, so the option
      parser's `ArgOpt` is never seen. */
  function ClassifyToken(token: string): (r: Result<Arg>)
    ensures ParseArgOption(token).Ok? ==> r == ParseArgOption(token)
    ensures ParseArgOption(token).Err? && OperationOf(token).Ok? ==>
              r == Ok(Arg.Operation(OperationOf(token).value))
    ensures r.Err? <==> ParseArgOption(token).Err? && OperationOf(token).Err?
    ensures r.Err? ==> r.error == ArgToken(token, OperationOf(token).error)
  {
    ParseMultipleTwo(token, ParseArgOption, ParseArgOperation);
    match ParseMultiple(token, [ParseArgOption, ParseArgOperation])
    case Ok(a) => Ok(a)
    case Err(e) => Err(ArgToken(token, e))
  }

  /** Collecting the classified tokens stops at the first failure. */
  function ClassifyAll(tokens: seq<string>): (r: Result<seq<Arg>>)
    ensures r.Ok? <==> forall i :: 0 <= i < |tokens| ==> ClassifyToken(tokens[i]).Ok?
    ensures r.Ok? ==> |r.value| == |tokens| &&
                      forall i :: 0 <= i < |tokens| ==> ClassifyToken(tokens[i]) == Ok(r.value[i])
    ensures r.Err? ==> exists i :: 0 <= i < |tokens| && ClassifyToken(tokens[i]) == Err(r.error) &&
                                   forall j :: 0 <= j < i ==> ClassifyToken(tokens[j]).Ok?
  {
    AllCollectable(tokens, ClassifyToken);
    Collect(tokens, ClassifyToken)
  }

  /** The first bad token decides the outcome. */
  lemma FirstBadToken(tokens: seq<string>, i: nat)
    requires i < |tokens| && ClassifyToken(tokens[i]).Err?
    requires forall k :: 0 <= k < i ==> ClassifyToken(tokens[k]).Ok?
    ensures ClassifyAll(tokens) == Err(ClassifyToken(tokens[i]).error)
  {
    var r := ClassifyAll(tokens);
    var j :| 0 <= j < |tokens| && ClassifyToken(tokens[j]) == Err(r.error) &&
             forall k :: 0 <= k < j ==> ClassifyToken(tokens[k]).Ok?;
    assert j == i;
  }

  /** Every token good: the classified arguments are the parsed ones. */
  lemma AllGoodTokens(tokens: seq<string>, parsed: seq<Arg>)
    requires |parsed| == |tokens|
    requires forall k :: 0 <= k < |tokens| ==> ClassifyToken(tokens[k]) == Ok(parsed[k])
    ensures ClassifyAll(tokens) == Ok(parsed)
  {
    var all := ClassifyAll(tokens);
    assert all.Ok? && forall k :: 0 <= k < |tokens| ==> all.value[k] == parsed[k];
    assert all.value == parsed;
  }

  /** Only the option parser produces options. */
  lemma TokenOption(token: string, o: ArgOption)
    ensures ClassifyToken(token) == Ok(Arg.Option(o)) <==> Spells(token, o)
  {
  }

  /** The operations among the arguments, in order. */
  function OperationsIn(args: seq<Arg>): seq<ArgOperation> {
    if args == [] then []
    else
      var last := args[|args| - 1];
      OperationsIn(args[..|args| - 1]) + (if last.Operation? then [last.operation] else [])
  }

  /** What `parse_args` returns. */
  function ArgsOf(tokens: seq<string>): (r: Result<Args>)
  {
    if tokens == [] then
      Err(ArgNone)
    else
      var parsed :- ClassifyAll(tokens);
      var args := Args(OperationsIn(parsed),
                       Arg.Option(Force) in parsed, Arg.Option(Restart) in parsed,
                       Arg.Option(Simulate) in parsed, Arg.Option(Usage) in parsed);
      var _ :- ValidateArgs(args);
      Ok(args)
  }

  /** The `collect` of classified tokens (src/parse.rs:33-41). */
  method ClassifyTokens(tokens: seq<string>) returns (r: Result<seq<Arg>>)
    ensures r == ClassifyAll(tokens)
  {
    var parsed: seq<Arg> := [];
    for i := 0 to |tokens|
      invariant |parsed| == i
      invariant forall k :: 0 <= k < i ==> ClassifyToken(tokens[k]) == Ok(parsed[k])
    {
      var arg := ClassifyToken(tokens[i]);
      if arg.Err? {
        FirstBadToken(tokens, i);
        return Err(arg.error);
      }
      parsed := parsed + [arg.value];
    }
    AllGoodTokens(tokens, parsed);
    r := Ok(parsed);
  }

  /** The operations kept in command-line order (src/parse.rs:43-47). */
  method GatherOperations(parsed: seq<Arg>) returns (operations: seq<ArgOperation>)
    ensures operations == OperationsIn(parsed)
  {
    operations := [];
    for i := 0 to |parsed|
      invariant operations == OperationsIn(parsed[..i])
    {
      assert parsed[..i + 1][..i] == parsed[..i];
      if parsed[i].Operation? {
        operations := operations + [parsed[i].operation];
      }
    }
    assert parsed[..|parsed|] == parsed;
  }

  /** One flag per option, raised when the option appears anywhere
      (src/parse.rs:49-76). */
  method RaiseFlags(parsed: seq<Arg>) returns (args: Args)
    ensures args == Args([], Arg.Option(Force) in parsed, Arg.Option(Restart) in parsed,
                         Arg.Option(Simulate) in parsed, Arg.Option(Usage) in parsed)
  {
    args := Args([], false, false, false, false);
    for i := 0 to |parsed|
      invariant args.op == []
      invariant args.force == (Arg.Option(Force) in parsed[..i])
      invariant args.restart == (Arg.Option(Restart) in parsed[..i])
      invariant args.simulate == (Arg.Option(Simulate) in parsed[..i])
      invariant args.usage == (Arg.Option(Usage) in parsed[..i])
    {
      assert parsed[..i + 1] == parsed[..i] + [parsed[i]];
      if parsed[i].Option? {
        match parsed[i].option
        case Force => args := args.(force := true);
        case Restart => args := args.(restart := true);
        case Simulate => args := args.(simulate := true);
        case Usage => args := args.(usage := true);
      }
    }
    assert parsed[..|parsed|] == parsed;
  }

  /** `parse_args`: classifies every token, gathers the operations, raises
      a flag for every option and validates the result. */
  method ParseArgs(tokens: seq<string>) returns (r: Result<Args>)
    ensures r == ArgsOf(tokens)
  {
    if |tokens| == 0 {
      return Err(ArgNone);
    }
    var parsed :- ClassifyTokens(tokens);
    var operations := GatherOperations(parsed);
    var args := RaiseFlags(parsed);
    args := args.(op := operations);
    var _ :- ValidateArgs(args);
    r := Ok(args);
  }

  // ---------------------------------------------------------------------
  // Properties
  // ---------------------------------------------------------------------

  /** Reference definition of the operations: every token that is not an
      option, parsed as an operation, in command-line order. */
  function OperationTokens(tokens: seq<string>): seq<ArgOperation>
    requires forall i :: 0 <= i < |tokens| ==> ClassifyToken(tokens[i]).Ok?
  {
    if tokens == [] then []
    else
      assert ClassifyToken(tokens[0]).Ok?;
      (if ParseArgOption(tokens[0]).Ok? then [] else [OperationOf(tokens[0]).value]) +
      OperationTokens(tokens[1..])
  }

  lemma {:induction false} OperationsInCons(a: Arg, rest: seq<Arg>)
    ensures OperationsIn([a] + rest) == (if a.Operation? then [a.operation] else []) + OperationsIn(rest)
    decreases |rest|
  {
    if rest != [] {
      var s := [a] + rest;
      var last := rest[|rest| - 1];
      assert s[..|s| - 1] == [a] + rest[..|rest| - 1];
      OperationsInCons(a, rest[..|rest| - 1]);
    } else {
      assert [a] + rest == [a] && [a][..0] == [];
    }
  }

  lemma {:induction false} OperationsInTokens(tokens: seq<string>)
    requires ClassifyAll(tokens).Ok?
    ensures OperationsIn(ClassifyAll(tokens).value) == OperationTokens(tokens)
    decreases |tokens|
  {
    if tokens != [] {
      var first := ClassifyToken(tokens[0]);
      assert ClassifyAll(tokens).value == [first.value] + ClassifyAll(tokens[1..]).value;
      OperationsInTokens(tokens[1..]);
      OperationsInCons(first.value, ClassifyAll(tokens[1..]).value);
    }
  }

  /** The operations are executed in the order they were given, whatever
      options are mixed in. */
  lemma OperationOrder(tokens: seq<string>)
    requires ArgsOf(tokens).Ok?
    ensures ClassifyAll(tokens).Ok?
    ensures ArgsOf(tokens).value.op == OperationTokens(tokens)
  {
    OperationsInTokens(tokens);
  }

  /** A flag is raised exactly when one of its spellings is among the
      tokens. */
  lemma FlagSpelled(tokens: seq<string>, o: ArgOption)
    requires ClassifyAll(tokens).Ok?
    ensures Arg.Option(o) in ClassifyAll(tokens).value <==>
            exists i :: 0 <= i < |tokens| && Spells(tokens[i], o)
  {
    var parsed := ClassifyAll(tokens).value;
    if Arg.Option(o) in parsed {
      var i :| 0 <= i < |parsed| && parsed[i] == Arg.Option(o);
      TokenOption(tokens[i], o);
    }
    if exists i :: 0 <= i < |tokens| && Spells(tokens[i], o) {
      var i :| 0 <= i < |tokens| && Spells(tokens[i], o);
      TokenOption(tokens[i], o);
    }
  }

  /** The outcome of a whole command line: it is accepted exactly when every
      token is an option or an operation and, unless help was asked for,
      every assignment fits its size; the error is the first bad token's,
      then the first oversized assignment's. */
  lemma ArgsOutcome(tokens: seq<string>)
    requires tokens != []
    ensures ArgsOf(tokens).Ok? <==>
              ClassifyAll(tokens).Ok? &&
              ((exists i :: 0 <= i < |tokens| && Spells(tokens[i], Usage)) ||
               ValidateAll(OperationTokens(tokens)).Ok?)
    ensures ClassifyAll(tokens).Err? ==> ArgsOf(tokens) == Err(ClassifyAll(tokens).error)
    ensures ClassifyAll(tokens).Ok? && ArgsOf(tokens).Err? ==>
              ArgsOf(tokens).error == ValidateAll(OperationTokens(tokens)).error && ArgsOf(tokens).error.ArgSizeMismatch?
  {
    if ClassifyAll(tokens).Ok? {
      OperationsInTokens(tokens);
      FlagSpelled(tokens, Usage);
      var r := ValidateAll(OperationTokens(tokens));
      if r.Err? {
        var i :| 0 <= i < |OperationTokens(tokens)| && Validate(OperationTokens(tokens)[i]) == r;
      }
    }
  }

  /** A token that looks like an unknown option is reported with the
      operation parser's complaint about the missing offset. */
  lemma UnknownOption(token: string)
    requires ':' !in token && forall o :: !Spells(token, o)
    ensures ClassifyToken(token) == Err(ArgToken(token, ArgPos))
  {
    PiecesWithout(token, ':');
  }

  /** One operation alone on the command line. */
  lemma SingleOperation(token: string, op: ArgOperation)
    requires (forall o :: !Spells(token, o)) && OperationOf(token) == Ok(op)
    ensures ArgsOf([token]) ==
              if Validate(op).Ok? then Ok(Args([op], false, false, false, false))
              else Err(Validate(op).error)
  {
    assert ClassifyToken(token) == Ok(Arg.Operation(op));
    var parsed := [Arg.Operation(op)];
    var all := ClassifyAll([token]);
    assert [token][0] == token;
    assert all.Ok? && |all.value| == 1 && all.value[0] == parsed[0];
    assert all.value == parsed;
    assert parsed[..0] == [];
    assert OperationsIn(parsed) == [op];
    var args := Args([op], false, false, false, false);
    assert ValidateAll([op]) == Validate(op) by {
      assert [op][1..] == [];
    }
    assert ValidateArgs(args) == Validate(op);
  }

  /** A token that does not start with `-` is no option. */
  lemma NotAnOption(token: string)
    requires |token| > 0 && token[0] != '-'
    ensures forall o :: !Spells(token, o)
  {
    forall o ensures !Spells(token, o) {
      assert "-f"[0] == '-' && "-r"[0] == '-' && "-s"[0] == '-' && "-h"[0] == '-';
      assert "--force"[0] == '-' && "--restart"[0] == '-' && "--simulate"[0] == '-' && "--help"[0] == '-';
    }
  }

  /** `Lang:0x00=0x100` assigns 256 to a single byte and is accepted. */
  lemma SingleByteAccepted(token: string)
    requires token == "Lang:0x00=0x100"
    ensures ArgsOf([token]) ==
              Ok(Args([ArgOperation(Set(256), OperationTarget(None, "Lang", 0, 1))], false, false, false, false))
  {
    var value := "0x100";
    assert token == "Lang:0x00=" + value;
    assert '=' !in value && ':' !in value;
    HexHundred(value);
    ByteAssignment(token, value, 256);
    NotAnOption(token);
    assert Pow(256, 1) == 256;
    SingleOperation(token, ArgOperation(Set(256), OperationTarget(None, "Lang", 0, 1)));
  }

  /** `Lang:0x00=0x101` does not fit a single byte and is refused. */
  lemma SingleByteRefused(token: string)
    requires token == "Lang:0x00=0x101"
    ensures ArgsOf([token]) == Err(ArgSizeMismatch(257, 1))
  {
    var value := "0x101";
    assert token == "Lang:0x00=" + value;
    assert '=' !in value && ':' !in value;
    HexHundredOne(value);
    ByteAssignment(token, value, 257);
    NotAnOption(token);
    assert Pow(256, 1) == 256;
    SingleOperation(token, ArgOperation(Set(257), OperationTarget(None, "Lang", 0, 1)));
  }
}
