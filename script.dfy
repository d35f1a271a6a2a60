/** Scripts read from standard input (src/parse.rs:138-282, 478-559): one
    directive per line, `#` comments, `!option` lines, `Alias,Target`
    definitions, operations and `@Alias[=Value]` references. */
module Script {
  import opened Errors
  import opened Strings
  import opened Data
  import opened Grammar
  import CommandLine

  // ---------------------------------------------------------------------
  // Lines
  // ---------------------------------------------------------------------

  /** The longest prefix of `line` without a comment character. */
  function Uncommented(line: string): (r: string)
    ensures '#' !in r && r <= line
    ensures |r| < |line| ==> line[|r|] == '#'
  {
    match FindFirst(line, '#')
    case None => line
    case Some(i) => line[..i]
  }

  /** The comment removed and blanks trimmed; `None` drops the line. A line
      whose comment starts at its first character is always dropped. */
  function CleanLine(line: string): (r: Option<string>)
    ensures |line| > 0 && line[0] == '#' ==> r.None?
    ensures !(|line| > 0 && line[0] == '#') ==>
              r == if Trimmed(Uncommented(line)) == [] then None else Some(Trimmed(Uncommented(line)))
    ensures r.Some? ==> r.value != [] && '#' !in r.value
  {
    var kept :=
      if Has(line, '#') then
        var start := FindFirst(line, '#').value;
        if start == 0 then None else Some(Substring(line, 0, start - 1))
      else
        Some(line);
    match kept
    case None => None
    case Some(text) =>
      assert text == Uncommented(line);
      var trimmed := Trimmed(text);
      if trimmed == [] then None else Some(trimmed)
  }

  /** The non-empty cleaned lines, in order. */
  function CleanLines(lines: seq<string>): (r: seq<string>)
    ensures |r| <= |lines|
    ensures forall k :: 0 <= k < |r| ==> r[k] != [] && '#' !in r[k]
  {
    if lines == [] then []
    else
      match CleanLine(lines[0])
      case None => CleanLines(lines[1..])
      case Some(line) => [line] + CleanLines(lines[1..])
  }

  function ScriptLines(input: string): seq<string> {
    CleanLines(Pieces(input, '\n'))
  }

  // ---------------------------------------------------------------------
  // The four kinds of lines
  // ---------------------------------------------------------------------

  /** The spelling of each option in a script; help cannot be requested. */
  predicate InputSpells(arg: string, option: ArgOption) {
    match option
    case Force => arg == "!force"
    case Restart => arg == "!restart"
    case Simulate => arg == "!simulate"
    case Usage => false
  }

  /** `parse_input_option`. */
  function ParseInputOption(arg: string): (r: Result<InputEntry>)
    ensures forall o :: r == Ok(InputEntry.Option(o)) <==> InputSpells(arg, o)
    ensures r.Err? <==> forall o :: !InputSpells(arg, o)
    ensures r.Err? ==> r.error == InputOpt(arg)
    ensures r.Ok? ==> r.value.Option?
  {
    match StripFirst(arg, '!')
    case None =>
      assert forall o :: !InputSpells(arg, o);
      Err(InputOpt(arg))
    case Some(named) =>
      assert arg == "!" + named;
      if named == "force" then Ok(InputEntry.Option(Force))
      else if named == "restart" then Ok(InputEntry.Option(Restart))
      else if named == "simulate" then Ok(InputEntry.Option(Simulate))
      else
        assert forall o :: !InputSpells(arg, o);
        Err(InputOpt(arg))
  }

  /** `parse_target_def`: `Alias,Target`, split at the first comma with
      both sides trimmed, where the target must be a query. */
  function ParseTargetDef(arg: string): (r: Result<InputEntry>)
    ensures r == Err(InputDef(arg)) <==> ',' !in arg
    ensures r.Ok? ==> r.value.TargetDefinition? && ',' !in r.value.name
    ensures ',' in arg ==>
              var (name, target) := SplitOnce(arg, ',').value;
              && (r.Ok? <==> OperationOf(target).Ok? && OperationOf(target).value.action.Get?)
              && (r.Ok? ==> r.value == TargetDefinition(name, OperationOf(target).value.target))
              && (OperationOf(target).Err? ==> r == Err(OperationOf(target).error))
              && (OperationOf(target).Ok? && OperationOf(target).value.action.Set? ==>
                    r == Err(InputDefSet(target)))
  {
    match SplitOnce(arg, ',')
    case None => Err(InputDef(arg))
    case Some((name, target)) =>
      var operation :- OperationOf(target);
      if operation.action.Get? then
        Ok(TargetDefinition(name, operation.target))
      else
        Err(InputDefSet(target))
  }

  /** `parse_input_operation`: an operation, wrapped as a script entry. */
  function ParseInputOperation(arg: string): (r: Result<InputEntry>)
    ensures r.Ok? <==> OperationOf(arg).Ok?
    ensures r.Ok? ==> r.value == InputEntry.Operation(OperationOf(arg).value)
    ensures r.Err? ==> r.error == OperationOf(arg).error
  {
    var operation :- OperationOf(arg);
    Ok(InputEntry.Operation(operation))
  }

  /** A reference whose `=` directly follows the `@`: the source computes
      the end of the name as `0 - 1` in an unsigned integer and panics. */
  predicate RefPanics(arg: string) {
    |arg| >= 2 && arg[0] == '@' && arg[1] == '='
  }

  /** What `parse_target_ref` returns: the name is everything after the
      `@` up to the first `=`, and the value keeps its `=` so that it reads
      as an assignment to an empty offset. */
  function TargetRefOf(arg: string): (r: Result<InputEntry>)
    requires !RefPanics(arg)
    ensures (|arg| == 0 || arg[0] != '@') ==> r == Err(InputRef(arg))
    ensures |arg| > 0 && arg[0] == '@' && '=' !in arg ==> r == Ok(TargetReference(arg[1..], Get))
    ensures r.Err? ==> r.error == InputRef(arg) || r.error == ArgAss || r.error.ArgNumDec?
    ensures r.Ok? ==> r.value.TargetReference?
  {
    if !HasFirst(arg, '@') then
      Err(InputRef(arg))
    else
      match StripFirst(arg, '@')
      case None => Err(Input(arg))
      case Some(rest) =>
        if !Has(rest, '=') then
          Ok(TargetReference(rest, Get))
        else
          var ass := FindFirst(rest, '=').value;
          var name := Substring(rest, 0, ass - 1);
          var value := Substring(rest, ass, |rest| - 1);
          var typed :- OperationTypeOf(value);
          Ok(TargetReference(name, typed.1))
  }

  /** A reference with an assignment names everything between the `@` and
      the first `=`, and takes its action from the rest, `=` included: every
      argument `@` + name + `=` + tail whose name is not empty and holds no
      `=` is read this way. */
  lemma TargetRefShape(name: string, tail: string)
    requires name != [] && '=' !in name
    ensures !RefPanics("@" + name + "=" + tail)
    ensures OperationTypeOf("=" + tail).Ok? ==>
              TargetRefOf("@" + name + "=" + tail) ==
              Ok(TargetReference(name, OperationTypeOf("=" + tail).value.1))
    ensures OperationTypeOf("=" + tail).Err? ==>
              TargetRefOf("@" + name + "=" + tail) == Err(OperationTypeOf("=" + tail).error)
  {
    var arg := "@" + name + "=" + tail;
    var rest := name + "=" + tail;
    assert arg[1..] == rest && arg[1] == name[0];
    assert HasFirst(arg, '@') && StripFirst(arg, '@') == Some(rest);
    FindFirstAt(name, tail, '=');
    RefParts(name, tail, rest);
    assert [] + "=" + tail == "=" + tail;
  }

  /** Takes off the prefix, then reassigns the default name and action
      when an assignment follows (src/parse.rs:508-548). */
  method ParseTargetRef(arg: string) returns (r: Result<InputEntry>)
    requires !RefPanics(arg)
    ensures r == TargetRefOf(arg)
  {
    if !HasFirst(arg, '@') {
      return Err(InputRef(arg));
    }
    var stripped := StripFirst(arg, '@');
    if stripped.None? {
      return Err(Input(arg));
    }
    var rest := stripped.value;
    var action := Get;
    var name := rest;
    if Has(rest, '=') {
      var ass := FindFirst(rest, '=').value;
      name := Substring(rest, 0, ass - 1);
      var value := Substring(rest, ass, |rest| - 1);
      var typed :- OperationTypeOf(value);
      action := typed.1;
    }
    r := Ok(TargetReference(name, action));
  }

  /** A line is classified without a panic: some parser before the
      reference parser accepts it, or the reference parser is safe on it. */
  predicate LineDefined(line: string) {
    ParseInputOption(line).Ok? || ParseTargetDef(line).Ok? || ParseInputOperation(line).Ok? ||
    !RefPanics(line)
  }

  /** One line: option, then definition, then operation, then reference;
      the first success wins, and when all fail the reference parser's
      result is reported. */
  function ClassifyLine(line: string): Result<InputEntry>
    requires LineDefined(line)
  {
    if ParseInputOption(line).Ok? then ParseInputOption(line)
    else if ParseTargetDef(line).Ok? then ParseTargetDef(line)
    else if ParseInputOperation(line).Ok? then ParseInputOperation(line)
    else TargetRefOf(line)
  }

  /** A line is classified by `parse_multiple!` over the four parsers: the
      reference parser is reached only when the other three fail, and the
      first parser that accepts the line wins. */
  lemma ClassifyLineOrder(line: string)
    requires LineDefined(line)
    ensures Evaluable(line, [ParseInputOption, ParseTargetDef, ParseInputOperation, TargetRefOf])
    ensures ClassifyLine(line) ==
              ParseMultiple(line, [ParseInputOption, ParseTargetDef, ParseInputOperation, TargetRefOf])
  {
    ParseMultipleFour(line, ParseInputOption, ParseTargetDef, ParseInputOperation, TargetRefOf);
  }

  /** Collecting the classified lines stops at the first failure, so a
      line after it is never classified (src/parse.rs:189-193). */
  function Entries(lines: seq<string>): (r: Result<seq<InputEntry>>)
    requires Collectable(lines, ClassifyLine)
    ensures r.Ok? <==> forall i :: 0 <= i < |lines| ==> LineDefined(lines[i]) && ClassifyLine(lines[i]).Ok?
    ensures r.Ok? ==> |r.value| == |lines| &&
                      forall i :: 0 <= i < |lines| ==>
                        LineDefined(lines[i]) && ClassifyLine(lines[i]) == Ok(r.value[i])
    ensures r.Err? ==> exists i :: 0 <= i < |lines| && LineDefined(lines[i]) &&
                                   ClassifyLine(lines[i]) == Err(r.error) &&
                                   forall j :: 0 <= j < i ==> LineDefined(lines[j]) && ClassifyLine(lines[j]).Ok?
  {
    Collect(lines, ClassifyLine)
  }

  // ---------------------------------------------------------------------
  // Resolution
  // ---------------------------------------------------------------------

  /** The definitions, in script order. */
  function Definitions(entries: seq<InputEntry>): seq<(string, OperationTarget)> {
    if entries == [] then []
    else (if entries[0].TargetDefinition? then [AsDef(entries[0])] else []) + Definitions(entries[1..])
  }

  /** The operations given directly, in script order. */
  function DirectOperations(entries: seq<InputEntry>): seq<ArgOperation> {
    if entries == [] then []
    else (if entries[0].Operation? then [AsOp(entries[0])] else []) + DirectOperations(entries[1..])
  }

  /** The references, in script order. */
  function References(entries: seq<InputEntry>): seq<(string, OperationType)> {
    if entries == [] then []
    else
      (if entries[0].TargetReference? then [(entries[0].name, entries[0].action)] else []) +
      References(entries[1..])
  }

  /** The target of the first definition with this name. */
  function FindDefinition(defs: seq<(string, OperationTarget)>, name: string): (r: Option<OperationTarget>)
    ensures r.None? <==> forall i :: 0 <= i < |defs| ==> defs[i].0 != name
    ensures r.Some? ==> exists i :: 0 <= i < |defs| && defs[i] == (name, r.value) &&
                                    forall j :: 0 <= j < i ==> defs[j].0 != name
  {
    if defs == [] then None
    else if defs[0].0 == name then Some(defs[0].1)
    else
      var r := FindDefinition(defs[1..], name);
      assert forall i :: 1 <= i < |defs| ==> defs[i] == defs[1..][i - 1];
      if r.Some? then
        var i :| 0 <= i < |defs[1..]| && defs[1..][i] == (name, r.value) &&
                 forall j :: 0 <= j < i ==> defs[1..][j].0 != name;
        assert defs[i + 1] == (name, r.value);
        r
      else
        r
  }

  /** Every reference takes the target of its definition, in order. */
  function ResolveRefs(refs: seq<(string, OperationType)>, defs: seq<(string, OperationTarget)>):
    (r: Result<seq<ArgOperation>>)
    ensures r.Ok? ==> |r.value| == |refs|
  {
    if refs == [] then
      Ok([])
    else
      match FindDefinition(defs, refs[0].0)
      case None => Err(InputRefNone(refs[0].0))
      case Some(target) =>
        var rest :- ResolveRefs(refs[1..], defs);
        Ok([ArgOperation(refs[0].1, target)] + rest)
  }

  /** When resolution succeeds, each reference has a definition and takes
      the target of the first definition with its name, keeping its own
      action. */
  lemma {:induction false} ResolvedRefs(refs: seq<(string, OperationType)>, defs: seq<(string, OperationTarget)>)
    requires ResolveRefs(refs, defs).Ok?
    ensures forall k :: 0 <= k < |refs| ==>
              FindDefinition(defs, refs[k].0).Some? &&
              ResolveRefs(refs, defs).value[k] == ArgOperation(refs[k].1, FindDefinition(defs, refs[k].0).value)
    decreases |refs|
  {
    if refs != [] {
      ResolvedRefs(refs[1..], defs);
      var r, tail := ResolveRefs(refs, defs).value, ResolveRefs(refs[1..], defs).value;
      assert r == [ArgOperation(refs[0].1, FindDefinition(defs, refs[0].0).value)] + tail;
      forall k | 1 <= k < |refs|
        ensures FindDefinition(defs, refs[k].0).Some? &&
                r[k] == ArgOperation(refs[k].1, FindDefinition(defs, refs[k].0).value)
      {
        assert refs[k] == refs[1..][k - 1] && r[k] == tail[k - 1];
      }
    }
  }

  /** When resolution fails, it reports the first reference without a
      definition. */
  lemma {:induction false} UnresolvedRef(refs: seq<(string, OperationType)>, defs: seq<(string, OperationTarget)>)
    requires ResolveRefs(refs, defs).Err?
    ensures exists k :: 0 <= k < |refs| && FindDefinition(defs, refs[k].0).None? &&
                        ResolveRefs(refs, defs).error == InputRefNone(refs[k].0) &&
                        forall j :: 0 <= j < k ==> FindDefinition(defs, refs[j].0).Some?
    decreases |refs|
  {
    if FindDefinition(defs, refs[0].0).Some? {
      var tail := refs[1..];
      UnresolvedRef(tail, defs);
      assert ResolveRefs(refs, defs).error == ResolveRefs(tail, defs).error;
      var k :| 0 <= k < |tail| && FindDefinition(defs, tail[k].0).None? &&
               ResolveRefs(tail, defs).error == InputRefNone(tail[k].0) &&
               forall j :: 0 <= j < k ==> FindDefinition(defs, tail[j].0).Some?;
      UnresolvedShift(refs, defs, k);
    }
  }

  /** A first reference without a definition in the tail, behind one with a
      definition, is the first one of the whole sequence. */
  lemma UnresolvedShift(refs: seq<(string, OperationType)>, defs: seq<(string, OperationTarget)>, k: nat)
    requires 0 <= k < |refs| - 1 && FindDefinition(defs, refs[0].0).Some?
    requires forall j :: 0 <= j < k ==> FindDefinition(defs, refs[1..][j].0).Some?
    ensures refs[k + 1] == refs[1..][k]
    ensures forall j :: 0 <= j < k + 1 ==> FindDefinition(defs, refs[j].0).Some?
  {
    var tail := refs[1..];
    forall j | 0 <= j < k + 1 ensures FindDefinition(defs, refs[j].0).Some? {
      if j > 0 {
        assert refs[j] == tail[j - 1];
      }
    }
  }

  /** Resolution succeeds exactly when every reference has a definition. */
  lemma ResolveRefsOutcome(refs: seq<(string, OperationType)>, defs: seq<(string, OperationTarget)>)
    ensures ResolveRefs(refs, defs).Ok? <==> forall k :: 0 <= k < |refs| ==> FindDefinition(defs, refs[k].0).Some?
  {
    if ResolveRefs(refs, defs).Ok? {
      ResolvedRefs(refs, defs);
    } else {
      UnresolvedRef(refs, defs);
    }
  }

  // ---------------------------------------------------------------------
  // The whole script
  // ---------------------------------------------------------------------

  /** The script can be classified without a panic, up to its first line
      that fails. */
  ghost predicate ScriptDefined(input: string) {
    Collectable(ScriptLines(input), ClassifyLine)
  }

  /** What `parse_input` returns: the direct operations in line order, then
      the referenced ones in line order; the flags are set by any option
      line; help is never requested and nothing is validated. */
  function ScriptArgs(input: string): (r: Result<Args>)
    requires ScriptDefined(input)
    ensures input == [] ==> r == Err(InputNone)
  {
    if input == [] then
      Err(InputNone)
    else
      var entries :- Entries(ScriptLines(input));
      var resolved :- ResolveRefs(References(entries), Definitions(entries));
      var direct := DirectOperations(entries);
      Ok(Args(direct + resolved,
              InputEntry.Option(Force) in entries, InputEntry.Option(Restart) in entries,
              InputEntry.Option(Simulate) in entries, false))
  }

  /** The operations a script yields: the direct operations first, then
      each reference bound to the target its alias defines. */
  lemma ScriptArgsOk(input: string, entries: seq<InputEntry>, args: Args)
    requires ScriptDefined(input) && input != []
    requires Entries(ScriptLines(input)) == Ok(entries) && ScriptArgs(input) == Ok(args)
    ensures var direct, refs := DirectOperations(entries), References(entries);
            && |args.op| == |direct| + |refs|
            && args.op[..|direct|] == direct
            && (forall k :: 0 <= k < |refs| ==>
                  FindDefinition(Definitions(entries), refs[k].0).Some? &&
                  args.op[|direct| + k] ==
                  ArgOperation(refs[k].1, FindDefinition(Definitions(entries), refs[k].0).value))
  {
    var refs, defs := References(entries), Definitions(entries);
    var resolved := ResolveRefs(refs, defs).value;
    var direct := DirectOperations(entries);
    ResolvedRefs(refs, defs);
    ArgsOfResolved(input, entries, resolved);
    assert args.op == direct + resolved;
    AppendedAfter(direct, resolved);
  }

  /** The flags a script raises are those its option lines spell; help is
      never requested. */
  lemma ScriptFlags(input: string)
    requires ScriptDefined(input) && ScriptArgs(input).Ok?
    ensures input != [] && Entries(ScriptLines(input)).Ok?
    ensures var entries, args := Entries(ScriptLines(input)).value, ScriptArgs(input).value;
            && args.force == (InputEntry.Option(Force) in entries)
            && args.restart == (InputEntry.Option(Restart) in entries)
            && args.simulate == (InputEntry.Option(Simulate) in entries)
            && !args.usage
  {
  }

  /** A script that is not empty fails on a line that no parser accepts or
      on a reference to an alias that no line defines. */
  lemma ScriptArgsErr(input: string)
    requires ScriptDefined(input) && ScriptArgs(input).Err? && input != []
    ensures Entries(ScriptLines(input)).Err? ==> ScriptArgs(input).error == Entries(ScriptLines(input)).error
    ensures Entries(ScriptLines(input)).Ok? ==>
              var entries := Entries(ScriptLines(input)).value;
              && ResolveRefs(References(entries), Definitions(entries)).Err?
              && ScriptArgs(input).error == ResolveRefs(References(entries), Definitions(entries)).error
              && ScriptArgs(input).error.InputRefNone?
  {
    if Entries(ScriptLines(input)).Ok? {
      var entries := Entries(ScriptLines(input)).value;
      UnresolvedRef(References(entries), Definitions(entries));
    }
  }

  /** A script whose lines classify and whose references resolve. */
  lemma ArgsOfResolved(input: string, entries: seq<InputEntry>, resolved: seq<ArgOperation>)
    requires input != [] && ScriptDefined(input) && Entries(ScriptLines(input)) == Ok(entries)
    requires ResolveRefs(References(entries), Definitions(entries)) == Ok(resolved)
    ensures ScriptArgs(input) ==
              Ok(Args(DirectOperations(entries) + resolved,
                      InputEntry.Option(Force) in entries, InputEntry.Option(Restart) in entries,
                      InputEntry.Option(Simulate) in entries, false))
  {
  }

  /** The referenced operations follow the direct ones. */
  lemma AppendedAfter(direct: seq<ArgOperation>, resolved: seq<ArgOperation>)
    ensures |direct + resolved| == |direct| + |resolved|
    ensures (direct + resolved)[..|direct|] == direct
    ensures forall k :: 0 <= k < |resolved| ==> (direct + resolved)[|direct| + k] == resolved[k]
  {
    assert (direct + resolved)[..|direct|] == direct;
  }

  /** Splits the input into lines, classifies them, collects the direct
      operations and appends the resolved references
      (src/parse.rs:142-241). */
  method ParseInput(input: string) returns (r: Result<Args>)
    requires ScriptDefined(input)
    ensures r == ScriptArgs(input)
  {
    if |input| == 0 {
      return Err(InputNone);
    }
    var pieces := Split(input, '\n');
    var lines := CleanLines(pieces);
    assert lines == ScriptLines(input);
    var entries :- Entries(lines);
    var defs := Definitions(entries);
    var operations := DirectOperations(entries);
    var resolved :- ResolveRefs(References(entries), defs);
    operations := operations + resolved;
    r := Ok(Args(operations,
                 InputEntry.Option(Force) in entries, InputEntry.Option(Restart) in entries,
                 InputEntry.Option(Simulate) in entries, false));
  }

  // ---------------------------------------------------------------------
  // Properties
  // ---------------------------------------------------------------------

  /** Only the option parser produces options. */
  lemma OptionEntry(line: string, o: ArgOption)
    requires LineDefined(line)
    ensures ClassifyLine(line) == Ok(InputEntry.Option(o)) <==> InputSpells(line, o)
  {
    ClassifyLineOrder(line);
  }

  /** A flag is raised exactly when one of the lines spells its option. */
  lemma ScriptFlagSpelled(lines: seq<string>, o: ArgOption)
    requires Collectable(lines, ClassifyLine)
    requires Entries(lines).Ok?
    ensures InputEntry.Option(o) in Entries(lines).value <==>
            exists k :: 0 <= k < |lines| && InputSpells(lines[k], o)
  {
    var entries := Entries(lines).value;
    if InputEntry.Option(o) in entries {
      var k :| 0 <= k < |entries| && entries[k] == InputEntry.Option(o);
      OptionEntry(lines[k], o);
    }
    if exists k :: 0 <= k < |lines| && InputSpells(lines[k], o) {
      var k :| 0 <= k < |lines| && InputSpells(lines[k], o);
      OptionEntry(lines[k], o);
    }
  }

  /** An assignment through a reference: the name runs up to the `=`. */
  lemma RefAssignment(name: string, valueText: string, value: nat)
    requires name != [] && '=' !in name && '=' !in valueText && valueText != []
    requires HexThenDec(valueText) == Ok(value)
    ensures !RefPanics("@" + name + "=" + valueText)
    ensures TargetRefOf("@" + name + "=" + valueText) == Ok(TargetReference(name, Set(value)))
  {
    TargetRefShape(name, valueText);
    AssignmentOf([], valueText, value);
    assert [] + "=" + valueText == "=" + valueText;
  }

  /** The name and the value of a reference, taken apart at the `=`. */
  lemma RefParts(name: string, valueText: string, rest: string)
    requires name != [] && rest == name + "=" + valueText
    ensures Substring(rest, 0, |name| - 1) == name
    ensures Substring(rest, |name|, |rest| - 1) == [] + "=" + valueText
  {
    assert rest[..|name|] == name && rest[|name|..] == "=" + valueText;
  }

  /** A script of one line, with no comment and nothing to trim. */
  lemma SingleLine(input: string)
    requires '\n' !in input && '#' !in input
    requires |input| > 0 && !IsBlank(input[0]) && !IsBlank(input[|input| - 1])
    ensures ScriptLines(input) == [input]
  {
    PiecesWithout(input, '\n');
    TrimmedUnchanged(input);
    assert [input][1..] == [];
  }

  lemma SingleEntry(line: string, e: InputEntry)
    requires LineDefined(line) && ClassifyLine(line) == Ok(e)
    ensures Entries([line]) == Ok([e])
  {
    var all := Entries([line]);
    assert [line][0] == line;
    assert all.Ok? && |all.value| == 1 && all.value[0] == e;
    assert all.value == [e];
  }

  /** A line that is neither an option nor a definition but an operation. */
  lemma OperationLine(line: string, op: ArgOperation)
    requires |line| > 0 && line[0] != '!' && line[0] != '@'
    requires ParseTargetDef(line).Err? && OperationOf(line) == Ok(op)
    ensures LineDefined(line) && ClassifyLine(line) == Ok(InputEntry.Operation(op))
  {
    assert forall o :: !InputSpells(line, o);
    ClassifyLineOrder(line);
  }

  /** A script holding a single operation. */
  lemma SingleOperationScript(input: string, op: ArgOperation)
    requires '\n' !in input && '#' !in input && ',' !in input
    requires |input| > 0 && !IsBlank(input[0]) && !IsBlank(input[|input| - 1])
    requires input[0] != '!' && input[0] != '@' && OperationOf(input) == Ok(op)
    ensures ScriptDefined(input)
    ensures ScriptArgs(input) == Ok(Args([op], false, false, false, false))
  {
    SingleLine(input);
    OperationLine(input, op);
    SingleEntry(input, InputEntry.Operation(op));
    var entries := [InputEntry.Operation(op)];
    OperationEntries(op, entries);
    ScriptOfEntries(input, entries);
  }

  /** The entries of a single operation line. */
  lemma OperationEntries(op: ArgOperation, entries: seq<InputEntry>)
    requires entries == [InputEntry.Operation(op)]
    ensures References(entries) == [] && DirectOperations(entries) == [op]
    ensures forall o :: InputEntry.Option(o) !in entries
  {
    assert entries[1..] == [];
  }

  /** A script whose lines classify and whose references all resolve. */
  lemma ScriptOfEntries(input: string, entries: seq<InputEntry>)
    requires input != [] && ScriptDefined(input) && Entries(ScriptLines(input)) == Ok(entries)
    requires References(entries) == []
    ensures ScriptArgs(input) ==
              Ok(Args(DirectOperations(entries), InputEntry.Option(Force) in entries,
                      InputEntry.Option(Restart) in entries, InputEntry.Option(Simulate) in entries, false))
  {
    assert ResolveRefs(References(entries), Definitions(entries)) == Ok([]);
    assert DirectOperations(entries) + [] == DirectOperations(entries);
  }

  /** A script of one line that no parser accepts fails with that line's
      error. */
  lemma ScriptOfRefusedLine(input: string, line: string)
    requires input != [] && ScriptLines(input) == [line]
    requires LineDefined(line) && ClassifyLine(line).Err?
    ensures ScriptDefined(input) && ScriptArgs(input) == Err(ClassifyLine(line).error)
  {
    SingleBadEntry(line);
  }

  lemma SingleBadEntry(line: string)
    requires LineDefined(line) && ClassifyLine(line).Err?
    ensures Entries([line]) == Err(ClassifyLine(line).error)
  {
    assert [line][0] == line;
  }

  /** A script whose lines classify but one of whose references does not
      resolve. */
  lemma ScriptOfUnresolved(input: string, entries: seq<InputEntry>)
    requires input != [] && ScriptDefined(input) && Entries(ScriptLines(input)) == Ok(entries)
    requires ResolveRefs(References(entries), Definitions(entries)).Err?
    ensures ScriptArgs(input) == Err(ResolveRefs(References(entries), Definitions(entries)).error)
  {
  }

  /** Only the text before the comment is kept, and trimming leaves a lone
      blank alone: ` # note` becomes the line ` `, which no parser accepts,
      and the whole script fails on it. */
  lemma LoneBlankLine(input: string)
    requires input == " # note"
    ensures CleanLine(input) == Some(" ")
    ensures ScriptDefined(input) && ScriptArgs(input) == Err(InputRef(" "))
  {
    var line := " ";
    LoneBlankLines(input, line);
    BlankLineRefused(line);
    ScriptOfRefusedLine(input, line);
  }

  /** ` # note` cleans to the single line ` `. */
  lemma LoneBlankLines(input: string, line: string)
    requires input == " # note" && line == " "
    ensures CleanLine(input) == Some(line)
    ensures ScriptLines(input) == [line]
  {
    assert input[0] == ' ' && input[1] == '#';
    assert '\n' !in input;
    assert FindFirst(input, '#') == Some(1);
    assert Substring(input, 0, 0) == line;
    assert AllBlank(line);
    PiecesWithout(input, '\n');
    assert [input][1..] == [];
  }

  /** The line ` ` is refused by every parser, the reference parser last. */
  lemma BlankLineRefused(line: string)
    requires line == " "
    ensures LineDefined(line) && ClassifyLine(line) == Err(InputRef(line))
  {
    assert ',' !in line && ':' !in line && line[0] == ' ';
    PiecesWithout(line, ':');
    ClassifyLineOrder(line);
  }

  /** A definition that assigns a value is refused as a definition. */
  lemma ValueDefinition(alias: string, target: string, op: ArgOperation)
    requires alias != [] && ',' !in alias && !IsBlank(alias[0]) && !IsBlank(alias[|alias| - 1])
    requires target != [] && !IsBlank(target[0]) && !IsBlank(target[|target| - 1])
    requires OperationOf(target) == Ok(op) && op.action.Set?
    ensures ParseTargetDef(alias + "," + target) == Err(InputDefSet(target))
  {
    SplitOnceAt(alias, target, ',');
  }

  /** `A,Lang:0x00=0x05` as an operation: the name holds the comma. */
  lemma CommaNamedOperation(line: string)
    requires line == "A,Lang:0x00=0x05"
    ensures OperationOf(line) == Ok(ArgOperation(Set(5), OperationTarget(None, "A,Lang", 0, 1)))
  {
    var name, rest, offset, value := "A,Lang", "0x00=0x05", "0x00", "0x05";
    CommaOperationText(line, name, rest, offset, value);
    HexFive(value);
    HexZero(offset);
    AssignmentOf(offset, value, 5);
    OperationOfParts(name, rest, (name, None), (offset, Set(5)), (offset, 1), 0);
  }

  /** `A,Lang:0x00=0x05` taken apart as the operation grammar reads it. */
  lemma CommaOperationText(line: string, name: string, rest: string, offset: string, value: string)
    requires line == "A,Lang:0x00=0x05" && name == "A,Lang" && rest == "0x00=0x05"
    requires offset == "0x00" && value == "0x05"
    ensures line == name + ":" + rest && rest == offset + "=" + value
    ensures ':' !in name && '(' !in name && '(' !in offset && '=' !in offset
    ensures ':' !in rest && '=' !in value
  {
  }

  /** `A,Lang:0x00=0x05` is refused as a definition, because its target
      assigns a value. */
  lemma CommaDefinitionRefused(line: string)
    requires line == "A,Lang:0x00=0x05"
    ensures ParseTargetDef(line) == Err(InputDefSet("Lang:0x00=0x05"))
  {
    var alias, target := "A", "Lang:0x00=0x05";
    CommaLine(line, alias, target);
    LangText(target);
    LangAssignment(target);
    ValueDefinition(alias, target, ArgOperation(Set(5), OperationTarget(None, "Lang", 0, 1)));
  }

  /** `A,Lang:0x00=0x05` read as a definition of `A`. */
  lemma CommaLine(line: string, alias: string, target: string)
    requires line == "A,Lang:0x00=0x05" && alias == "A" && target == "Lang:0x00=0x05"
    ensures line == alias + "," + target
    ensures alias != [] && ',' !in alias && !IsBlank(alias[0]) && !IsBlank(alias[|alias| - 1])
  {
  }

  /** `Lang:0x00=0x05` has nothing to trim. */
  lemma LangText(target: string)
    requires target == "Lang:0x00=0x05"
    ensures target != [] && !IsBlank(target[0]) && !IsBlank(target[|target| - 1])
  {
    assert target[0] == 'L' && target[|target| - 1] == '5';
  }

  /** `Lang:0x00=0x05` assigns 5 to a single byte. */
  lemma LangAssignment(target: string)
    requires target == "Lang:0x00=0x05"
    ensures OperationOf(target) == Ok(ArgOperation(Set(5), OperationTarget(None, "Lang", 0, 1)))
  {
    var value := "0x05";
    assert target == "Lang:0x00=" + value;
    assert '=' !in value && ':' !in value;
    HexFive(value);
    ByteAssignment(target, value, 5);
  }

  /** `A,Lang:0x00=0x05` is refused as a definition and then accepted as an
      operation on a variable whose name holds the comma. */
  lemma DefinitionWithValue(line: string)
    requires line == "A,Lang:0x00=0x05"
    ensures ParseTargetDef(line) == Err(InputDefSet("Lang:0x00=0x05"))
    ensures LineDefined(line)
    ensures ClassifyLine(line) ==
              Ok(InputEntry.Operation(ArgOperation(Set(5), OperationTarget(None, "A,Lang", 0, 1))))
  {
    assert line[0] == 'A';
    CommaDefinitionRefused(line);
    CommaNamedOperation(line);
    OperationLine(line, ArgOperation(Set(5), OperationTarget(None, "A,Lang", 0, 1)));
  }

  /** The line `@A` is a reference to `A` without an assignment. */
  lemma BareReference(input: string)
    requires input == "@A"
    ensures ScriptLines(input) == [input]
    ensures LineDefined(input) && ClassifyLine(input) == Ok(TargetReference("A", Get))
  {
    assert input[0] == '@' && input[1..] == "A" && |input| == 2;
    assert '\n' !in input && '#' !in input && ',' !in input && ':' !in input && '=' !in input;
    SingleLine(input);
    PiecesWithout(input, ':');
    ClassifyLineOrder(input);
  }

  /** A reference to an alias that no line defines is refused. */
  lemma UnknownReference(input: string)
    requires input == "@A"
    ensures ScriptDefined(input) && ScriptArgs(input) == Err(InputRefNone("A"))
  {
    BareReference(input);
    var entry := TargetReference("A", Get);
    SingleEntry(input, entry);
    var entries := [entry];
    ReferenceEntries(entries);
    ScriptOfUnresolved(input, entries);
  }

  /** The entries of a single reference line. */
  lemma ReferenceEntries(entries: seq<InputEntry>)
    requires entries == [TargetReference("A", Get)]
    ensures ResolveRefs(References(entries), Definitions(entries)) == Err(InputRefNone("A"))
  {
    assert entries[1..] == [];
    assert Definitions(entries) == [];
    assert References(entries) == [("A", Get)];
  }

  /** A line that would panic the reference parser is never reached when
      an earlier line fails: `x` followed by `@=5` fails on `x`. */
  lemma FailureBeforePanic(input: string)
    requires input == "x\n@=5"
    ensures RefPanics("@=5")
    ensures ScriptDefined(input) && ScriptArgs(input) == Err(InputRef("x"))
  {
    var first, second := "x", "@=5";
    assert input == first + ['\n'] + second;
    assert '\n' !in first && '\n' !in second;
    PiecesOfPair(first, second, '\n');
    CleanPair(first, second);
    FirstLineRefused(first);
    var lines := [first, second];
    assert lines[0] == first;
    assert Entries(lines) == Err(InputRef(first));
  }

  /** `x` and `@=5` keep their text when cleaned. */
  lemma CleanPair(first: string, second: string)
    requires first == "x" && second == "@=5"
    ensures CleanLines([first, second]) == [first, second]
  {
    assert '#' !in first && '#' !in second;
    assert first[0] == 'x' && second[0] == '@' && second[2] == '5';
    TrimmedUnchanged(first);
    TrimmedUnchanged(second);
    assert [first, second][1..] == [second];
    assert [second][1..] == [];
  }

  /** The line `x` is refused by every parser, the reference parser last. */
  lemma FirstLineRefused(line: string)
    requires line == "x"
    ensures LineDefined(line) && ClassifyLine(line) == Err(InputRef(line))
  {
    assert ',' !in line && ':' !in line && line[0] == 'x';
    PiecesWithout(line, ':');
    ClassifyLineOrder(line);
  }

  /** `Lang:0x00=0x101` assigns 257 to a single byte. */
  lemma WideByteOperation(input: string)
    requires input == "Lang:0x00=0x101"
    ensures OperationOf(input) == Ok(ArgOperation(Set(257), OperationTarget(None, "Lang", 0, 1)))
  {
    var value := "0x101";
    assert input == "Lang:0x00=" + value;
    assert '=' !in value && ':' !in value;
    HexHundredOne(value);
    ByteAssignment(input, value, 257);
  }

  /** `Lang:0x00=0x101` is a single line with nothing to strip. */
  lemma WideByteText(input: string)
    requires input == "Lang:0x00=0x101"
    ensures '\n' !in input && '#' !in input && ',' !in input
    ensures |input| > 0 && !IsBlank(input[0]) && !IsBlank(input[|input| - 1])
    ensures input[0] != '!' && input[0] != '@'
  {
    assert input[0] == 'L' && input[|input| - 1] == '1';
  }

  /** A script is never validated: an assignment that the command line
      refuses as too wide for its size is accepted from a script. */
  lemma ScriptSkipsValidation(input: string)
    requires input == "Lang:0x00=0x101"
    ensures CommandLine.ArgsOf([input]) == Err(ArgSizeMismatch(257, 1))
    ensures ScriptDefined(input)
    ensures ScriptArgs(input) ==
              Ok(Args([ArgOperation(Set(257), OperationTarget(None, "Lang", 0, 1))], false, false, false, false))
  {
    CommandLine.SingleByteRefused(input);
    WideByteOperation(input);
    WideByteText(input);
    SingleOperationScript(input, ArgOperation(Set(257), OperationTarget(None, "Lang", 0, 1)));
  }
}
