/** The shell's pipeline parser: a second pass that turns tokens into stages and redirections. */
module ShellParser {
  import opened Basics
  import opened ShellLexer

  datatype Command = Command(argv: seq<string>, input: Option<string>, output: Option<string>, append: bool)

  datatype Pipeline = Pipeline(commands: seq<Command>, background: bool)

  const EMPTY_COMMAND: Command := Command([], None, None, false)
  const EMPTY_PIPELINE: Pipeline := Pipeline([], false)

  predicate IsRedirection(t: Token) { t == In || t == Out || t == Append }

  // ----- The pass over the tokens -----

  function Redirect(cmd: Command, t: Token, path: string): (r: Result<Command, Error>)
    requires IsRedirection(t)
  {
    if t == In then
      if cmd.input.Some? then Err(TwoInputs) else Ok(cmd.(input := Some(path)))
    else
      if cmd.output.Some? then Err(TwoOutputs) else Ok(cmd.(output := Some(path), append := t == Append))
  }

  /** Parse the tokens ts that follow the stages done and the started stage cmd. */
  function Build(ts: seq<Token>, done: seq<Command>, cmd: Command): (r: Result<Pipeline, Error>)
    decreases |ts|
  {
    if ts == [] then Ok(Pipeline(done + [cmd], false))
    else match ts[0]
      case Word(text) => Build(ts[1..], done, cmd.(argv := cmd.argv + [text]))
      case Pipe =>
        if cmd.argv == [] then Err(EmptyBeforePipe)
        else if |ts| == 1 then Err(PipeAtEnd)
        else Build(ts[1..], done + [cmd], EMPTY_COMMAND)
      case Background =>
        if |ts| != 1 then Err(MisplacedBackground) else Ok(Pipeline(done + [cmd], true))
      case _ =>
        if |ts| < 2 || !ts[1].Word? then Err(MissingPath)
        else match Redirect(cmd, ts[0], ts[1].text)
          case Err(e) => Err(e)
          case Ok(next) => Build(ts[2..], done, next)
  }

  /** The first complaint about the stages from the i-th on. */
  function Complaint(cs: seq<Command>, i: nat): (r: Option<Error>)
    requires i <= |cs|
    decreases |cs| - i
  {
    if i == |cs| then None
    else if cs[i].argv == [] then Some(EmptyCommand)
    else if i > 0 && cs[i].input.Some? then Some(InputNotFirst)
    else if i + 1 < |cs| && cs[i].output.Some? then Some(OutputNotLast)
    else Complaint(cs, i + 1)
  }

  function ParseTokens(ts: seq<Token>): (r: Result<Pipeline, Error>) {
    if ts == [] then Ok(EMPTY_PIPELINE)
    else match Build(ts, [], EMPTY_COMMAND)
      case Err(e) => Err(e)
      case Ok(p) =>
        match Complaint(p.commands, 0)
        case Some(e) => Err(e)
        case None => Ok(p)
  }

  function Parse(line: string): (r: Result<Pipeline, Error>) {
    match Lex(line)
    case Err(e) => Err(e)
    case Ok(ts) => ParseTokens(ts)
  }

  // ----- shell_parse_line -----

  class ShellPipeline {
    var commands: seq<Command>
    var background: bool

    function Value(): (r: Pipeline) reads this { Pipeline(commands, background) }

    constructor ()
      ensures Value() == EMPTY_PIPELINE
    {
      commands, background := [], false;
    }

    method Reset()
      modifies this
      ensures Value() == EMPTY_PIPELINE
    {
      commands, background := [], false;
    }

    /** The new value is the parsed pipeline, or empty after an error. */
    method ParseLine(line: string) returns (r: Result<(), Error>)
      requires '\0' !in line
      modifies this
      ensures r.Ok? ==> Parse(line) == Ok(Value())
      ensures r.Err? ==> Parse(line) == Err(r.error) && Value() == EMPTY_PIPELINE
    {
      Reset();
      var lexed := Tokenize(line);
      if lexed.Err? {
        return Err(lexed.error);
      }
      var tokens := lexed.value;
      if |tokens| == 0 {
        return Ok(());
      }
      r := BuildStages(tokens);
      if r.Ok? {
        var complaint := CheckStages();
        if complaint.Some? {
          r := Err(complaint.value);
        }
      }
      if r.Err? {
        Reset();
      }
    }

    method CheckStages() returns (r: Option<Error>)
      ensures r == Complaint(commands, 0)
    {
      var i := 0;
      while i < |commands|
        invariant 0 <= i <= |commands|
        invariant Complaint(commands, i) == Complaint(commands, 0)
      {
        if commands[i].argv == [] {
          return Some(EmptyCommand);
        }
        if i > 0 && commands[i].input.Some? {
          return Some(InputNotFirst);
        }
        if i + 1 < |commands| && commands[i].output.Some? {
          return Some(OutputNotLast);
        }
        i := i + 1;
      }
      return None;
    }

    /** The stages before the current one, and the current one. */
    function Done(): (r: seq<Command>)
      requires commands != []
      reads this
    {
      commands[..|commands| - 1]
    }

    function Current(): (r: Command)
      requires commands != []
      reads this
    {
      commands[|commands| - 1]
    }

    method SetCurrent(cmd: Command)
      requires commands != []
      modifies this`commands
      ensures commands != [] && Done() == old(Done()) && Current() == cmd
    {
      commands := commands[|commands| - 1 := cmd];
    }

    method AddStage()
      requires commands != []
      modifies this`commands
      ensures commands != [] && Done() == old(Done()) + [old(Current())] && Current() == EMPTY_COMMAND
    {
      commands := commands + [EMPTY_COMMAND];
    }

    /** The stages so far and the tokens from i on make up the goal. */
    ghost predicate Progress(tokens: seq<Token>, i: nat, goal: Result<Pipeline, Error>)
      reads this
    {
      && commands != [] && i <= |tokens|
      && if background then i == |tokens| && goal == Ok(Value()) else Build(tokens[i..], Done(), Current()) == goal
    }

    /** At the end nothing is left to build. */
    lemma Finished(tokens: seq<Token>, goal: Result<Pipeline, Error>)
      requires Progress(tokens, |tokens|, goal)
      ensures goal == Ok(Value())
    {
      assert Done() + [Current()] == commands;
    }

    /** One turn of the token loop: the number of tokens consumed, or an error. */
    method TakeToken(tokens: seq<Token>, i: nat, ghost goal: Result<Pipeline, Error>) returns (r: Result<nat, Error>)
      requires i < |tokens| && Progress(tokens, i, goal)
      modifies this
      ensures r.Err? ==> goal == Err(r.error)
      ensures r.Ok? ==> 0 < r.value && Progress(tokens, i + r.value, goal)
    {
      ghost var rest := tokens[i..];
      assert rest[1..] == tokens[i + 1..];
      match tokens[i] {
        case Word(text) =>
          SetCurrent(Current().(argv := Current().argv + [text]));
          return Ok(1);
        case Pipe =>
          if Current().argv == [] {
            return Err(EmptyBeforePipe);
          }
          if i + 1 == |tokens| {
            return Err(PipeAtEnd);
          }
          AddStage();
          return Ok(1);
        case Background =>
          if i + 1 != |tokens| {
            return Err(MisplacedBackground);
          }
          assert Done() + [Current()] == commands;
          background := true;
          return Ok(1);
        case _ =>
          r := TakeRedirection(tokens, i, goal);
      }
    }

    method TakeRedirection(tokens: seq<Token>, i: nat, ghost goal: Result<Pipeline, Error>) returns (r: Result<nat, Error>)
      requires i < |tokens| && IsRedirection(tokens[i]) && commands != []
      requires Build(tokens[i..], Done(), Current()) == goal
      modifies this`commands
      ensures r.Err? ==> goal == Err(r.error)
      ensures r.Ok? ==> r.value == 2 && i + 2 <= |tokens| && commands != []
      ensures r.Ok? ==> Build(tokens[i + 2..], Done(), Current()) == goal
    {
      ghost var rest := tokens[i..];
      if i + 1 >= |tokens| || !tokens[i + 1].Word? {
        return Err(MissingPath);
      }
      assert rest[2..] == tokens[i + 2..];
      var next := Redirect(Current(), tokens[i], tokens[i + 1].text);
      if next.Err? {
        return Err(next.error);
      }
      SetCurrent(next.value);
      return Ok(2);
    }

    method BuildStages(tokens: seq<Token>) returns (r: Result<(), Error>)
      requires Value() == EMPTY_PIPELINE
      modifies this
      ensures r.Ok? ==> Build(tokens, [], EMPTY_COMMAND) == Ok(Value())
      ensures r.Err? ==> Build(tokens, [], EMPTY_COMMAND) == Err(r.error)
    {
      ghost var goal := Build(tokens, [], EMPTY_COMMAND);
      commands := [EMPTY_COMMAND];
      assert tokens[0..] == tokens && Done() == [];
      var i := 0;
      while i < |tokens|
        invariant 0 <= i <= |tokens| && Progress(tokens, i, goal)
        decreases |tokens| - i
      {
        var step := TakeToken(tokens, i, goal);
        if step.Err? {
          return Err(step.error);
        }
        i := i + step.value;
      }
      Finished(tokens, goal);
      return Ok(());
    }
  }

  // ----- Well-formed pipelines -----

  ghost predicate WellFormed(p: Pipeline) {
    && p.commands != []
    && (forall i :: 0 <= i < |p.commands| ==> p.commands[i].argv != [])
    && (forall i :: 0 < i < |p.commands| ==> p.commands[i].input.None?)
    && (forall i :: 0 <= i < |p.commands| - 1 ==> p.commands[i].output.None?)
    && (forall i :: 0 <= i < |p.commands| ==> p.commands[i].append ==> p.commands[i].output.Some?)
  }

  ghost predicate Placed(cs: seq<Command>, i: nat) {
    forall k :: i <= k < |cs| ==>
      cs[k].argv != [] && (k > 0 ==> cs[k].input.None?) && (k + 1 < |cs| ==> cs[k].output.None?)
  }

  lemma {:induction false} ComplaintExact(cs: seq<Command>, i: nat)
    requires i <= |cs|
    ensures Complaint(cs, i).None? <==> Placed(cs, i)
    decreases |cs| - i
  {
    if i < |cs| {
      ComplaintExact(cs, i + 1);
    }
  }

  predicate AppendsHaveOutput(cs: seq<Command>) { forall i :: 0 <= i < |cs| ==> cs[i].append ==> cs[i].output.Some? }

  lemma {:induction false} BuildKeeps(ts: seq<Token>, done: seq<Command>, cmd: Command)
    requires AppendsHaveOutput(done + [cmd])
    ensures Build(ts, done, cmd).Ok? ==> Build(ts, done, cmd).value.commands != []
    ensures Build(ts, done, cmd).Ok? ==> AppendsHaveOutput(Build(ts, done, cmd).value.commands)
    decreases |ts|
  {
    if ts != [] {
      match ts[0]
      case Word(text) =>
        var next := cmd.(argv := cmd.argv + [text]);
        ReplaceLast(done, cmd, next);
        BuildKeeps(ts[1..], done, next);
      case Pipe =>
        if cmd.argv != [] && |ts| > 1 {
          BuildKeeps(ts[1..], done + [cmd], EMPTY_COMMAND);
        }
      case Background =>
      case _ =>
        if |ts| >= 2 && ts[1].Word? && Redirect(cmd, ts[0], ts[1].text).Ok? {
          var next := Redirect(cmd, ts[0], ts[1].text).value;
          ReplaceLast(done, cmd, next);
          BuildKeeps(ts[2..], done, next);
        }
    }
  }

  lemma ReplaceLast(done: seq<Command>, cmd: Command, next: Command)
    requires AppendsHaveOutput(done + [cmd]) && ((cmd.append ==> cmd.output.Some?) ==> next.append ==> next.output.Some?)
    ensures AppendsHaveOutput(done + [next])
  {
    assert (done + [cmd])[|done|] == cmd;
    forall i | 0 <= i < |done|
      ensures done[i].append ==> done[i].output.Some?
    {
      assert (done + [cmd])[i] == done[i];
    }
  }

  /** Every successful parse that yields a stage yields a well-formed pipeline. */
  lemma ParsedIsWellFormed(line: string)
    requires Parse(line).Ok? && Parse(line).value.commands != []
    ensures WellFormed(Parse(line).value)
  {
    var ts := Lex(line).value;
    BuildKeeps(ts, [], EMPTY_COMMAND);
    ComplaintExact(Parse(line).value.commands, 0);
  }

  /** A line without tokens is the only one that parses to nothing. */
  lemma ParsedEmpty(line: string)
    ensures Parse(line).Ok? && Parse(line).value.commands == [] <==> Lex(line) == Ok([])
  {
    if Lex(line).Ok? {
      BuildKeeps(Lex(line).value, [], EMPTY_COMMAND);
    }
  }
}
