/** Exactly which lines the shell's parser accepts, what it makes of them, and why it refuses the others. */
module ShellGrammar {
  import opened Basics
  import opened ShellLexer
  import opened ShellParser
  import opened ShellPrinter
  import opened ShellStages

  // ----- Lines as stages -----

  /** The stages after the first, each behind its pipe. */
  function MoreTokens(stages: seq<seq<Item>>): (r: seq<Token>) {
    if stages == [] then [] else [Pipe] + (ItemTokens(stages[0]) + MoreTokens(stages[1..]))
  }

  /** Stages separated by pipes. */
  function LineTokens(stages: seq<seq<Item>>): (r: seq<Token>)
    requires stages != []
  {
    ItemTokens(stages[0]) + MoreTokens(stages[1..])
  }

  /** What the stages after the first mean. */
  function Commands(stages: seq<seq<Item>>): (r: seq<Command>)
    ensures |r| == |stages| && forall i :: 0 <= i < |r| ==> r[i] == With(EMPTY_COMMAND, stages[i])
  {
    if stages == [] then [] else [With(EMPTY_COMMAND, stages[0])] + Commands(stages[1..])
  }

  /** Every stage fits, every stage before a pipe has a word, and something follows every pipe. */
  predicate Sound(cmd: Command, first: seq<Item>, rest: seq<seq<Item>>, tail: seq<Token>)
    decreases |rest|
  {
    && ValidItems(first) && Fits(cmd, first)
    && (rest != [] ==>
          && With(cmd, first).argv != []
          && ItemTokens(rest[0]) + (MoreTokens(rest[1..]) + tail) != []
          && Sound(EMPTY_COMMAND, rest[0], rest[1..], tail))
  }

  /** The tokens that follow the command under construction make the parser give up with this error. */
  predicate Blames(cmd: Command, tail: seq<Token>, e: Error) {
    && tail != []
    && match e
      case EmptyBeforePipe => tail[0].Pipe? && cmd.argv == []
      case PipeAtEnd => tail == [Pipe] && cmd.argv != []
      case MisplacedBackground => tail[0].Background? && |tail| > 1
      case MissingPath => IsRedirection(tail[0]) && (|tail| == 1 || !tail[1].Word?)
      case TwoInputs => |tail| > 1 && tail[0].In? && tail[1].Word? && cmd.input.Some?
      case TwoOutputs => |tail| > 1 && (tail[0].Out? || tail[0].Append?) && tail[1].Word? && cmd.output.Some?
      case _ => false
  }

  // ----- From stages to the parse -----

  lemma BuildLast(first: seq<Item>, tail: seq<Token>, done: seq<Command>, cmd: Command)
    requires ValidItems(first) && Fits(cmd, first)
    ensures Build(ItemTokens(first) + (MoreTokens([]) + tail), done, cmd) == Build(tail, done, With(cmd, first))
  {
    assert MoreTokens([]) + tail == tail;
    StageMeaning(first, tail, done, cmd);
  }

  lemma BuildFirst(first: seq<Item>, rest: seq<seq<Item>>, tail: seq<Token>, done: seq<Command>, cmd: Command)
    requires Sound(cmd, first, rest, tail) && rest != []
    ensures Build(ItemTokens(first) + (MoreTokens(rest) + tail), done, cmd)
      == Build(ItemTokens(rest[0]) + (MoreTokens(rest[1..]) + tail), done + [With(cmd, first)], EMPTY_COMMAND)
  {
    var more := ItemTokens(rest[0]) + (MoreTokens(rest[1..]) + tail);
    assert MoreTokens(rest) + tail == [Pipe] + more;
    StageMeaning(first, [Pipe] + more, done, cmd);
    BuildPipe(more, done, With(cmd, first));
  }

  lemma {:induction false} BuildOn(first: seq<Item>, rest: seq<seq<Item>>, tail: seq<Token>, done: seq<Command>, cmd: Command,
                                   before: seq<Command>, last: Command)
    requires Sound(cmd, first, rest, tail) && before + [last] == [With(cmd, first)] + Commands(rest)
    ensures Build(ItemTokens(first) + (MoreTokens(rest) + tail), done, cmd) == Build(tail, done + before, last)
    decreases |rest|
  {
    if rest == [] {
      assert (before + [last])[0] == With(cmd, first);
      assert before == [] && done + before == done;
      BuildLast(first, tail, done, cmd);
    } else {
      BuildFirst(first, rest, tail, done, cmd);
      MoveHead(done, before, last, With(cmd, first), Commands(rest));
      BuildOn(rest[0], rest[1..], tail, done + [With(cmd, first)], EMPTY_COMMAND, before[1..], last);
    }
  }

  lemma MoveHead<T>(done: seq<T>, before: seq<T>, last: T, head: T, rest: seq<T>)
    requires before + [last] == [head] + rest && rest != []
    ensures before != [] && before[1..] + [last] == rest && (done + [head]) + before[1..] == done + before
  {
    assert (before + [last])[0] == head;
    assert (before + [last])[1..] == before[1..] + [last];
  }

  lemma BlamedFails(tail: seq<Token>, done: seq<Command>, cmd: Command, e: Error)
    requires Blames(cmd, tail, e)
    ensures Build(tail, done, cmd) == Err(e)
  {
  }

  // ----- From the parse to stages -----

  /** How the parse of tokens ended with r: the stages read, the rest of the tokens, and the verdict on it. */
  ghost predicate Explained(r: Result<Pipeline, Error>, ts: seq<Token>, done: seq<Command>, cmd: Command,
                            first: seq<Item>, rest: seq<seq<Item>>, tail: seq<Token>)
  {
    && ts == ItemTokens(first) + (MoreTokens(rest) + tail)
    && Sound(cmd, first, rest, tail)
    && Verdict(r, done, [With(cmd, first)] + Commands(rest), tail)
  }

  ghost predicate Verdict(r: Result<Pipeline, Error>, done: seq<Command>, read: seq<Command>, tail: seq<Token>)
    requires read != []
  {
    match r
    case Ok(p) => tail == EndTokens(p.background) && p.commands == done + read
    case Err(e) => Blames(read[|read| - 1], tail, e)
  }

  lemma WithNothing(cmd: Command)
    ensures With(cmd, []) == cmd && Fits(cmd, []) && ValidItems([])
  {
    assert cmd.argv + [] == cmd.argv;
  }

  /** The parser can go on with the first tokens. */
  predicate GoesOn(ts: seq<Token>, cmd: Command) {
    && ts != []
    && (|| ts[0].Word?
        || (|ts| > 1 && ts[0].Pipe? && cmd.argv != [])
        || (|ts| > 1 && IsRedirection(ts[0]) && ts[1].Word? && Redirect(cmd, ts[0], ts[1].text).Ok?))
  }

  lemma EndsHere(ts: seq<Token>, done: seq<Command>, cmd: Command)
    requires !GoesOn(ts, cmd)
    ensures Verdict(Build(ts, done, cmd), done, [cmd], ts)
  {
  }

  lemma ExplainedEnd(ts: seq<Token>, done: seq<Command>, cmd: Command)
    requires !GoesOn(ts, cmd)
    ensures Explained(Build(ts, done, cmd), ts, done, cmd, [], [], ts)
  {
    EndsHere(ts, done, cmd);
    WithNothing(cmd);
    assert ItemTokens([]) + (MoreTokens([]) + ts) == ts;
    assert [cmd] + Commands([]) == [cmd];
  }

  lemma ExplainedWord(r: Result<Pipeline, Error>, word: string, ts: seq<Token>, done: seq<Command>, cmd: Command,
                      first: seq<Item>, rest: seq<seq<Item>>, tail: seq<Token>)
    requires Explained(r, ts, done, cmd.(argv := cmd.argv + [word]), first, rest, tail)
    ensures Explained(r, [Word(word)] + ts, done, cmd, [Argument(word)] + first, rest, tail)
  {
    var items := [Argument(word)] + first;
    WithArgument(cmd, word, first);
    assert items[1..] == first;
    assert ItemTokens(items) + (MoreTokens(rest) + tail) == [Word(word)] + ts;
  }

  lemma ExplainedRedirection(r: Result<Pipeline, Error>, t: Token, path: string, ts: seq<Token>, done: seq<Command>,
                             cmd: Command, next: Command, first: seq<Item>, rest: seq<seq<Item>>, tail: seq<Token>)
    requires IsRedirection(t) && Redirect(cmd, t, path) == Ok(next)
    requires Explained(r, ts, done, next, first, rest, tail)
    ensures Explained(r, [t, Word(path)] + ts, done, cmd, [Redirection(t, path)] + first, rest, tail)
  {
    var items := [Redirection(t, path)] + first;
    WithRedirection(cmd, t, path, first);
    assert items[1..] == first;
    assert ItemTokens(items) + (MoreTokens(rest) + tail) == [t, Word(path)] + ts;
  }

  lemma VerdictPipe(r: Result<Pipeline, Error>, done: seq<Command>, cmd: Command, later: seq<Command>, tail: seq<Token>)
    requires later != [] && Verdict(r, done + [cmd], later, tail)
    ensures Verdict(r, done, [cmd] + later, tail)
  {
    assert (done + [cmd]) + later == done + ([cmd] + later);
    assert ([cmd] + later)[|later|] == later[|later| - 1];
  }

  lemma ConsStage(first: seq<Item>, rest: seq<seq<Item>>, tail: seq<Token>)
    ensures ([first] + rest)[1..] == rest && Commands([first] + rest) == [With(EMPTY_COMMAND, first)] + Commands(rest)
    ensures ItemTokens([]) + (MoreTokens([first] + rest) + tail) == [Pipe] + (ItemTokens(first) + (MoreTokens(rest) + tail))
  {
    assert ([first] + rest)[1..] == rest;
  }

  lemma ExplainedPipe(r: Result<Pipeline, Error>, ts: seq<Token>, done: seq<Command>, cmd: Command,
                      first: seq<Item>, rest: seq<seq<Item>>, tail: seq<Token>)
    requires cmd.argv != [] && ts != []
    requires Explained(r, ts, done + [cmd], EMPTY_COMMAND, first, rest, tail)
    ensures Explained(r, [Pipe] + ts, done, cmd, [], [first] + rest, tail)
  {
    WithNothing(cmd);
    ConsStage(first, rest, tail);
    VerdictPipe(r, done, cmd, [With(EMPTY_COMMAND, first)] + Commands(rest), tail);
  }

  /** Every list of tokens is explained. */
  lemma {:induction false} Decompose(ts: seq<Token>, done: seq<Command>, cmd: Command)
      returns (first: seq<Item>, rest: seq<seq<Item>>, tail: seq<Token>)
    ensures Explained(Build(ts, done, cmd), ts, done, cmd, first, rest, tail)
    decreases |ts|, 1
  {
    if !GoesOn(ts, cmd) {
      ExplainedEnd(ts, done, cmd);
      first, rest, tail := [], [], ts;
    } else if ts[0].Word? {
      assert ts == [Word(ts[0].text)] + ts[1..];
      first, rest, tail := DecomposeWord(ts[0].text, ts[1..], done, cmd);
    } else if ts[0].Pipe? {
      assert ts == [Pipe] + ts[1..];
      first, rest, tail := DecomposePipe(ts[1..], done, cmd);
    } else {
      assert ts == [ts[0], Word(ts[1].text)] + ts[2..];
      first, rest, tail := DecomposeRedirection(ts[0], ts[1].text, ts[2..], done, cmd, Redirect(cmd, ts[0], ts[1].text).value);
    }
  }

  lemma {:induction false} DecomposeWord(word: string, ts: seq<Token>, done: seq<Command>, cmd: Command)
      returns (first: seq<Item>, rest: seq<seq<Item>>, tail: seq<Token>)
    ensures Explained(Build([Word(word)] + ts, done, cmd), [Word(word)] + ts, done, cmd, first, rest, tail)
    decreases |ts|, 2
  {
    var next := cmd.(argv := cmd.argv + [word]);
    first, rest, tail := Decompose(ts, done, next);
    BuildWord(word, ts, done, cmd);
    ExplainedWord(Build(ts, done, next), word, ts, done, cmd, first, rest, tail);
    first := [Argument(word)] + first;
  }

  lemma {:induction false} DecomposePipe(ts: seq<Token>, done: seq<Command>, cmd: Command)
      returns (first: seq<Item>, rest: seq<seq<Item>>, tail: seq<Token>)
    requires ts != [] && cmd.argv != []
    ensures Explained(Build([Pipe] + ts, done, cmd), [Pipe] + ts, done, cmd, first, rest, tail)
    decreases |ts|, 2
  {
    first, rest, tail := Decompose(ts, done + [cmd], EMPTY_COMMAND);
    BuildPipe(ts, done, cmd);
    ExplainedPipe(Build(ts, done + [cmd], EMPTY_COMMAND), ts, done, cmd, first, rest, tail);
    first, rest := [], [first] + rest;
  }

  lemma {:induction false} DecomposeRedirection(t: Token, path: string, ts: seq<Token>, done: seq<Command>,
                                                cmd: Command, next: Command)
      returns (first: seq<Item>, rest: seq<seq<Item>>, tail: seq<Token>)
    requires IsRedirection(t) && Redirect(cmd, t, path) == Ok(next)
    ensures Explained(Build([t, Word(path)] + ts, done, cmd), [t, Word(path)] + ts, done, cmd, first, rest, tail)
    decreases |ts|, 2
  {
    first, rest, tail := Decompose(ts, done, next);
    BuildRedirection(t, path, ts, done, cmd);
    ExplainedRedirection(Build(ts, done, next), t, path, ts, done, cmd, next, first, rest, tail);
    first := [Redirection(t, path)] + first;
  }

  // ----- Accepted lines -----

  /** One stage for each command, with its words and at most one redirection each way. */
  predicate Denotes(stages: seq<seq<Item>>, p: Pipeline) {
    && |stages| == |p.commands|
    && forall i :: 0 <= i < |stages| ==>
      ValidItems(stages[i]) && Fits(EMPTY_COMMAND, stages[i]) && p.commands[i] == With(EMPTY_COMMAND, stages[i])
  }

  lemma {:induction false} SoundFits(cmd: Command, first: seq<Item>, rest: seq<seq<Item>>, tail: seq<Token>, i: nat)
    requires Sound(cmd, first, rest, tail) && i < |rest|
    ensures ValidItems(rest[i]) && Fits(EMPTY_COMMAND, rest[i])
    decreases |rest|
  {
    if i > 0 {
      SoundFits(EMPTY_COMMAND, rest[0], rest[1..], tail, i - 1);
    }
  }

  predicate Wordy(items: seq<Item>) {
    ValidItems(items) && Fits(EMPTY_COMMAND, items) && With(EMPTY_COMMAND, items).argv != []
  }

  lemma WordyHasTokens(items: seq<Item>)
    requires Wordy(items)
    ensures ItemTokens(items) != []
  {
    if items == [] {
      WithNothing(EMPTY_COMMAND);
    }
  }

  lemma {:induction false} WordySound(first: seq<Item>, rest: seq<seq<Item>>, tail: seq<Token>)
    requires Wordy(first) && forall i :: 0 <= i < |rest| ==> Wordy(rest[i])
    ensures Sound(EMPTY_COMMAND, first, rest, tail)
    decreases |rest|
  {
    if rest != [] {
      WordyHasTokens(rest[0]);
      WordySound(rest[0], rest[1..], tail);
    }
  }

  lemma StagesOf(first: seq<Item>, rest: seq<seq<Item>>, tail: seq<Token>)
    ensures ([first] + rest)[1..] == rest
    ensures LineTokens([first] + rest) + tail == ItemTokens(first) + (MoreTokens(rest) + tail)
    ensures Commands([first] + rest) == [With(EMPTY_COMMAND, first)] + Commands(rest)
  {
    assert ([first] + rest)[1..] == rest;
  }

  lemma BuiltDenotes(ts: seq<Token>, p: Pipeline) returns (stages: seq<seq<Item>>)
    requires Build(ts, [], EMPTY_COMMAND) == Ok(p)
    ensures stages != [] && Denotes(stages, p) && ts == LineTokens(stages) + EndTokens(p.background)
  {
    var first, rest, tail := Decompose(ts, [], EMPTY_COMMAND);
    stages := [first] + rest;
    StagesOf(first, rest, tail);
    assert [] + Commands(stages) == Commands(stages);
    forall i | 0 <= i < |stages|
      ensures ValidItems(stages[i]) && Fits(EMPTY_COMMAND, stages[i])
    {
      if i > 0 {
        SoundFits(EMPTY_COMMAND, first, rest, tail, i - 1);
      }
    }
  }

  lemma DenotedWordy(stages: seq<seq<Item>>, p: Pipeline)
    requires stages != [] && Denotes(stages, p) && Placed(p.commands, 0)
    ensures Sound(EMPTY_COMMAND, stages[0], stages[1..], EndTokens(p.background))
    ensures p.commands == [With(EMPTY_COMMAND, stages[0])] + Commands(stages[1..])
  {
    forall i | 0 <= i < |stages|
      ensures Wordy(stages[i])
    {
      assert p.commands[i].argv != [];
    }
    WordySound(stages[0], stages[1..], EndTokens(p.background));
  }

  lemma SplitLast<T>(all: seq<T>, n: nat)
    requires |all| == n + 1
    ensures all[..n] + [all[n]] == all
  {
  }

  lemma SplitStages(stages: seq<seq<Item>>, tail: seq<Token>, n: nat)
    requires |stages| == n + 1
    ensures Commands(stages)[..n] + [Commands(stages)[n]] == [With(EMPTY_COMMAND, stages[0])] + Commands(stages[1..])
    ensures LineTokens(stages) + tail == ItemTokens(stages[0]) + (MoreTokens(stages[1..]) + tail)
  {
    SplitLast(Commands(stages), n);
    Regroup(ItemTokens(stages[0]), MoreTokens(stages[1..]), tail);
  }

  /** Sound stages are read, and the parse goes on behind them. */
  lemma BuildAll(stages: seq<seq<Item>>, tail: seq<Token>, n: nat)
    requires |stages| == n + 1 && Sound(EMPTY_COMMAND, stages[0], stages[1..], tail)
    ensures Build(LineTokens(stages) + tail, [], EMPTY_COMMAND) == Build(tail, Commands(stages)[..n], Commands(stages)[n])
  {
    SplitStages(stages, tail, n);
    BuildOn(stages[0], stages[1..], tail, [], EMPTY_COMMAND, Commands(stages)[..n], Commands(stages)[n]);
    assert [] + Commands(stages)[..n] == Commands(stages)[..n];
  }

  lemma BuildEnd(background: bool, done: seq<Command>, cmd: Command)
    ensures Build(EndTokens(background), done, cmd) == Ok(Pipeline(done + [cmd], background))
  {
  }

  lemma BuildWhole(stages: seq<seq<Item>>, background: bool, n: nat)
    requires |stages| == n + 1 && Sound(EMPTY_COMMAND, stages[0], stages[1..], EndTokens(background))
    ensures Build(LineTokens(stages) + EndTokens(background), [], EMPTY_COMMAND) == Ok(Pipeline(Commands(stages), background))
  {
    BuildAll(stages, EndTokens(background), n);
    BuildEnd(background, Commands(stages)[..n], Commands(stages)[n]);
    SplitLast(Commands(stages), n);
  }

  lemma DenotedBuilds(stages: seq<seq<Item>>, p: Pipeline)
    requires stages != [] && Denotes(stages, p) && Placed(p.commands, 0)
    ensures Build(LineTokens(stages) + EndTokens(p.background), [], EMPTY_COMMAND) == Ok(p)
  {
    DenotedWordy(stages, p);
    BuildWhole(stages, p.background, |stages| - 1);
    assert Commands(stages) == p.commands;
  }

  lemma FirstHasTokens(stages: seq<seq<Item>>, p: Pipeline)
    requires stages != [] && Denotes(stages, p) && Placed(p.commands, 0)
    ensures LineTokens(stages) != []
  {
    assert p.commands[0].argv != [];
    WordyHasTokens(stages[0]);
  }

  /**
   A line parses to a pipeline exactly if its tokens are those of one stage for each command, separated by pipes and
   followed by & exactly for a background pipeline, where each stage has a word, at most one redirection each way,
   input only on the first stage and output only on the last, and each command is what its stage says.
   */
  lemma ParseExact(line: string, p: Pipeline)
    requires p.commands != []
    ensures Parse(line) == Ok(p) <==>
      Placed(p.commands, 0)
      && exists stages :: stages != [] && Denotes(stages, p) && Lex(line) == Ok(LineTokens(stages) + EndTokens(p.background))
  {
    if Parse(line) == Ok(p) {
      ComplaintExact(p.commands, 0);
      var stages := BuiltDenotes(Lex(line).value, p);
    }
    if Placed(p.commands, 0) {
      ComplaintExact(p.commands, 0);
      forall stages | stages != [] && Denotes(stages, p) && Lex(line) == Ok(LineTokens(stages) + EndTokens(p.background))
        ensures Parse(line) == Ok(p)
      {
        DenotedBuilds(stages, p);
        FirstHasTokens(stages, p);
      }
    }
  }

  // ----- Refused lines -----

  /** After sound stages comes a token at which the parser gives up with this error. */
  ghost predicate Refused(ts: seq<Token>, e: Error) {
    exists stages, tail :: StopsAt(ts, stages, tail) && Blames(With(EMPTY_COMMAND, stages[|stages| - 1]), tail, e)
  }

  ghost predicate StopsAt(ts: seq<Token>, stages: seq<seq<Item>>, tail: seq<Token>) {
    stages != [] && Sound(EMPTY_COMMAND, stages[0], stages[1..], tail) && ts == LineTokens(stages) + tail
  }

  lemma RefusedFails(ts: seq<Token>, stages: seq<seq<Item>>, tail: seq<Token>, e: Error)
    requires StopsAt(ts, stages, tail) && Blames(With(EMPTY_COMMAND, stages[|stages| - 1]), tail, e)
    ensures Build(ts, [], EMPTY_COMMAND) == Err(e)
  {
    var n := |stages| - 1;
    BuildAll(stages, tail, n);
    BlamedFails(tail, Commands(stages)[..n], Commands(stages)[n], e);
  }

  lemma FailureRefused(ts: seq<Token>, e: Error)
    requires Build(ts, [], EMPTY_COMMAND) == Err(e)
    ensures Refused(ts, e)
  {
    var first, rest, tail := Decompose(ts, [], EMPTY_COMMAND);
    StagesOf(first, rest, tail);
    assert StopsAt(ts, [first] + rest, tail);
  }

  lemma RefusedExact(ts: seq<Token>, e: Error)
    ensures Build(ts, [], EMPTY_COMMAND) == Err(e) <==> Refused(ts, e)
  {
    if Build(ts, [], EMPTY_COMMAND) == Err(e) {
      FailureRefused(ts, e);
    }
    if Refused(ts, e) {
      var stages, tail :| StopsAt(ts, stages, tail) && Blames(With(EMPTY_COMMAND, stages[|stages| - 1]), tail, e);
      RefusedFails(ts, stages, tail, e);
    }
  }

  /** What is wrong with the i-th of the commands. */
  predicate Misplaces(cs: seq<Command>, i: nat, e: Error) {
    && i < |cs|
    && match e
      case EmptyCommand => cs[i].argv == []
      case InputNotFirst => cs[i].argv != [] && i > 0 && cs[i].input.Some?
      case OutputNotLast => cs[i].argv != [] && (i > 0 ==> cs[i].input.None?) && i + 1 < |cs| && cs[i].output.Some?
      case _ => false
  }

  /** Nothing is wrong with the commands before the i-th. */
  predicate PlacedBefore(cs: seq<Command>, from: nat, i: nat) {
    forall k :: from <= k < i && k < |cs| ==>
      cs[k].argv != [] && (k > 0 ==> cs[k].input.None?) && (k + 1 < |cs| ==> cs[k].output.None?)
  }

  lemma {:induction false} ComplaintFirst(cs: seq<Command>, from: nat, e: Error)
    requires from <= |cs|
    ensures Complaint(cs, from) == Some(e) <==> exists i :: from <= i && PlacedBefore(cs, from, i) && Misplaces(cs, i, e)
    decreases |cs| - from
  {
    if from < |cs| {
      ComplaintFirst(cs, from + 1, e);
      if Complaint(cs, from + 1) == Some(e) && PlacedBefore(cs, from, from + 1) {
        var i :| from + 1 <= i && PlacedBefore(cs, from + 1, i) && Misplaces(cs, i, e);
        assert PlacedBefore(cs, from, i);
      }
      if Misplaces(cs, from, e) {
        assert PlacedBefore(cs, from, from);
      }
      forall i | from <= i && PlacedBefore(cs, from, i) && Misplaces(cs, i, e)
        ensures Complaint(cs, from) == Some(e)
      {
        assert i > from ==> PlacedBefore(cs, from + 1, i);
      }
    }
  }

  /** The tokens make up stages, but the first stage at fault has no word or a misplaced redirection. */
  ghost predicate Misplaced(ts: seq<Token>, e: Error) {
    exists stages, background, i: nat ::
      && StopsAt(ts, stages, EndTokens(background))
      && PlacedBefore(Commands(stages), 0, i) && Misplaces(Commands(stages), i, e)
  }

  lemma BuiltStops(ts: seq<Token>, p: Pipeline) returns (stages: seq<seq<Item>>)
    requires Build(ts, [], EMPTY_COMMAND) == Ok(p)
    ensures StopsAt(ts, stages, EndTokens(p.background)) && Commands(stages) == p.commands
  {
    var first, rest, tail := Decompose(ts, [], EMPTY_COMMAND);
    stages := [first] + rest;
    StagesOf(first, rest, tail);
    assert [] + Commands(stages) == Commands(stages);
  }

  lemma MisplacedExact(ts: seq<Token>, e: Error)
    ensures Misplaced(ts, e) <==>
      Build(ts, [], EMPTY_COMMAND).Ok? && Complaint(Build(ts, [], EMPTY_COMMAND).value.commands, 0) == Some(e)
  {
    if Misplaced(ts, e) {
      var stages, background, i: nat :|
        && StopsAt(ts, stages, EndTokens(background))
        && PlacedBefore(Commands(stages), 0, i) && Misplaces(Commands(stages), i, e);
      BuildWhole(stages, background, |stages| - 1);
      ComplaintFirst(Commands(stages), 0, e);
    }
    if Build(ts, [], EMPTY_COMMAND).Ok? && Complaint(Build(ts, [], EMPTY_COMMAND).value.commands, 0) == Some(e) {
      var p := Build(ts, [], EMPTY_COMMAND).value;
      var stages := BuiltStops(ts, p);
      ComplaintFirst(p.commands, 0, e);
    }
  }

  /** Which error a line is refused with, for every line and every error. */
  lemma RefusalExact(line: string, e: Error)
    ensures Parse(line) == Err(e) <==>
      || Lex(line) == Err(e)
      || (Lex(line).Ok? && Lex(line).value != [] && (Refused(Lex(line).value, e) || Misplaced(Lex(line).value, e)))
  {
    if Lex(line).Ok? {
      RefusedExact(Lex(line).value, e);
      MisplacedExact(Lex(line).value, e);
    }
  }
}
