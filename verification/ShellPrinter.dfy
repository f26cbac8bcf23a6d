/** Writing pipelines down, and reading them back with the shell's parser. */
module ShellPrinter {
  import opened Basics
  import opened ShellLexer
  import opened ShellParser

  // ----- The tokens of a pipeline -----

  function WordTokens(ws: seq<string>): (r: seq<Token>) {
    if ws == [] then [] else [Word(ws[0])] + WordTokens(ws[1..])
  }

  function InputTokens(c: Command): (r: seq<Token>) {
    if c.input.Some? then [In, Word(c.input.value)] else []
  }

  function OutputTokens(c: Command): (r: seq<Token>) {
    if c.output.Some? then [if c.append then Append else Out, Word(c.output.value)] else []
  }

  function CommandTokens(c: Command): (r: seq<Token>) { WordTokens(c.argv) + (InputTokens(c) + OutputTokens(c)) }

  function StageTokens(cs: seq<Command>): (r: seq<Token>)
    requires cs != []
  {
    if |cs| == 1 then CommandTokens(cs[0]) else CommandTokens(cs[0]) + ([Pipe] + StageTokens(cs[1..]))
  }

  /** The end of the line, after the last stage. */
  function EndTokens(background: bool): (r: seq<Token>) { if background then [Background] else [] }

  function PipelineTokens(p: Pipeline): (r: seq<Token>)
    requires p.commands != []
  {
    StageTokens(p.commands) + EndTokens(p.background)
  }

  // ----- The parser reads the tokens back -----

  lemma {:induction false} BuildWords(ws: seq<string>, tail: seq<Token>, done: seq<Command>, cmd: Command)
    ensures Build(WordTokens(ws) + tail, done, cmd) == Build(tail, done, cmd.(argv := cmd.argv + ws))
    decreases |ws|
  {
    var ts := WordTokens(ws) + tail;
    if ws == [] {
      assert ts == tail && cmd.argv + ws == cmd.argv;
    } else {
      assert ts[0] == Word(ws[0]) && ts[1..] == WordTokens(ws[1..]) + tail;
      BuildWords(ws[1..], tail, done, cmd.(argv := cmd.argv + [ws[0]]));
      assert cmd.argv + [ws[0]] + ws[1..] == cmd.argv + ws;
    }
  }

  lemma BuildRedirection(t: Token, path: string, tail: seq<Token>, done: seq<Command>, cmd: Command)
    requires IsRedirection(t) && Redirect(cmd, t, path).Ok?
    ensures Build([t, Word(path)] + tail, done, cmd) == Build(tail, done, Redirect(cmd, t, path).value)
  {
    assert ([t, Word(path)] + tail)[2..] == tail;
  }

  lemma BuildInput(c: Command, tail: seq<Token>, done: seq<Command>, cmd: Command)
    requires cmd.input.None?
    ensures Build(InputTokens(c) + tail, done, cmd) == Build(tail, done, cmd.(input := c.input))
  {
    if c.input.Some? {
      BuildRedirection(In, c.input.value, tail, done, cmd);
    } else {
      assert InputTokens(c) + tail == tail;
    }
  }

  lemma BuildOutput(c: Command, tail: seq<Token>, done: seq<Command>, cmd: Command)
    requires cmd.output.None? && !cmd.append && (c.append ==> c.output.Some?)
    ensures Build(OutputTokens(c) + tail, done, cmd) == Build(tail, done, cmd.(output := c.output, append := c.append))
  {
    if c.output.Some? {
      BuildRedirection(if c.append then Append else Out, c.output.value, tail, done, cmd);
    } else {
      assert OutputTokens(c) + tail == tail;
    }
  }

  lemma BuildCommand(c: Command, tail: seq<Token>, done: seq<Command>)
    requires c.append ==> c.output.Some?
    ensures Build(CommandTokens(c) + tail, done, EMPTY_COMMAND) == Build(tail, done, c)
  {
    assert CommandTokens(c) + tail == WordTokens(c.argv) + (InputTokens(c) + (OutputTokens(c) + tail));
    BuildWords(c.argv, InputTokens(c) + (OutputTokens(c) + tail), done, EMPTY_COMMAND);
    assert [] + c.argv == c.argv;
    var cmd := Command(c.argv, None, None, false);
    BuildInput(c, OutputTokens(c) + tail, done, cmd);
    BuildOutput(c, tail, done, cmd.(input := c.input));
  }

  ghost predicate Buildable(cs: seq<Command>) {
    forall i :: 0 <= i < |cs| ==> cs[i].argv != [] && (cs[i].append ==> cs[i].output.Some?)
  }

  lemma BuildLastStage(c: Command, background: bool, done: seq<Command>)
    requires c.append ==> c.output.Some?
    ensures Build(CommandTokens(c) + EndTokens(background), done, EMPTY_COMMAND) == Ok(Pipeline(done + [c], background))
  {
    BuildCommand(c, EndTokens(background), done);
  }

  lemma {:induction false} BuildStageTokens(cs: seq<Command>, background: bool, done: seq<Command>, all: seq<Command>)
    requires cs != [] && Buildable(cs) && all == done + cs
    ensures Build(StageTokens(cs) + EndTokens(background), done, EMPTY_COMMAND) == Ok(Pipeline(all, background))
    decreases |cs|
  {
    if |cs| == 1 {
      BuildLastStage(cs[0], background, done);
      assert all == done + [cs[0]];
    } else {
      StageTokensNonempty(cs[1..]);
      BuildFirstStage(cs, EndTokens(background), done);
      MoveFirst(done, cs);
      BuildStageTokens(cs[1..], background, done + [cs[0]], all);
    }
  }

  lemma MoveFirst<T>(done: seq<T>, cs: seq<T>)
    requires cs != []
    ensures (done + [cs[0]]) + cs[1..] == done + cs
  {
  }

  lemma BuildFirstStage(cs: seq<Command>, end: seq<Token>, done: seq<Command>)
    requires |cs| > 1 && cs[0].argv != [] && (cs[0].append ==> cs[0].output.Some?) && StageTokens(cs[1..]) != []
    ensures Build(StageTokens(cs) + end, done, EMPTY_COMMAND)
         == Build(StageTokens(cs[1..]) + end, done + [cs[0]], EMPTY_COMMAND)
  {
    var rest := StageTokens(cs[1..]) + end;
    assert StageTokens(cs) + end == CommandTokens(cs[0]) + ([Pipe] + rest);
    BuildCommand(cs[0], [Pipe] + rest, done);
    BuildPipe(rest, done, cs[0]);
  }

  lemma BuildPipe(rest: seq<Token>, done: seq<Command>, cmd: Command)
    requires cmd.argv != [] && rest != []
    ensures Build([Pipe] + rest, done, cmd) == Build(rest, done + [cmd], EMPTY_COMMAND)
  {
    assert ([Pipe] + rest)[1..] == rest;
  }

  lemma StageTokensNonempty(cs: seq<Command>)
    requires cs != [] && Buildable(cs)
    ensures StageTokens(cs) != []
  {
    assert cs[0].argv != [];
    assert CommandTokens(cs[0]) != [];
  }

  lemma ParsePipelineTokens(p: Pipeline)
    requires WellFormed(p)
    ensures ParseTokens(PipelineTokens(p)) == Ok(p)
  {
    BuildStageTokens(p.commands, p.background, [], p.commands);
    StageTokensNonempty(p.commands);
    ComplaintExact(p.commands, 0);
  }

  // ----- Main results -----

  /** Any way of writing a well-formed pipeline down parses to that pipeline. */
  lemma ParseInvertsWriting(p: Pipeline, lead: string, xs: seq<Spelled>)
    requires WellFormed(p) && AllSpace(lead) && ValidLine(xs) && Meanings(xs) == PipelineTokens(p)
    ensures Parse(lead + Written(xs)) == Ok(p)
  {
    LexGap([], lead, Written(xs));
    LexWritten([], xs);
    assert [] + Meanings(xs) == Meanings(xs);
    ParsePipelineTokens(p);
  }

  /** A text with a backslash before each quote and each backslash. */
  function Marked(text: string): (r: seq<Mark>)
    ensures ValidMarks(r) && MarksText(r) == text
  {
    if text == [] then [] else [Mark(text[0], text[0] == '"' || text[0] == '\\')] + Marked(text[1..])
  }

  /** The plainest way: every word in double quotes, a space after every token. */
  function Spell(t: Token): (r: Spelled) {
    if t.Word? then SpelledWord([DoubleQuoted(Marked(t.text))], " ") else SpelledOperator(t, " ")
  }

  function SpellAll(ts: seq<Token>): (r: seq<Spelled>)
    ensures |r| == |ts| && forall i :: 0 <= i < |ts| ==> r[i] == Spell(ts[i])
  {
    if ts == [] then [] else [Spell(ts[0])] + SpellAll(ts[1..])
  }

  lemma SpellMeans(t: Token)
    ensures ValidSpelled(Spell(t)) && Meaning(Spell(t)) == t
  {
    if t.Word? {
      var ps := [DoubleQuoted(Marked(t.text))];
      assert ps[1..] == [] && PiecesText(ps) == t.text + [];
      assert t.text + [] == t.text;
    }
  }

  lemma {:induction false} SpellAllMeans(ts: seq<Token>)
    ensures ValidLine(SpellAll(ts)) && Meanings(SpellAll(ts)) == ts
  {
    var xs := SpellAll(ts);
    forall i | 0 <= i < |xs|
      ensures ValidSpelled(xs[i]) && xs[i].gap != []
    {
      SpellMeans(ts[i]);
    }
    if ts != [] {
      SpellMeans(ts[0]);
      SpellAllMeans(ts[1..]);
      assert xs[1..] == SpellAll(ts[1..]);
    }
  }

  function Print(p: Pipeline): (r: string)
    requires p.commands != []
  {
    var ts := PipelineTokens(p);
    SpellAllMeans(ts);
    Written(SpellAll(ts))
  }

  /** Printing and parsing are inverse, for words of any characters. */
  lemma ParseInvertsPrint(p: Pipeline)
    requires WellFormed(p)
    ensures Parse(Print(p)) == Ok(p)
  {
    var xs := SpellAll(PipelineTokens(p));
    SpellAllMeans(PipelineTokens(p));
    ParseInvertsWriting(p, [], xs);
    assert [] + Written(xs) == Written(xs);
  }

  /** Hence the pipelines that some line parses to are the well-formed ones and the empty one. */
  lemma ParsedExactly(p: Pipeline)
    ensures (exists line :: Parse(line) == Ok(p)) <==> WellFormed(p) || p == EMPTY_PIPELINE
  {
    if WellFormed(p) {
      ParseInvertsPrint(p);
    } else if p == EMPTY_PIPELINE {
      assert Lex([]) == Ok([]);
      assert Parse([]) == Ok(p);
    }
    forall line | Parse(line) == Ok(p)
      ensures WellFormed(p) || p == EMPTY_PIPELINE
    {
      if p.commands != [] {
        ParsedIsWellFormed(line);
      } else {
        ParsedEmpty(line);
      }
    }
  }

  // ----- The printed line is a line -----

  /** A C string: no terminator inside. */
  predicate IsText(s: string) { '\0' !in s }

  predicate TextTokens(ts: seq<Token>) { forall t :: t in ts && t.Word? ==> IsText(t.text) }

  predicate TextCommand(c: Command) {
    && (forall w :: w in c.argv ==> IsText(w))
    && (c.input.Some? ==> IsText(c.input.value)) && (c.output.Some? ==> IsText(c.output.value))
  }

  predicate TextCommands(cs: seq<Command>) { forall c :: c in cs ==> TextCommand(c) }

  lemma {:induction false} WordTokensText(ws: seq<string>)
    requires forall w :: w in ws ==> IsText(w)
    ensures TextTokens(WordTokens(ws))
  {
    if ws != [] {
      WordTokensText(ws[1..]);
    }
  }

  lemma {:induction false} StageTokensText(cs: seq<Command>)
    requires cs != [] && TextCommands(cs)
    ensures TextTokens(StageTokens(cs))
    decreases |cs|
  {
    assert TextCommand(cs[0]);
    WordTokensText(cs[0].argv);
    assert TextTokens(CommandTokens(cs[0]));
    if |cs| > 1 {
      StageTokensText(cs[1..]);
    }
  }

  lemma {:induction false} EscapeText(text: string)
    requires IsText(text)
    ensures IsText(MarksSpelling(Marked(text)))
  {
    if text != [] {
      EscapeText(text[1..]);
    }
  }

  lemma SpellText(t: Token)
    requires t.Word? ==> IsText(t.text)
    ensures ValidSpelled(Spell(t)) && IsText(Spelling(Spell(t)))
  {
    SpellMeans(t);
    if t.Word? {
      EscapeText(t.text);
      var ps := [DoubleQuoted(Marked(t.text))];
      assert PiecesSpelling(ps) == PieceSpelling(ps[0]) + PiecesSpelling(ps[1..]);
    }
  }

  lemma {:induction false} SpellAllText(ts: seq<Token>)
    requires TextTokens(ts)
    ensures ValidLine(SpellAll(ts)) && IsText(Written(SpellAll(ts)))
  {
    SpellAllMeans(ts);
    if ts != [] {
      var xs := SpellAll(ts);
      assert xs[1..] == SpellAll(ts[1..]);
      SpellText(ts[0]);
      SpellAllText(ts[1..]);
      assert IsText(" " + Written(SpellAll(ts[1..])));
    }
  }

  /** Writing a pipeline of C strings and parsing the line with the shell's parser gives it back. */
  method PrintThenParse(p: Pipeline) returns (back: ShellPipeline)
    requires WellFormed(p) && TextCommands(p.commands)
    ensures back.Value() == p
  {
    StageTokensText(p.commands);
    SpellAllText(PipelineTokens(p));
    ParseInvertsPrint(p);
    back := new ShellPipeline();
    var r := back.ParseLine(Print(p));
  }

  // ----- Where redirections stand among the words does not matter -----

  lemma WordAndRedirection(w: string, t: Token, path: string, tail: seq<Token>, done: seq<Command>, cmd: Command)
    requires IsRedirection(t)
    ensures Build([Word(w), t, Word(path)] + tail, done, cmd) == Build([t, Word(path), Word(w)] + tail, done, cmd)
  {
    var first, second := [Word(w), t, Word(path)] + tail, [t, Word(path), Word(w)] + tail;
    var longer := cmd.(argv := cmd.argv + [w]);
    assert first[1..] == [t, Word(path)] + tail;
    assert second[2..] == [Word(w)] + tail;
    assert ([t, Word(path)] + tail)[2..] == tail;
    assert ([Word(w)] + tail)[1..] == tail;
    assert Redirect(cmd, t, path).Ok? == Redirect(longer, t, path).Ok?;
  }

  predicate EndsInRedirection(ts: seq<Token>) { ts != [] && IsRedirection(ts[|ts| - 1]) }

  /** Tokens with the same effect can be exchanged after any tokens that do not end in a redirection operator. */
  lemma {:induction false} ExchangeAfter(pre: seq<Token>, a: seq<Token>, b: seq<Token>, done: seq<Command>, cmd: Command)
    requires a != [] && b != [] && !EndsInRedirection(pre)
    requires forall d, c :: Build(a, d, c) == Build(b, d, c)
    ensures Build(pre + a, done, cmd) == Build(pre + b, done, cmd)
    decreases |pre|
  {
    if pre == [] {
      assert pre + a == a && pre + b == b;
    } else {
      assert (pre + a)[1..] == pre[1..] + a && (pre + b)[1..] == pre[1..] + b;
      match pre[0]
      case Word(text) =>
        ExchangeAfter(pre[1..], a, b, done, cmd.(argv := cmd.argv + [text]));
      case Pipe =>
        ExchangeAfter(pre[1..], a, b, done + [cmd], EMPTY_COMMAND);
      case Background =>
      case _ =>
        assert |pre| >= 2;
        assert (pre + a)[2..] == pre[2..] + a && (pre + b)[2..] == pre[2..] + b;
        assert (pre + a)[1] == pre[1] && (pre + b)[1] == pre[1];
        if pre[1].Word? && Redirect(cmd, pre[0], pre[1].text).Ok? {
          ExchangeAfter(pre[2..], a, b, done, Redirect(cmd, pre[0], pre[1].text).value);
        }
    }
  }

  /** Moving a redirection past a word leaves the result of the parse unchanged. */
  lemma RedirectionMoves(line1: string, line2: string, pre: seq<Token>, w: string, t: Token, path: string, post: seq<Token>)
    requires IsRedirection(t) && !EndsInRedirection(pre)
    requires Lex(line1) == Ok(pre + ([Word(w), t, Word(path)] + post))
    requires Lex(line2) == Ok(pre + ([t, Word(path), Word(w)] + post))
    ensures Parse(line1) == Parse(line2)
  {
    var a, b := [Word(w), t, Word(path)] + post, [t, Word(path), Word(w)] + post;
    forall d, c
      ensures Build(a, d, c) == Build(b, d, c)
    {
      WordAndRedirection(w, t, path, post, d, c);
    }
    ExchangeAfter(pre, a, b, [], EMPTY_COMMAND);
  }

  /** An operator where a path should be is an error, whatever follows. */
  lemma {:induction false} OperatorForPath(pre: seq<Token>, t: Token, post: seq<Token>, done: seq<Command>, cmd: Command)
    requires IsRedirection(t) && EndsInRedirection(pre)
    ensures Build(pre + ([t] + post), done, cmd).Err?
    decreases |pre|
  {
    var ts := pre + ([t] + post);
    assert ts[1..] == pre[1..] + ([t] + post);
    match pre[0]
    case Word(text) =>
      OperatorForPath(pre[1..], t, post, done, cmd.(argv := cmd.argv + [text]));
    case Pipe =>
      OperatorForPath(pre[1..], t, post, done + [cmd], EMPTY_COMMAND);
    case Background =>
    case _ =>
      if |pre| == 1 {
        assert ts[1] == t;
      } else {
        assert ts[1] == pre[1];
        if pre[1].Word? && Redirect(cmd, pre[0], pre[1].text).Ok? {
          assert ts[2..] == pre[2..] + ([t] + post);
          OperatorForPath(pre[2..], t, post, done, Redirect(cmd, pre[0], pre[1].text).value);
        }
      }
  }

  /** After a redirection operator the word is its path, and the moved form never parses. */
  lemma RedirectionMovesOnlyThen(line: string, pre: seq<Token>, w: string, t: Token, path: string, post: seq<Token>)
    requires IsRedirection(t) && EndsInRedirection(pre)
    requires Lex(line) == Ok(pre + ([t, Word(path), Word(w)] + post))
    ensures Parse(line).Err?
  {
    assert [t, Word(path), Word(w)] + post == [t] + ([Word(path), Word(w)] + post);
    OperatorForPath(pre, t, [Word(path), Word(w)] + post, [], EMPTY_COMMAND);
  }

  /** While the form it came from may: a < b > c. */
  lemma UnmovedFormParses()
    ensures ParseTokens([Word("a"), In] + [Word("b"), Out, Word("c")])
         == Ok(Pipeline([Command(["a"], Some("b"), Some("c"), false)], false))
  {
    var q := Pipeline([Command(["a"], Some("b"), Some("c"), false)], false);
    assert WordTokens(["a"]) == [Word("a")];
    assert PipelineTokens(q) == [Word("a"), In] + [Word("b"), Out, Word("c")];
    ParsePipelineTokens(q);
  }
}
