/** How the words and redirections of a stage are arranged does not matter to the parser. */
module ShellStages {
  import opened Basics
  import opened ShellLexer
  import opened ShellParser
  import opened ShellPrinter

  /** A word of a stage, or a redirection with its path. */
  datatype Item = Argument(word: string) | Redirection(operator: Token, path: string)

  predicate ValidItems(items: seq<Item>) {
    forall x :: x in items && x.Redirection? ==> IsRedirection(x.operator)
  }

  function ItemTokens(items: seq<Item>): (r: seq<Token>) {
    if items == [] then []
    else (match items[0]
          case Argument(word) => [Word(word)]
          case Redirection(operator, path) => [operator, Word(path)]) + ItemTokens(items[1..])
  }

  function Words(items: seq<Item>): (r: seq<string>) {
    if items == [] then [] else (if items[0].Argument? then [items[0].word] else []) + Words(items[1..])
  }

  /** The paths of the input redirections. */
  function Inputs(items: seq<Item>): (r: seq<string>) {
    if items == [] then []
    else (if items[0].Redirection? && items[0].operator == In then [items[0].path] else []) + Inputs(items[1..])
  }

  /** The output redirections. */
  function Outputs(items: seq<Item>): (r: seq<Item>) {
    if items == [] then []
    else (if items[0].Redirection? && items[0].operator != In then [items[0]] else []) + Outputs(items[1..])
  }

  // ----- What a stage means -----

  /** At most one input and one output redirection, counting those the command has already. */
  predicate Fits(cmd: Command, items: seq<Item>) {
    |Inputs(items)| + Unit(cmd.input.Some?) <= 1 && |Outputs(items)| + Unit(cmd.output.Some?) <= 1
  }

  /** The command with the words and redirections of the items. */
  function With(cmd: Command, items: seq<Item>): (r: Command) {
    var input := if Inputs(items) != [] then Some(Inputs(items)[0]) else cmd.input;
    var words := cmd.argv + Words(items);
    if Outputs(items) == [] then Command(words, input, cmd.output, cmd.append)
    else Command(words, input, Some(OutputPath(Outputs(items)[0])), OutputAppends(Outputs(items)[0]))
  }

  function OutputPath(x: Item): (r: string) { if x.Redirection? then x.path else [] }

  predicate OutputAppends(x: Item) { x.Redirection? && x.operator == Append }

  lemma WithArgument(cmd: Command, word: string, rest: seq<Item>)
    ensures With(cmd, [Argument(word)] + rest) == With(cmd.(argv := cmd.argv + [word]), rest)
    ensures Fits(cmd, [Argument(word)] + rest) <==> Fits(cmd.(argv := cmd.argv + [word]), rest)
  {
    var items := [Argument(word)] + rest;
    assert items[1..] == rest;
    assert Inputs(items) == Inputs(rest) && Outputs(items) == Outputs(rest);
    assert cmd.argv + Words(items) == (cmd.argv + [word]) + Words(rest);
  }

  lemma WithRedirection(cmd: Command, t: Token, path: string, rest: seq<Item>)
    requires IsRedirection(t)
    ensures Redirect(cmd, t, path).Err? ==> !Fits(cmd, [Redirection(t, path)] + rest)
    ensures Redirect(cmd, t, path).Ok? ==> var next := Redirect(cmd, t, path).value;
      && (Fits(cmd, [Redirection(t, path)] + rest) <==> Fits(next, rest))
      && (Fits(next, rest) ==> With(cmd, [Redirection(t, path)] + rest) == With(next, rest))
  {
    var items := [Redirection(t, path)] + rest;
    assert items[1..] == rest;
    assert Words(items) == Words(rest);
    if t == In {
      assert Inputs(items) == [path] + Inputs(rest) && Outputs(items) == Outputs(rest);
    } else {
      assert Outputs(items) == [Redirection(t, path)] + Outputs(rest) && Inputs(items) == Inputs(rest);
    }
  }

  /** A stage is built exactly if it fits, and then from its words, its input and its output, wherever they stand. */
  lemma {:induction false} StageMeaning(items: seq<Item>, tail: seq<Token>, done: seq<Command>, cmd: Command)
    requires ValidItems(items)
    ensures Fits(cmd, items) ==> Build(ItemTokens(items) + tail, done, cmd) == Build(tail, done, With(cmd, items))
    ensures !Fits(cmd, items) ==> Build(ItemTokens(items) + tail, done, cmd).Err?
    decreases |items|
  {
    if items == [] {
      assert ItemTokens(items) + tail == tail && cmd.argv + [] == cmd.argv;
    } else {
      var rest := items[1..];
      assert items == [items[0]] + rest;
      match items[0]
      case Argument(word) =>
        BuildWord(word, ItemTokens(rest) + tail, done, cmd);
        assert ItemTokens(items) + tail == [Word(word)] + (ItemTokens(rest) + tail);
        WithArgument(cmd, word, rest);
        StageMeaning(rest, tail, done, cmd.(argv := cmd.argv + [word]));
      case Redirection(t, path) =>
        assert items[0] in items;
        assert ItemTokens(items) + tail == [t, Word(path)] + (ItemTokens(rest) + tail);
        WithRedirection(cmd, t, path, rest);
        if Redirect(cmd, t, path).Ok? {
          BuildRedirection(t, path, ItemTokens(rest) + tail, done, cmd);
          StageMeaning(rest, tail, done, Redirect(cmd, t, path).value);
        } else {
          BuildRefused(t, path, ItemTokens(rest) + tail, done, cmd);
        }
    }
  }

  lemma BuildWord(word: string, tail: seq<Token>, done: seq<Command>, cmd: Command)
    ensures Build([Word(word)] + tail, done, cmd) == Build(tail, done, cmd.(argv := cmd.argv + [word]))
  {
    assert ([Word(word)] + tail)[1..] == tail;
  }

  lemma BuildRefused(t: Token, path: string, tail: seq<Token>, done: seq<Command>, cmd: Command)
    requires IsRedirection(t) && Redirect(cmd, t, path).Err?
    ensures Build([t, Word(path)] + tail, done, cmd).Err?
  {
  }

  // ----- Rearranging -----

  lemma CountCons<T>(x: T, rest: seq<T>, y: T)
    ensures multiset([x] + rest)[y] == multiset(rest)[y] + Unit(x == y)
  {
    assert multiset([x] + rest) == multiset([x]) + multiset(rest);
  }

  lemma {:induction false} InputsCounted(items: seq<Item>, path: string)
    ensures multiset(Inputs(items))[path] == multiset(items)[Redirection(In, path)]
  {
    if items != [] {
      var x, rest := items[0], items[1..];
      InputsCounted(rest, path);
      assert items == [x] + rest;
      CountCons(x, rest, Redirection(In, path));
      if x.Redirection? && x.operator == In {
        CountCons(x.path, Inputs(rest), path);
      } else {
        assert Inputs(items) == Inputs(rest);
      }
    }
  }

  lemma {:induction false} OutputsCounted(items: seq<Item>, y: Item)
    ensures multiset(Outputs(items))[y] == if y.Redirection? && y.operator != In then multiset(items)[y] else 0
  {
    if items != [] {
      var x, rest := items[0], items[1..];
      OutputsCounted(rest, y);
      assert items == [x] + rest;
      CountCons(x, rest, y);
      if x.Redirection? && x.operator != In {
        CountCons(x, Outputs(rest), y);
      } else {
        assert Outputs(items) == Outputs(rest);
      }
    }
  }

  lemma SameSize<T>(a: seq<T>, b: seq<T>)
    requires multiset(a) == multiset(b)
    ensures |a| == |b| && (|a| == 1 ==> a == b)
  {
    assert |multiset(a)| == |a| && |multiset(b)| == |b|;
    if |a| == 1 {
      assert multiset(b)[b[0]] == 1;
      assert multiset(a)[b[0]] == 1;
    }
  }

  /** A rearrangement has the same redirections to offer. */
  lemma Rearranged(a: seq<Item>, b: seq<Item>, cmd: Command)
    requires multiset(a) == multiset(b) && Words(a) == Words(b)
    ensures Fits(cmd, a) <==> Fits(cmd, b)
    ensures Fits(cmd, a) ==> With(cmd, a) == With(cmd, b)
  {
    forall path
      ensures multiset(Inputs(a))[path] == multiset(Inputs(b))[path]
    {
      InputsCounted(a, path);
      InputsCounted(b, path);
    }
    assert multiset(Inputs(a)) == multiset(Inputs(b));
    forall x
      ensures multiset(Outputs(a))[x] == multiset(Outputs(b))[x]
    {
      OutputsCounted(a, x);
      OutputsCounted(b, x);
    }
    assert multiset(Outputs(a)) == multiset(Outputs(b));
    SameSize(Inputs(a), Inputs(b));
    SameSize(Outputs(a), Outputs(b));
  }

  /** The same pipeline, or an error both times. */
  predicate Alike<T(==)>(r: Result<T, Error>, q: Result<T, Error>) { r == q || (r.Err? && q.Err?) }

  lemma StagesAlike(a: seq<Item>, b: seq<Item>, tail: seq<Token>, done: seq<Command>, cmd: Command)
    requires ValidItems(a) && ValidItems(b) && multiset(a) == multiset(b) && Words(a) == Words(b)
    ensures Alike(Build(ItemTokens(a) + tail, done, cmd), Build(ItemTokens(b) + tail, done, cmd))
  {
    StageMeaning(a, tail, done, cmd);
    StageMeaning(b, tail, done, cmd);
    Rearranged(a, b, cmd);
  }

  /** Tokens with the same effect can be exchanged after any tokens that do not end in a redirection operator. */
  lemma {:induction false} AlikeAfter(pre: seq<Token>, a: seq<Token>, b: seq<Token>, done: seq<Command>, cmd: Command)
    requires a != [] && b != [] && !EndsInRedirection(pre)
    requires forall d, c :: Alike(Build(a, d, c), Build(b, d, c))
    ensures Alike(Build(pre + a, done, cmd), Build(pre + b, done, cmd))
    decreases |pre|
  {
    if pre == [] {
      assert pre + a == a && pre + b == b;
    } else {
      assert (pre + a)[1..] == pre[1..] + a && (pre + b)[1..] == pre[1..] + b;
      match pre[0]
      case Word(text) =>
        AlikeAfter(pre[1..], a, b, done, cmd.(argv := cmd.argv + [text]));
      case Pipe =>
        AlikeAfter(pre[1..], a, b, done + [cmd], EMPTY_COMMAND);
      case Background =>
      case _ =>
        assert |pre| >= 2;
        assert (pre + a)[2..] == pre[2..] + a && (pre + b)[2..] == pre[2..] + b;
        assert (pre + a)[1] == pre[1] && (pre + b)[1] == pre[1];
        if pre[1].Word? && Redirect(cmd, pre[0], pre[1].text).Ok? {
          AlikeAfter(pre[2..], a, b, done, Redirect(cmd, pre[0], pre[1].text).value);
        }
    }
  }

  lemma ItemTokensNonempty(items: seq<Item>)
    requires items != []
    ensures ItemTokens(items) != []
  {
  }

  lemma LinesAlike(pre: seq<Token>, a: seq<Item>, b: seq<Item>, post: seq<Token>)
    requires ValidItems(a) && ValidItems(b) && multiset(a) == multiset(b) && Words(a) == Words(b)
    requires a != [] && b != [] && !EndsInRedirection(pre)
    ensures Alike(Build(pre + (ItemTokens(a) + post), [], EMPTY_COMMAND), Build(pre + (ItemTokens(b) + post), [], EMPTY_COMMAND))
  {
    ItemTokensNonempty(a);
    ItemTokensNonempty(b);
    forall d, c
      ensures Alike(Build(ItemTokens(a) + post, d, c), Build(ItemTokens(b) + post, d, c))
    {
      StagesAlike(a, b, post, d, c);
    }
    AlikeAfter(pre, ItemTokens(a) + post, ItemTokens(b) + post, [], EMPTY_COMMAND);
  }

  /** However the redirections of a stage are placed among its words, the line parses to the same pipeline, or not at all. */
  lemma StageArrangement(line1: string, line2: string, pre: seq<Token>, a: seq<Item>, b: seq<Item>, post: seq<Token>)
    requires ValidItems(a) && ValidItems(b) && multiset(a) == multiset(b) && Words(a) == Words(b)
    requires !EndsInRedirection(pre)
    requires Lex(line1) == Ok(pre + (ItemTokens(a) + post)) && Lex(line2) == Ok(pre + (ItemTokens(b) + post))
    ensures Alike(Parse(line1), Parse(line2))
  {
    SameSize(a, b);
    if a != [] {
      LinesAlike(pre, a, b, post);
      ItemTokensNonempty(a);
      ItemTokensNonempty(b);
    }
  }
}
