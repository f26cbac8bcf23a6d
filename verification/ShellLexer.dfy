/**
 The shell's tokenizer: words with quotes and escapes, and the operators | < > >> &.
 A line is the text before the terminating NUL.
 */
module ShellLexer {
  import opened Basics
  datatype Error =
    | TrailingEscape | UnterminatedQuote
    | EmptyBeforePipe | PipeAtEnd | MisplacedBackground | MissingPath | TwoInputs | TwoOutputs
    | EmptyCommand | InputNotFirst | OutputNotLast

  datatype Token = Word(text: string) | Pipe | In | Out | Append | Background

  datatype Quote = Bare | Single | Double

  /** isspace in the C locale. */
  predicate IsSpace(c: char) { c == ' ' || c == '\t' || c == '\n' || c == '\U{000B}' || c == '\U{000C}' || c == '\r' }

  predicate IsOperator(c: char) { c == '|' || c == '<' || c == '>' || c == '&' }

  /** What ends an unquoted word. */
  predicate IsBreak(c: char) { IsSpace(c) || IsOperator(c) }

  predicate IsQuote(c: char) { c == '\'' || c == '"' }

  function QuoteOf(c: char): (r: Quote) { if c == '\'' then Single else Double }

  predicate Closes(quote: Quote, c: char) { (quote == Single && c == '\'') || (quote == Double && c == '"') }

  /** Read on in a word of which buf is already known: the word and what follows it. */
  function ScanWord(s: string, quote: Quote, buf: string): (r: Result<(string, string), Error>)
    ensures r.Ok? ==> |r.value.1| <= |s|
    ensures r.Ok? && s != [] && !IsBreak(s[0]) ==> |r.value.1| < |s|
    ensures r.Ok? && quote != Bare ==> |r.value.1| < |s|
  {
    if s == [] then
      if quote != Bare then Err(UnterminatedQuote) else Ok((buf, s))
    else if quote == Bare && IsBreak(s[0]) then Ok((buf, s))
    else if quote == Bare && IsQuote(s[0]) then ScanWord(s[1..], QuoteOf(s[0]), buf)
    else if quote != Bare && Closes(quote, s[0]) then ScanWord(s[1..], Bare, buf)
    else if s[0] == '\\' && quote != Single then
      if |s| == 1 then Err(TrailingEscape) else ScanWord(s[2..], quote, buf + [s[1]])
    else ScanWord(s[1..], quote, buf + [s[0]])
  }

  /** Tokenize s, with the tokens got before it. */
  function LexOn(got: seq<Token>, s: string): (r: Result<seq<Token>, Error>)
    decreases |s|
  {
    if s == [] then Ok(got)
    else if IsSpace(s[0]) then LexOn(got, s[1..])
    else if s[0] == '|' then LexOn(got + [Pipe], s[1..])
    else if s[0] == '<' then LexOn(got + [In], s[1..])
    else if s[0] == '>' then
      if |s| > 1 && s[1] == '>' then LexOn(got + [Append], s[2..]) else LexOn(got + [Out], s[1..])
    else if s[0] == '&' then LexOn(got + [Background], s[1..])
    else
      match ScanWord(s, Bare, [])
      case Err(e) => Err(e)
      case Ok((word, rest)) => LexOn(got + [Word(word)], rest)
  }

  function Lex(s: string): (r: Result<seq<Token>, Error>) { LexOn([], s) }

  // ----- The loops -----

  method SkipSpaces(line: string, start: nat, ghost got: seq<Token>) returns (i: nat)
    requires start <= |line|
    ensures start <= i <= |line|
    ensures i < |line| ==> !IsSpace(line[i])
    ensures LexOn(got, line[i..]) == LexOn(got, line[start..])
  {
    i := start;
    while i < |line| && IsSpace(line[i])
      invariant start <= i <= |line|
      invariant LexOn(got, line[i..]) == LexOn(got, line[start..])
    {
      assert line[i..][1..] == line[i + 1..];
      i := i + 1;
    }
  }

  method TokenizeWord(line: string, start: nat) returns (r: Result<string, Error>, i: nat)
    requires start < |line| && !IsBreak(line[start])
    ensures start <= i <= |line|
    ensures r.Ok? ==> start < i && ScanWord(line[start..], Bare, []) == Ok((r.value, line[i..]))
    ensures r.Err? ==> ScanWord(line[start..], Bare, []) == Err(r.error)
  {
    i := start;
    var buf: string := [];
    var quote := Bare;
    ghost var goal := ScanWord(line[start..], Bare, []);
    while i < |line|
      invariant start <= i <= |line|
      invariant ScanWord(line[i..], quote, buf) == goal
      decreases |line| - i
    {
      ghost var rest := line[i..];
      assert rest[1..] == line[i + 1..];
      var c := line[i];
      if quote == Bare && IsBreak(c) {
        break;
      }
      if quote == Bare && IsQuote(c) {
        quote, i := QuoteOf(c), i + 1;
        continue;
      }
      if quote != Bare && Closes(quote, c) {
        quote, i := Bare, i + 1;
        continue;
      }
      if c == '\\' && quote != Single {
        i := i + 1;
        if i == |line| {
          return Err(TrailingEscape), i;
        }
        c := line[i];
        assert rest[2..] == line[i + 1..];
      }
      buf := buf + [c];
      i := i + 1;
    }
    if quote != Bare {
      return Err(UnterminatedQuote), i;
    }
    return Ok(buf), i;
  }

  method Tokenize(line: string) returns (r: Result<seq<Token>, Error>)
    ensures r == Lex(line)
  {
    var tokens: seq<Token> := [];
    var i := 0;
    while i < |line|
      invariant 0 <= i <= |line|
      invariant LexOn(tokens, line[i..]) == Lex(line)
      decreases |line| - i
    {
      i := SkipSpaces(line, i, tokens);
      if i == |line| {
        break;
      }
      ghost var rest := line[i..];
      assert rest[1..] == line[i + 1..];
      if line[i] == '|' {
        tokens, i := tokens + [Pipe], i + 1;
      } else if line[i] == '<' {
        tokens, i := tokens + [In], i + 1;
      } else if line[i] == '>' {
        if i + 1 < |line| && line[i + 1] == '>' {
          assert rest[2..] == line[i + 2..];
          tokens, i := tokens + [Append], i + 2;
        } else {
          tokens, i := tokens + [Out], i + 1;
        }
      } else if line[i] == '&' {
        tokens, i := tokens + [Background], i + 1;
      } else {
        var word;
        word, i := TokenizeWord(line, i);
        if word.Err? {
          return Err(word.error);
        }
        tokens := tokens + [Word(word.value)];
      }
    }
    return Ok(tokens);
  }

  // ----- Ways to write tokens -----

  /** A character between double quotes, behind a backslash or not. */
  datatype Mark = Mark(c: char, escaped: bool)

  /** A piece of a word on the command line. */
  datatype Piece = Plain(c: char) | Escaped(c: char) | SingleQuoted(text: string) | DoubleQuoted(marks: seq<Mark>)

  /** Inside double quotes only the quote and the backslash need an escape. */
  predicate ValidMarks(ms: seq<Mark>) {
    forall i :: 0 <= i < |ms| ==> ms[i].escaped || (ms[i].c != '"' && ms[i].c != '\\')
  }

  function MarksText(ms: seq<Mark>): (r: string) {
    if ms == [] then [] else [ms[0].c] + MarksText(ms[1..])
  }

  function MarksSpelling(ms: seq<Mark>): (r: string) {
    if ms == [] then [] else (if ms[0].escaped then ['\\', ms[0].c] else [ms[0].c]) + MarksSpelling(ms[1..])
  }

  predicate ValidPiece(p: Piece) {
    match p
    case Plain(c) => !IsBreak(c) && !IsQuote(c) && c != '\\'
    case Escaped(_) => true
    case SingleQuoted(text) => '\'' !in text
    case DoubleQuoted(marks) => ValidMarks(marks)
  }

  function PieceText(p: Piece): (r: string) {
    match p
    case Plain(c) => [c]
    case Escaped(c) => [c]
    case SingleQuoted(text) => text
    case DoubleQuoted(marks) => MarksText(marks)
  }

  function PieceSpelling(p: Piece): (r: string)
    requires ValidPiece(p)
    ensures r != [] && !IsBreak(r[0])
  {
    match p
    case Plain(c) => [c]
    case Escaped(c) => ['\\', c]
    case SingleQuoted(text) => ['\''] + text + ['\'']
    case DoubleQuoted(marks) => ['"'] + MarksSpelling(marks) + ['"']
  }

  predicate ValidPieces(ps: seq<Piece>) { forall i :: 0 <= i < |ps| ==> ValidPiece(ps[i]) }

  function PiecesText(ps: seq<Piece>): (r: string) {
    if ps == [] then [] else PieceText(ps[0]) + PiecesText(ps[1..])
  }

  function PiecesSpelling(ps: seq<Piece>): (r: string)
    requires ValidPieces(ps)
    ensures ps != [] ==> r != [] && !IsBreak(r[0])
  {
    if ps == [] then [] else PieceSpelling(ps[0]) + PiecesSpelling(ps[1..])
  }

  /** A token as written, and the white space after it. */
  datatype Spelled =
    | SpelledWord(pieces: seq<Piece>, gap: string)
    | SpelledOperator(operator: Token, gap: string)

  function Meaning(x: Spelled): (r: Token) {
    match x
    case SpelledWord(pieces, _) => Word(PiecesText(pieces))
    case SpelledOperator(operator, _) => operator
  }

  predicate AllSpace(s: string) { forall i :: 0 <= i < |s| ==> IsSpace(s[i]) }

  predicate ValidSpelled(x: Spelled) {
    match x
    case SpelledWord(pieces, gap) => pieces != [] && ValidPieces(pieces) && AllSpace(gap)
    case SpelledOperator(operator, gap) => !operator.Word? && AllSpace(gap)
  }

  function OperatorSpelling(t: Token): (r: string)
    requires !t.Word?
    ensures r != []
  {
    match t
    case Pipe => "|"
    case In => "<"
    case Out => ">"
    case Append => ">>"
    case Background => "&"
  }

  function Spelling(x: Spelled): (r: string)
    requires ValidSpelled(x)
    ensures r != []
  {
    match x
    case SpelledWord(pieces, _) => PiecesSpelling(pieces)
    case SpelledOperator(operator, _) => OperatorSpelling(operator)
  }

  /** Without white space between, the two would be read as something else. */
  predicate Fuses(x: Spelled, y: Spelled) {
    || (x.SpelledWord? && y.SpelledWord?)
    || (x.SpelledOperator? && x.operator == Out && y.SpelledOperator? && (y.operator == Out || y.operator == Append))
  }

  predicate ValidLine(xs: seq<Spelled>) {
    && (forall i :: 0 <= i < |xs| ==> ValidSpelled(xs[i]))
    && (forall i :: 0 <= i < |xs| - 1 ==> xs[i].gap == [] ==> !Fuses(xs[i], xs[i + 1]))
  }

  function Written(xs: seq<Spelled>): (r: string)
    requires ValidLine(xs)
    ensures xs != [] ==> r != []
  {
    if xs == [] then [] else Spelling(xs[0]) + (xs[0].gap + Written(xs[1..]))
  }

  function Meanings(xs: seq<Spelled>): (r: seq<Token>)
    ensures |r| == |xs|
  {
    if xs == [] then [] else [Meaning(xs[0])] + Meanings(xs[1..])
  }

  // ----- Lexing reads back what was written -----

  lemma ScanOrdinary(c: char, tail: string, quote: Quote, buf: string)
    requires c != '\\' && !Closes(quote, c) && (quote == Bare ==> !IsBreak(c) && !IsQuote(c))
    ensures ScanWord([c] + tail, quote, buf) == ScanWord(tail, quote, buf + [c])
  {
    assert ([c] + tail)[1..] == tail;
  }

  lemma ScanEscaped(c: char, tail: string, quote: Quote, buf: string)
    requires quote != Single
    ensures ScanWord(['\\', c] + tail, quote, buf) == ScanWord(tail, quote, buf + [c])
  {
    assert (['\\', c] + tail)[2..] == tail;
  }

  lemma ScanOpen(c: char, tail: string, buf: string)
    requires IsQuote(c)
    ensures ScanWord([c] + tail, Bare, buf) == ScanWord(tail, QuoteOf(c), buf)
  {
    assert ([c] + tail)[1..] == tail;
  }

  lemma ScanClose(c: char, tail: string, buf: string)
    requires IsQuote(c)
    ensures ScanWord([c] + tail, QuoteOf(c), buf) == ScanWord(tail, Bare, buf)
  {
    assert ([c] + tail)[1..] == tail;
  }

  lemma {:induction false} ScanSingle(text: string, tail: string, buf: string)
    requires '\'' !in text
    ensures ScanWord(text + tail, Single, buf) == ScanWord(tail, Single, buf + text)
    decreases |text|
  {
    if text == [] {
      assert text + tail == tail && buf + text == buf;
    } else {
      assert (text + tail)[1..] == text[1..] + tail;
      ScanSingle(text[1..], tail, buf + [text[0]]);
      assert buf + [text[0]] + text[1..] == buf + text;
    }
  }

  lemma ScanMark(m: Mark, tail: string, buf: string)
    requires m.escaped || (m.c != '"' && m.c != '\\')
    ensures ScanWord((if m.escaped then ['\\', m.c] else [m.c]) + tail, Double, buf) == ScanWord(tail, Double, buf + [m.c])
  {
    if m.escaped {
      ScanEscaped(m.c, tail, Double, buf);
    } else {
      ScanOrdinary(m.c, tail, Double, buf);
    }
  }

  lemma {:induction false} ScanMarks(ms: seq<Mark>, tail: string, buf: string)
    requires ValidMarks(ms)
    ensures ScanWord(MarksSpelling(ms) + tail, Double, buf) == ScanWord(tail, Double, buf + MarksText(ms))
    decreases |ms|
  {
    if ms == [] {
      assert MarksSpelling(ms) + tail == tail && buf + MarksText(ms) == buf;
    } else {
      var m, more := ms[0], MarksSpelling(ms[1..]) + tail;
      assert MarksSpelling(ms) + tail == (if m.escaped then ['\\', m.c] else [m.c]) + more;
      ScanMark(m, more, buf);
      ScanMarks(ms[1..], tail, buf + [m.c]);
      assert buf + [m.c] + MarksText(ms[1..]) == buf + MarksText(ms);
    }
  }

  lemma ScanPiece(p: Piece, tail: string, buf: string)
    requires ValidPiece(p)
    ensures ScanWord(PieceSpelling(p) + tail, Bare, buf) == ScanWord(tail, Bare, buf + PieceText(p))
  {
    match p
    case Plain(c) => ScanOrdinary(c, tail, Bare, buf);
    case Escaped(c) => ScanEscaped(c, tail, Bare, buf);
    case SingleQuoted(text) => ScanSingleQuoted(text, tail, buf);
    case DoubleQuoted(marks) => ScanDoubleQuoted(marks, tail, buf);
  }

  lemma ScanSingleQuoted(text: string, tail: string, buf: string)
    requires '\'' !in text
    ensures ScanWord(['\''] + text + ['\''] + tail, Bare, buf) == ScanWord(tail, Bare, buf + text)
  {
    assert ['\''] + text + ['\''] + tail == ['\''] + (text + (['\''] + tail));
    ScanOpen('\'', text + (['\''] + tail), buf);
    ScanSingle(text, ['\''] + tail, buf);
    ScanClose('\'', tail, buf + text);
  }

  lemma ScanDoubleQuoted(ms: seq<Mark>, tail: string, buf: string)
    requires ValidMarks(ms)
    ensures ScanWord(['"'] + MarksSpelling(ms) + ['"'] + tail, Bare, buf) == ScanWord(tail, Bare, buf + MarksText(ms))
  {
    assert ['"'] + MarksSpelling(ms) + ['"'] + tail == ['"'] + (MarksSpelling(ms) + (['"'] + tail));
    ScanOpen('"', MarksSpelling(ms) + (['"'] + tail), buf);
    ScanMarks(ms, ['"'] + tail, buf);
    ScanClose('"', tail, buf + MarksText(ms));
  }

  lemma {:induction false} ScanPieces(ps: seq<Piece>, tail: string, buf: string)
    requires ValidPieces(ps)
    ensures ScanWord(PiecesSpelling(ps) + tail, Bare, buf) == ScanWord(tail, Bare, buf + PiecesText(ps))
    decreases |ps|
  {
    if ps == [] {
      assert PiecesSpelling(ps) + tail == tail && buf + PiecesText(ps) == buf;
    } else {
      var more := PiecesSpelling(ps[1..]) + tail;
      assert PiecesSpelling(ps) + tail == PieceSpelling(ps[0]) + more;
      ScanPiece(ps[0], more, buf);
      ScanPieces(ps[1..], tail, buf + PieceText(ps[0]));
      assert buf + PieceText(ps[0]) + PiecesText(ps[1..]) == buf + PiecesText(ps);
    }
  }

  lemma {:induction false} LexGap(got: seq<Token>, gap: string, tail: string)
    requires AllSpace(gap)
    ensures LexOn(got, gap + tail) == LexOn(got, tail)
    decreases |gap|
  {
    if gap == [] {
      assert gap + tail == tail;
    } else {
      assert (gap + tail)[1..] == gap[1..] + tail;
      LexGap(got, gap[1..], tail);
    }
  }

  lemma LexWord(got: seq<Token>, pieces: seq<Piece>, tail: string)
    requires pieces != [] && ValidPieces(pieces) && (tail == [] || IsBreak(tail[0]))
    ensures LexOn(got, PiecesSpelling(pieces) + tail) == LexOn(got + [Word(PiecesText(pieces))], tail)
  {
    ScanPieces(pieces, tail, []);
    assert [] + PiecesText(pieces) == PiecesText(pieces);
  }

  lemma LexOperator(got: seq<Token>, t: Token, tail: string)
    requires !t.Word? && (t == Out ==> tail == [] || tail[0] != '>')
    ensures LexOn(got, OperatorSpelling(t) + tail) == LexOn(got + [t], tail)
  {
    var s := OperatorSpelling(t) + tail;
    if t == Append {
      assert s[2..] == tail;
    } else {
      assert s[1..] == tail;
    }
  }

  /** After x and its gap, the line goes on in a way that does not fuse with x. */
  predicate Apart(x: Spelled, rest: string) {
    && (x.SpelledWord? ==> rest == [] || IsBreak(rest[0]))
    && (x == SpelledOperator(Out, x.gap) ==> rest == [] || rest[0] != '>')
  }

  lemma LineApart(xs: seq<Spelled>)
    requires ValidLine(xs) && xs != []
    ensures Apart(xs[0], xs[0].gap + Written(xs[1..]))
  {
    var x, rest := xs[0], xs[0].gap + Written(xs[1..]);
    if x.gap != [] {
      assert rest[0] == x.gap[0] && IsSpace(x.gap[0]);
    } else if |xs| > 1 {
      var y := xs[1];
      assert ValidSpelled(y) && !Fuses(xs[0], xs[1]);
      assert xs[1..][0] == y;
      assert rest == Written(xs[1..]);
      assert rest[0] == Spelling(y)[0];
    }
  }

  lemma LexSpelled(got: seq<Token>, x: Spelled, rest: string)
    requires ValidSpelled(x) && Apart(x, x.gap + rest)
    ensures LexOn(got, Spelling(x) + (x.gap + rest)) == LexOn(got + [Meaning(x)], rest)
  {
    match x
    case SpelledWord(pieces, gap) =>
      LexWord(got, pieces, gap + rest);
      LexGap(got + [Meaning(x)], gap, rest);
    case SpelledOperator(operator, gap) =>
      LexOperator(got, operator, gap + rest);
      LexGap(got + [Meaning(x)], gap, rest);
  }

  lemma ValidTail(xs: seq<Spelled>)
    requires ValidLine(xs) && xs != []
    ensures ValidLine(xs[1..]) && ValidSpelled(xs[0])
  {
    var ys := xs[1..];
    forall i | 0 <= i < |ys| - 1
      ensures ys[i].gap == [] ==> !Fuses(ys[i], ys[i + 1])
    {
      assert ys[i] == xs[i + 1] && ys[i + 1] == xs[i + 2];
    }
  }

  /** However tokens are quoted, escaped and spaced, the tokenizer reads them back. */
  lemma {:induction false} LexWritten(got: seq<Token>, xs: seq<Spelled>)
    requires ValidLine(xs)
    ensures LexOn(got, Written(xs)) == Ok(got + Meanings(xs))
    decreases |xs|
  {
    if xs == [] {
      assert got + Meanings(xs) == got;
    } else {
      ValidTail(xs);
      LineApart(xs);
      LexSpelled(got, xs[0], Written(xs[1..]));
      LexWritten(got + [Meaning(xs[0])], xs[1..]);
      assert got + [Meaning(xs[0])] + Meanings(xs[1..]) == got + Meanings(xs);
    }
  }
}
