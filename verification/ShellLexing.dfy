/** Exactly which lines the shell's tokenizer accepts, what it reads in them, and why it refuses the others. */
module ShellLexing {
  import opened Basics
  import opened ShellLexer

  // ----- Words that do not end -----

  /** The end of a line that stops inside a word: after a backslash, or before the closing quote. */
  datatype Open = OpenEscape | OpenSingle(text: string) | OpenDouble(marks: seq<Mark>, escape: bool)

  predicate ValidOpen(o: Open) {
    match o
    case OpenEscape => true
    case OpenSingle(text) => '\'' !in text
    case OpenDouble(marks, _) => ValidMarks(marks)
  }

  function OpenSpelling(o: Open): (r: string)
    ensures r != [] && !IsBreak(r[0])
  {
    match o
    case OpenEscape => ['\\']
    case OpenSingle(text) => ['\''] + text
    case OpenDouble(marks, escape) => ['"'] + (MarksSpelling(marks) + if escape then ['\\'] else [])
  }

  function OpenError(o: Open): (r: Error) {
    match o
    case OpenEscape => TrailingEscape
    case OpenSingle(_) => UnterminatedQuote
    case OpenDouble(_, escape) => if escape then TrailingEscape else UnterminatedQuote
  }

  lemma ScanStops(quote: Quote, buf: string)
    ensures quote != Bare ==> ScanWord([], quote, buf) == Err(UnterminatedQuote)
    ensures quote != Single ==> ScanWord(['\\'], quote, buf) == Err(TrailingEscape)
  {
  }

  lemma ScanUnfinished(o: Open, buf: string)
    requires ValidOpen(o)
    ensures ScanWord(OpenSpelling(o), Bare, buf) == Err(OpenError(o))
  {
    match o
    case OpenEscape =>
      ScanStops(Bare, buf);
    case OpenSingle(text) =>
      ScanOpen('\'', text, buf);
      assert text + [] == text;
      ScanSingle(text, [], buf);
      ScanStops(Single, buf + text);
    case OpenDouble(marks, escape) =>
      var end: string := if escape then ['\\'] else [];
      ScanOpen('"', MarksSpelling(marks) + end, buf);
      ScanMarks(marks, end, buf);
      ScanStops(Double, buf + MarksText(marks));
  }

  // ----- What the scan of a word has read -----

  /** From between words: pieces, and then the end of the word or of the line. */
  ghost predicate Scanned(r: Result<(string, string), Error>, s: string, buf: string, ps: seq<Piece>, o: Open) {
    && ValidPieces(ps)
    && match r
      case Ok((word, rest)) =>
        s == PiecesSpelling(ps) + rest && word == buf + PiecesText(ps) && (rest == [] || IsBreak(rest[0]))
      case Err(e) => ValidOpen(o) && e == OpenError(o) && s == PiecesSpelling(ps) + OpenSpelling(o)
  }

  lemma ConsPiece(p: Piece, ps: seq<Piece>)
    requires ValidPiece(p) && ValidPieces(ps)
    ensures ValidPieces([p] + ps) && PiecesSpelling([p] + ps) == PieceSpelling(p) + PiecesSpelling(ps)
    ensures PiecesText([p] + ps) == PieceText(p) + PiecesText(ps)
  {
    assert ([p] + ps)[1..] == ps;
  }

  /** A piece before what was scanned. */
  lemma ScannedPiece(r: Result<(string, string), Error>, p: Piece, s: string, buf: string, ps: seq<Piece>, o: Open)
    requires ValidPiece(p) && Scanned(r, s, buf + PieceText(p), ps, o)
    ensures Scanned(r, PieceSpelling(p) + s, buf, [p] + ps, o)
  {
    ConsPiece(p, ps);
    if r.Ok? {
      Regroup(buf, PieceText(p), PiecesText(ps));
      Regroup(PieceSpelling(p), PiecesSpelling(ps), r.value.1);
    } else {
      Regroup(PieceSpelling(p), PiecesSpelling(ps), OpenSpelling(o));
    }
  }

  /** From behind an opening quote: the quoted text, and then, if the quote is closed, what follows. */
  ghost predicate ScannedSingle(r: Result<(string, string), Error>, s: string, buf: string,
                                text: string, closed: bool, tail: string, ps: seq<Piece>, o: Open)
  {
    && '\'' !in text
    && if closed then s == text + (['\''] + tail) && Scanned(r, tail, buf + text, ps, o)
      else s == text && r == Err(UnterminatedQuote)
  }

  lemma ScannedChar(r: Result<(string, string), Error>, c: char, s: string, buf: string,
                    text: string, closed: bool, tail: string, ps: seq<Piece>, o: Open)
    requires c != '\'' && ScannedSingle(r, s, buf + [c], text, closed, tail, ps, o)
    ensures ScannedSingle(r, [c] + s, buf, [c] + text, closed, tail, ps, o)
  {
    Regroup(buf, [c], text);
    Regroup([c], text, ['\''] + tail);
  }

  lemma {:induction false} UnscanSingle(s: string, buf: string)
      returns (text: string, closed: bool, tail: string, ps: seq<Piece>, o: Open)
    ensures ScannedSingle(ScanWord(s, Single, buf), s, buf, text, closed, tail, ps, o)
    decreases |s|, 0
  {
    if s == [] {
      text, closed, tail, ps, o := [], false, [], [], OpenEscape;
    } else if s[0] == '\'' {
      ps, o := Unscan(s[1..], buf);
      text, closed, tail := [], true, s[1..];
      assert s == text + (['\''] + tail) && buf + text == buf;
    } else {
      text, closed, tail, ps, o := UnscanSingle(s[1..], buf + [s[0]]);
      ScannedChar(ScanWord(s, Single, buf), s[0], s[1..], buf, text, closed, tail, ps, o);
      assert s == [s[0]] + s[1..];
      text := [s[0]] + text;
    }
  }

  ghost predicate ScannedDouble(r: Result<(string, string), Error>, s: string, buf: string,
                                ms: seq<Mark>, escape: bool, closed: bool, tail: string, ps: seq<Piece>, o: Open)
  {
    && ValidMarks(ms)
    && if closed then s == MarksSpelling(ms) + (['"'] + tail) && Scanned(r, tail, buf + MarksText(ms), ps, o)
      else
        && s == MarksSpelling(ms) + (if escape then ['\\'] else [])
        && r == Err(if escape then TrailingEscape else UnterminatedQuote)
  }

  function MarkSpelling(m: Mark): (r: string) { if m.escaped then ['\\', m.c] else [m.c] }

  lemma ConsMark(m: Mark, ms: seq<Mark>)
    ensures MarksSpelling([m] + ms) == MarkSpelling(m) + MarksSpelling(ms) && MarksText([m] + ms) == [m.c] + MarksText(ms)
  {
    assert ([m] + ms)[1..] == ms;
  }

  lemma ScannedMark(r: Result<(string, string), Error>, m: Mark, s: string, buf: string,
                    ms: seq<Mark>, escape: bool, closed: bool, tail: string, ps: seq<Piece>, o: Open)
    requires m.escaped || (m.c != '"' && m.c != '\\')
    requires ScannedDouble(r, s, buf + [m.c], ms, escape, closed, tail, ps, o)
    ensures ScannedDouble(r, MarkSpelling(m) + s, buf, [m] + ms, escape, closed, tail, ps, o)
  {
    ConsMark(m, ms);
    Regroup(buf, [m.c], MarksText(ms));
    Regroup(MarkSpelling(m), MarksSpelling(ms), ['"'] + tail);
    Regroup(MarkSpelling(m), MarksSpelling(ms), if escape then ['\\'] else []);
  }

  lemma {:induction false} UnscanDouble(s: string, buf: string)
      returns (ms: seq<Mark>, escape: bool, closed: bool, tail: string, ps: seq<Piece>, o: Open)
    ensures ScannedDouble(ScanWord(s, Double, buf), s, buf, ms, escape, closed, tail, ps, o)
    decreases |s|, 0
  {
    if s == [] || s == ['\\'] {
      ms, escape, closed, tail, ps, o := [], s != [], false, [], [], OpenEscape;
    } else if s[0] == '"' {
      ps, o := Unscan(s[1..], buf);
      ms, escape, closed, tail := [], false, true, s[1..];
      assert s == MarksSpelling(ms) + (['"'] + tail) && buf + MarksText(ms) == buf;
    } else if s[0] == '\\' {
      assert s == MarkSpelling(Mark(s[1], true)) + s[2..];
      ms, escape, closed, tail, ps, o := UnscanMark(Mark(s[1], true), s[2..], buf);
    } else {
      assert s == MarkSpelling(Mark(s[0], false)) + s[1..];
      ms, escape, closed, tail, ps, o := UnscanMark(Mark(s[0], false), s[1..], buf);
    }
  }

  lemma {:induction false} UnscanMark(m: Mark, s: string, buf: string)
      returns (ms: seq<Mark>, escape: bool, closed: bool, tail: string, ps: seq<Piece>, o: Open)
    requires m.escaped || (m.c != '"' && m.c != '\\')
    ensures ScannedDouble(ScanWord(MarkSpelling(m) + s, Double, buf), MarkSpelling(m) + s, buf, ms, escape, closed, tail, ps, o)
    decreases |s|, 3
  {
    ms, escape, closed, tail, ps, o := UnscanDouble(s, buf + [m.c]);
    ScanMark(m, s, buf);
    ScannedMark(ScanWord(s, Double, buf + [m.c]), m, s, buf, ms, escape, closed, tail, ps, o);
    ms := [m] + ms;
  }

  lemma ScannedNothing(r: Result<(string, string), Error>, s: string, buf: string, o: Open)
    requires ValidOpen(o)
    requires if r.Ok? then r.value == (buf, s) && (s == [] || IsBreak(s[0])) else r.error == OpenError(o) && s == OpenSpelling(o)
    ensures Scanned(r, s, buf, [], o)
  {
    assert PiecesSpelling([]) + s == s && buf + PiecesText([]) == buf;
  }

  lemma {:induction false} UnscanSingleQuoted(s: string, buf: string) returns (ps: seq<Piece>, o: Open)
    ensures Scanned(ScanWord(['\''] + s, Bare, buf), ['\''] + s, buf, ps, o)
    decreases |s|, 3
  {
    var r := ScanWord(s, Single, buf);
    ScanOpen('\'', s, buf);
    var text, closed, tail;
    text, closed, tail, ps, o := UnscanSingle(s, buf);
    if closed {
      Regroup(['\''], text, ['\''] + tail);
      Regroup(['\''] + text, ['\''], tail);
      ScannedPiece(r, SingleQuoted(text), tail, buf, ps, o);
      ps := [SingleQuoted(text)] + ps;
    } else {
      ps, o := [], OpenSingle(text);
      ScannedNothing(r, ['\''] + s, buf, o);
    }
  }

  lemma {:induction false} UnscanDoubleQuoted(s: string, buf: string) returns (ps: seq<Piece>, o: Open)
    ensures Scanned(ScanWord(['"'] + s, Bare, buf), ['"'] + s, buf, ps, o)
    decreases |s|, 3
  {
    var r := ScanWord(s, Double, buf);
    ScanOpen('"', s, buf);
    var ms, escape, closed, tail;
    ms, escape, closed, tail, ps, o := UnscanDouble(s, buf);
    if closed {
      Regroup(['"'], MarksSpelling(ms), ['"'] + tail);
      Regroup(['"'] + MarksSpelling(ms), ['"'], tail);
      ScannedPiece(r, DoubleQuoted(ms), tail, buf, ps, o);
      ps := [DoubleQuoted(ms)] + ps;
    } else {
      ps, o := [], OpenDouble(ms, escape);
      ScannedNothing(r, ['"'] + s, buf, o);
    }
  }

  /** Every scan of a word is explained. */
  lemma {:induction false} Unscan(s: string, buf: string) returns (ps: seq<Piece>, o: Open)
    ensures Scanned(ScanWord(s, Bare, buf), s, buf, ps, o)
    decreases |s|, 2
  {
    var r := ScanWord(s, Bare, buf);
    if s == [] || IsBreak(s[0]) || s == ['\\'] {
      ps, o := [], OpenEscape;
      ScannedNothing(r, s, buf, o);
    } else if s[0] == '\'' {
      assert s == ['\''] + s[1..];
      ps, o := UnscanSingleQuoted(s[1..], buf);
    } else if s[0] == '"' {
      assert s == ['"'] + s[1..];
      ps, o := UnscanDoubleQuoted(s[1..], buf);
    } else if s[0] == '\\' {
      ps, o := Unscan(s[2..], buf + [s[1]]);
      assert s == PieceSpelling(Escaped(s[1])) + s[2..];
      ScannedPiece(r, Escaped(s[1]), s[2..], buf, ps, o);
      ps := [Escaped(s[1])] + ps;
    } else {
      ps, o := Unscan(s[1..], buf + [s[0]]);
      assert s == PieceSpelling(Plain(s[0])) + s[1..];
      ScannedPiece(r, Plain(s[0]), s[1..], buf, ps, o);
      ps := [Plain(s[0])] + ps;
    }
  }

  // ----- Lines -----

  /** A word as the last token is followed by white space. */
  predicate EndsApart(xs: seq<Spelled>) {
    xs != [] && xs[|xs| - 1].SpelledWord? ==> xs[|xs| - 1].gap != []
  }

  /** A word that the end of the line cuts short. */
  function Unfinished(ps: seq<Piece>, o: Open): (r: string)
    requires ValidPieces(ps)
    ensures r != [] && !IsBreak(r[0])
  {
    PiecesSpelling(ps) + OpenSpelling(o)
  }

  lemma LexUnfinished(got: seq<Token>, ps: seq<Piece>, o: Open)
    requires ValidPieces(ps) && ValidOpen(o)
    ensures LexOn(got, Unfinished(ps, o)) == Err(OpenError(o))
  {
    ScanPieces(ps, OpenSpelling(o), []);
    ScanUnfinished(o, [] + PiecesText(ps));
  }

  /** What follows tokens without running into them. */
  predicate MayFollow(xs: seq<Spelled>, end: string) { end == [] || (EndsApart(xs) && !IsBreak(end[0])) }

  lemma LineApartThen(xs: seq<Spelled>, end: string)
    requires ValidLine(xs) && xs != [] && MayFollow(xs, end)
    ensures ValidLine(xs[1..]) && ValidSpelled(xs[0]) && MayFollow(xs[1..], end)
    ensures Apart(xs[0], xs[0].gap + (Written(xs[1..]) + end))
  {
    ValidTail(xs);
    LineApart(xs);
    Regroup(xs[0].gap, Written(xs[1..]), end);
    if xs[0].gap + Written(xs[1..]) == [] {
      assert |xs| == 1 && xs[0].gap + (Written(xs[1..]) + end) == end;
    }
  }

  lemma {:induction false} LexThen(got: seq<Token>, xs: seq<Spelled>, end: string)
    requires ValidLine(xs) && MayFollow(xs, end)
    ensures LexOn(got, Written(xs) + end) == LexOn(got + Meanings(xs), end)
    decreases |xs|
  {
    if xs == [] {
      assert got + Meanings(xs) == got && Written(xs) + end == end;
    } else {
      LineApartThen(xs, end);
      var rest := Written(xs[1..]);
      Regroup(xs[0].gap, rest, end);
      Regroup(Spelling(xs[0]), xs[0].gap + rest, end);
      LexSpelled(got, xs[0], rest + end);
      LexThen(got + [Meaning(xs[0])], xs[1..], end);
      Regroup(got, [Meaning(xs[0])], Meanings(xs[1..]));
    }
  }

  /** How reading s ended with r: white space, tokens, and the end of the line, which may cut a word short. */
  ghost predicate Lexed(r: Result<seq<Token>, Error>, got: seq<Token>, s: string,
                        lead: string, xs: seq<Spelled>, ps: seq<Piece>, o: Open)
  {
    && AllSpace(lead) && ValidLine(xs)
    && match r
      case Ok(ts) => ts == got + Meanings(xs) && s == lead + Written(xs)
      case Err(e) => CutShort(e, s, lead, xs, ps, o)
  }

  ghost predicate CutShort(e: Error, s: string, lead: string, xs: seq<Spelled>, ps: seq<Piece>, o: Open)
    requires ValidLine(xs)
  {
    && EndsApart(xs) && ValidPieces(ps) && ValidOpen(o) && e == OpenError(o)
    && s == lead + (Written(xs) + Unfinished(ps, o))
  }

  lemma FirstOfSpelling(y: Spelled)
    requires ValidSpelled(y)
    ensures y.SpelledWord? ==> !IsBreak(Spelling(y)[0])
    ensures y.SpelledOperator? && (y.operator == Out || y.operator == Append) ==> Spelling(y)[0] == '>'
  {
  }

  lemma FirstOfLine(xs: seq<Spelled>)
    requires ValidLine(xs) && xs != []
    ensures ValidSpelled(xs[0]) && Written(xs)[0] == Spelling(xs[0])[0]
  {
  }

  /** A token before a line. */
  lemma ConsLine(x: Spelled, xs: seq<Spelled>, end: string)
    requires ValidSpelled(x) && ValidLine(xs) && Apart(x, x.gap + (Written(xs) + end))
    ensures ValidLine([x] + xs) && Written([x] + xs) == Spelling(x) + (x.gap + Written(xs))
    ensures Meanings([x] + xs) == [Meaning(x)] + Meanings(xs)
  {
    if x.gap == [] && xs != [] {
      FirstOfLine(xs);
      FirstOfSpelling(xs[0]);
      assert x.gap + (Written(xs) + end) == Written(xs) + end;
      assert !Fuses(x, xs[0]);
    }
    var ys := [x] + xs;
    assert ys[1..] == xs;
    forall i | 0 <= i < |ys| - 1
      ensures ys[i].gap == [] ==> !Fuses(ys[i], ys[i + 1])
    {
      assert i > 0 ==> ys[i] == xs[i - 1] && ys[i + 1] == xs[i];
    }
  }

  lemma ConsApart(x: Spelled, xs: seq<Spelled>, end: string)
    requires ValidSpelled(x) && ValidLine(xs) && Apart(x, x.gap + (Written(xs) + end))
    requires EndsApart(xs) && end != [] && !IsBreak(end[0])
    ensures EndsApart([x] + xs)
  {
    if xs == [] {
      assert x.gap + (Written(xs) + end) == x.gap + end;
    }
  }

  /** A token before what was read. */
  lemma LexedToken(r: Result<seq<Token>, Error>, got: seq<Token>, x: Spelled, rest: string,
                   xs: seq<Spelled>, ps: seq<Piece>, o: Open)
    requires ValidSpelled(x) && Apart(x, rest) && Lexed(r, got + [Meaning(x)], rest, x.gap, xs, ps, o)
    ensures Lexed(r, got, Spelling(x) + rest, [], [x] + xs, ps, o)
  {
    var end := if r.Ok? then [] else Unfinished(ps, o);
    assert r.Ok? ==> Written(xs) + end == Written(xs);
    ConsLine(x, xs, end);
    Regroup(got, [Meaning(x)], Meanings(xs));
    if r.Err? {
      ConsApart(x, xs, end);
      Regroup(x.gap, Written(xs), end);
      Regroup(Spelling(x), x.gap + Written(xs), end);
    }
    assert [] + (Spelling(x) + rest) == Spelling(x) + rest;
  }

  lemma LexedSpace(r: Result<seq<Token>, Error>, got: seq<Token>, c: char, s: string,
                   lead: string, xs: seq<Spelled>, ps: seq<Piece>, o: Open)
    requires IsSpace(c) && Lexed(r, got, s, lead, xs, ps, o)
    ensures Lexed(r, got, [c] + s, [c] + lead, xs, ps, o)
  {
    if r.Ok? {
      Regroup([c], lead, Written(xs));
    } else {
      Regroup([c], lead, Written(xs) + Unfinished(ps, o));
    }
  }

  lemma {:induction false} UnlexOperator(got: seq<Token>, t: Token, rest: string)
      returns (xs: seq<Spelled>, ps: seq<Piece>, o: Open)
    requires !t.Word? && (t == Out ==> rest == [] || rest[0] != '>')
    ensures Lexed(LexOn(got, OperatorSpelling(t) + rest), got, OperatorSpelling(t) + rest, [], xs, ps, o)
    decreases |rest|, 3
  {
    var gap;
    gap, xs, ps, o := Unlex(got + [t], rest);
    LexOperator(got, t, rest);
    LexedToken(LexOn(got + [t], rest), got, SpelledOperator(t, gap), rest, xs, ps, o);
    xs := [SpelledOperator(t, gap)] + xs;
  }

  lemma {:induction false} UnlexWord(got: seq<Token>, s: string) returns (xs: seq<Spelled>, ps: seq<Piece>, o: Open)
    requires s != [] && !IsBreak(s[0])
    ensures Lexed(LexOn(got, s), got, s, [], xs, ps, o)
    decreases |s|, 0
  {
    ps, o := Unscan(s, []);
    var r := ScanWord(s, Bare, []);
    if r.Err? {
      xs := [];
      assert [] + (Written(xs) + Unfinished(ps, o)) == s;
    } else {
      var word, rest, pieces := r.value.0, r.value.1, ps;
      assert PiecesText(pieces) == word;
      assert PiecesSpelling([]) + rest == rest;
      assert pieces != [];
      var gap;
      gap, xs, ps, o := Unlex(got + [Word(word)], rest);
      LexedToken(LexOn(got + [Word(word)], rest), got, SpelledWord(pieces, gap), rest, xs, ps, o);
      xs := [SpelledWord(pieces, gap)] + xs;
    }
  }

  /** Which operator a line starts with. */
  function LeadingOperator(s: string): (r: Token)
    requires s != [] && IsOperator(s[0])
    ensures !r.Word? && OperatorSpelling(r) <= s && (r == Out ==> |s| == 1 || s[1] != '>')
  {
    if s[0] == '|' then Pipe
    else if s[0] == '<' then In
    else if s[0] == '&' then Background
    else if |s| > 1 && s[1] == '>' then Append
    else Out
  }

  /** Every line is explained. */
  lemma {:induction false} Unlex(got: seq<Token>, s: string)
      returns (lead: string, xs: seq<Spelled>, ps: seq<Piece>, o: Open)
    ensures Lexed(LexOn(got, s), got, s, lead, xs, ps, o)
    decreases |s|, 2
  {
    if s == [] {
      lead, xs, ps, o := [], [], [], OpenEscape;
      assert got + Meanings(xs) == got;
    } else if IsSpace(s[0]) {
      lead, xs, ps, o := Unlex(got, s[1..]);
      LexedSpace(LexOn(got, s[1..]), got, s[0], s[1..], lead, xs, ps, o);
      assert s == [s[0]] + s[1..];
      lead := [s[0]] + lead;
    } else if IsOperator(s[0]) {
      var t := LeadingOperator(s);
      var rest := s[|OperatorSpelling(t)|..];
      assert s == OperatorSpelling(t) + rest;
      assert t == Out && rest != [] ==> rest[0] == s[1];
      lead := [];
      xs, ps, o := UnlexOperator(got, t, rest);
    } else {
      lead := [];
      xs, ps, o := UnlexWord(got, s);
    }
  }

  // ----- Main results -----

  /** A line reads as tokens exactly if it is white space followed by a way of writing these tokens down. */
  lemma LexExact(line: string, ts: seq<Token>)
    ensures Lex(line) == Ok(ts) <==>
      exists lead, xs :: AllSpace(lead) && ValidLine(xs) && line == lead + Written(xs) && Meanings(xs) == ts
  {
    if Lex(line) == Ok(ts) {
      var lead, xs, ps, o := Unlex([], line);
      assert [] + Meanings(xs) == Meanings(xs);
    }
    forall lead, xs | AllSpace(lead) && ValidLine(xs) && line == lead + Written(xs) && Meanings(xs) == ts
      ensures Lex(line) == Ok(ts)
    {
      LexGap([], lead, Written(xs));
      LexWritten([], xs);
      assert [] + Meanings(xs) == Meanings(xs);
    }
  }

  /** It is refused exactly if it ends behind a backslash or inside quotes, and the error says which. */
  lemma LexErrorExact(line: string, e: Error)
    ensures Lex(line) == Err(e) <==>
      exists lead, xs, ps, o :: AllSpace(lead) && ValidLine(xs) && CutShort(e, line, lead, xs, ps, o)
  {
    if Lex(line) == Err(e) {
      var lead, xs, ps, o := Unlex([], line);
      assert CutShort(e, line, lead, xs, ps, o);
    }
    forall lead, xs, ps, o | AllSpace(lead) && ValidLine(xs) && CutShort(e, line, lead, xs, ps, o)
      ensures Lex(line) == Err(e)
    {
      var end := Unfinished(ps, o);
      LexGap([], lead, Written(xs) + end);
      LexThen([], xs, end);
      LexUnfinished([] + Meanings(xs), ps, o);
    }
  }
}
