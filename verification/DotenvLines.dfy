/**
 Lines as people write them, which the printer never does: what each adds to what the text
 before it gives, and which are errors.  Everything here is said about texts.
 */
module DotenvLines {
  import opened Wrappers
  import opened Text
  import opened DotenvComments
  import opened DotenvValues
  import opened Dotenv
  import opened DotenvRoundTrip

  // ---- Reading on -----------------------------------------------------------------------

  /** Nothing, or whole lines. */
  predicate Whole(text: string) {
    |text| == 0 || text[|text| - 1] == '\n'
  }

  /** The reader after the lines of a text. */
  function ReaderAfter(text: string): Reader {
    ReadLines(START, ScanLines(text))
  }

  lemma FirstLine(text: string) returns (line: string, rest: string)
    requires Whole(text) && |text| > 0
    ensures text == line + "\n" + rest && '\n' !in line && Whole(rest) && |rest| < |text|
  {
    hide IndexOf;
    var n := |text| - 1;
    assert text[n] in text;
    var k := IndexOf(text, '\n').value;
    line, rest := text[..k], text[k + 1..];
    Halves(text, k + 1);
    assert text[..k + 1] == line + "\n";
  }

  lemma {:induction false} ScanConcat(text: string, more: string)
    requires Whole(text)
    ensures ScanLines(text + more) == ScanLines(text) + ScanLines(more)
    decreases |text|
  {
    if |text| == 0 {
      assert text + more == more;
      ScanNone();
    } else {
      hide DropCR;
      hide ScanLines;
      var line, rest := FirstLine(text);
      ScanConcat(rest, more);
      ScanFirst(line, rest);
      ScanFirst(line, rest + more);
      ConcatAssoc(line + "\n", rest, more);
      ConcatAssoc([DropCR(line)], ScanLines(rest), ScanLines(more));
    }
  }

  lemma ScanNone()
    ensures ScanLines("") == []
  {
  }

  lemma ScanLast(line: string)
    requires '\n' !in line
    ensures ScanLines(line + "\n") == [DropCR(line)]
    ensures |line| > 0 ==> ScanLines(line) == [DropCR(line)]
  {
    hide DropCR;
    ScanFirst(line, "");
    assert line + "\n" + "" == line + "\n";
    assert ScanLines("") == [];
  }

  lemma TrimDropsCR(line: string)
    ensures TrimSpace(DropCR(line)) == TrimSpace(line)
  {
    hide TrimLeft;
    hide TrimRight;
    hide CharClass.Has;
    if |line| > 0 && line[|line| - 1] == '\r' {
      DropCRKeepsTrim(line);
      TrimTwice(line);
      TrimTwice(DropCR(line));
    }
  }

  /** A line is read for what is left of it when its ends are trimmed. */
  lemma ReadsTrimmed(r: Reader, line: string, other: string)
    requires TrimSpace(line) == TrimSpace(other)
    ensures ReadLine(r, line) == ReadLine(r, other)
  {
    hide TrimSpace;
    hide ReadAssignment;
    hide BlockAdd;
  }

  /** One more line. */
  lemma ReaderGoesOn(text: string, line: string)
    requires Whole(text) && '\n' !in line
    ensures Whole(text + line + "\n") && ReaderAfter(text + line + "\n") == ReadLine(ReaderAfter(text), line)
  {
    hide ScanLines;
    hide ReadLine;
    hide DropCR;
    hide TrimSpace;
    ConcatAssoc(text, line, "\n");
    ScanConcat(text, line + "\n");
    ScanLast(line);
    ReadLinesConcat(START, ScanLines(text), [DropCR(line)]);
    ReadOne(ReaderAfter(text), DropCR(line));
    TrimDropsCR(line);
    ReadsTrimmed(ReaderAfter(text), DropCR(line), line);
  }

  lemma ReadOne(r: Reader, line: string)
    ensures ReadLines(r, [line]) == ReadLine(r, line)
  {
    hide ReadLine;
    assert [line][..0] == [];
  }

  lemma ParseIsReader(text: string)
    ensures Parse(text) == if ReaderAfter(text).error.Some? then Err(ReaderAfter(text).error.value) else Ok(ReaderAfter(text).entries)
  {
  }

  /** The text after whole lines goes on from where they lead. */
  lemma ReaderContinues(text: string, more: string)
    requires Whole(text)
    ensures ReaderAfter(text + more) == ReadLines(ReaderAfter(text), ScanLines(more))
  {
    hide ScanLines;
    hide ReadLine;
    ScanConcat(text, more);
    ReadLinesConcat(START, ScanLines(text), ScanLines(more));
  }

  /** After an error nothing counts: the first bad line's report stands. */
  lemma FirstErrorStands(text: string, more: string)
    requires Whole(text) && Parse(text).Err?
    ensures Parse(text + more) == Parse(text)
  {
    hide ScanLines;
    hide ReadLine;
    ReaderContinues(text, more);
    StaysInError(ReaderAfter(text), ScanLines(more));
  }

  lemma {:induction false} StaysInError(r: Reader, lines: seq<string>)
    requires r.error.Some?
    ensures ReadLines(r, lines) == r
  {
    if |lines| > 0 {
      StaysInError(r, lines[..|lines| - 1]);
    }
  }

  /** Lines may end in "\r\n". */
  lemma CarriageReturnIsNoText(text: string, line: string)
    requires Whole(text) && '\n' !in line
    ensures Parse(text + line + "\r\n") == Parse(text + line + "\n")
  {
    hide ReadLine;
    hide ScanLines;
    hide TrimSpace;
    hide DropCR;
    var ended := line + "\r";
    ReaderGoesOn(text, ended);
    ReaderGoesOn(text, line);
    assert text + ended + "\n" == text + line + "\r\n";
    DroppedCR(line);
    TrimDropsCR(ended);
    ReadsTrimmed(ReaderAfter(text), ended, line);
  }

  lemma DroppedCR(line: string)
    ensures DropCR(line + "\r") == line
  {
  }

  /** The last line may lack its newline. */
  lemma LastNewlineIsOptional(text: string, line: string)
    requires Whole(text) && '\n' !in line && |line| > 0
    ensures Parse(text + line) == Parse(text + line + "\n")
  {
    hide ScanLines;
    hide ReadLine;
    hide DropCR;
    ConcatAssoc(text, line, "\n");
    ScanConcat(text, line);
    ScanConcat(text, line + "\n");
    ScanLast(line);
  }

  // ---- Assignments -----------------------------------------------------------------------

  /** After any text that parses the line adds this pair; alone it gives this pair and no annotation. */
  ghost predicate Gives(line: string, k: string, v: string) {
    && Parse(line + "\n") == Ok([Entry(k, v, NO_ANN)])
    && forall text | Whole(text) && Parse(text).Ok? ::
         exists a :: Parse(text + line + "\n") == Ok(Parse(text).value + [Entry(k, v, a)])
  }

  lemma ReadIsGiven(line: string, k: string, v: string)
    requires '\n' !in line
    requires var raw := TrimSpace(line); |raw| > 0 && raw[0] != '#' && ReadAssignment(raw) == Ok((k, v))
    ensures Gives(line, k, v)
  {
    hide ReadAssignment;
    hide TrimSpace;
    hide ScanLines;
    hide ReadLines;
    hide BlockAnn;
    hide Parse;
    forall text | Whole(text) && Parse(text).Ok?
      ensures exists a :: Parse(text + line + "\n") == Ok(Parse(text).value + [Entry(k, v, a)])
      ensures ReaderAfter(text).block == EMPTY_BLOCK ==> Parse(text + line + "\n") == Ok(Parse(text).value + [Entry(k, v, NO_ANN)])
    {
      ReaderGoesOn(text, line);
      ParseIsReader(text);
      ParseIsReader(text + line + "\n");
      EmptyBlockIsNoAnn();
      assert Parse(text + line + "\n") == Ok(Parse(text).value + [Entry(k, v, BlockAnn(ReaderAfter(text).block))]);
    }
    EmptyTextReads();
    assert Parse("" + line + "\n") == Ok(Parse("").value + [Entry(k, v, NO_ANN)]);
    assert "" + line == line && [] + [Entry(k, v, NO_ANN)] == [Entry(k, v, NO_ANN)];
  }

  lemma EmptyTextReads()
    ensures ReaderAfter("") == START && Parse("") == Ok([])
  {
    assert ScanLines("") == [];
  }

  lemma EmptyBlockIsNoAnn()
    ensures BlockAnn(EMPTY_BLOCK) == NO_ANN
  {
    hide Trim;
    hide Join;
    EmptyDescription();
  }

  /** An assignment's line without the white space at its end. */
  lemma {:induction false} TrimmedAssignment(k: string, s: string, rest: string)
    requires KeyOk(k) && |s| > 0 && !Spaces.Has(s[|s| - 1])
    ensures TrimSpace(k + "=" + s + rest) == k + "=" + (s + TrimRight(rest, Spaces))
  {
    hide TrimLeft;
    hide TrimRight;
    hide CharClass.Has;
    var line := k + "=" + s;
    TrimLeftStops(line + rest, Spaces);
    assert line[|line| - 1] == s[|s| - 1];
    TrimRightKeeps(line, rest, Spaces);
    ConcatAssoc(k + "=", s, TrimRight(rest, Spaces));
  }

  lemma AssignmentGives(k: string, line: string, t: string, v: string)
    requires KeyOk(k) && '\n' !in line && TrimSpace(line) == k + "=" + t && ReadValue(t) == Some(v)
    ensures Gives(line, k, v)
  {
    hide TrimSpace;
    hide ReadAssignment;
    hide ReadValue;
    hide Gives;
    ReadsKey(k, t);
    ReadIsGiven(line, k, v);
  }

  predicate CommentAt(v: string, i: nat)
    requires i + 1 < |v|
  {
    v[i] == ' ' && v[i + 1] == '#'
  }

  /** No blank directly followed by a hash. */
  ghost predicate NoComment(v: string) {
    forall i | 0 <= i < |v| - 1 :: !CommentAt(v, i)
  }

  lemma NoCommentAfter(v: string)
    requires NoComment(v) && |v| > 0
    ensures NoComment(v[1..])
  {
    forall i | 0 <= i < |v[1..]| - 1 ensures !CommentAt(v[1..], i) {
      assert !CommentAt(v, i + 1);
    }
  }

  lemma NoCommentBefore(v: string, n: nat)
    requires NoComment(v) && n <= |v|
    ensures NoComment(v[..n])
  {
    forall i | 0 <= i < n - 1 ensures !CommentAt(v[..n], i) {
      assert !CommentAt(v, i);
    }
  }

  predicate StartsQuoted(v: string) {
    |v| > 0 && (v[0] == '"' || v[0] == '\'')
  }

  lemma {:induction false} FirstPair(v: string, c: string)
    requires NoComment(v)
    ensures IndexOfPair(v + " #" + c, ' ', '#') == Some(|v|)
  {
    var s := v + " #" + c;
    if |v| == 0 {
      assert s[0] == ' ' && s[1] == '#';
    } else {
      assert s[1..] == v[1..] + " #" + c;
      NoCommentAfter(v);
      assert s[1] == if |v| > 1 then v[1] else ' ';
      assert |v| > 1 ==> !CommentAt(v, 0);
      FirstPair(v[1..], c);
    }
  }

  lemma {:induction false} NoPair(v: string)
    requires NoComment(v)
    ensures IndexOfPair(v, ' ', '#') == None
  {
    if |v| > 1 {
      NoCommentAfter(v);
      assert !CommentAt(v, 0);
      NoPair(v[1..]);
    }
  }

  /** A value that is not quoted ends at a blank and a hash; white space around it goes. */
  lemma InlineCommentIsCut(k: string, v: string, c: string)
    requires KeyOk(k) && !StartsQuoted(v) && NoComment(v) && '\n' !in v && '\n' !in c
    ensures Gives(k + "=" + v + " #" + c, k, TrimSpace(v))
  {
    hide TrimRight;
    hide TrimLeft;
    hide IndexOfPair;
    hide Gives;
    hide CharClass.Has;
    HashIsNoSpace();
    var line := k + "=" + v + " #" + c;
    var end := TrimRight(c, Spaces);
    var t := v + " #" + end;
    ConcatAssoc(k + "=", v, " #");
    TrimmedAssignment(k, v + " #", c);
    FirstPair(v, end);
    assert t[..|v|] == v && !StartsQuoted(t);
    AssignmentGives(k, line, t, TrimSpace(v));
  }

  lemma HashIsNoSpace()
    ensures !Spaces.Has('#') && !Spaces.Has('=') && !Spaces.Has('"') && !Spaces.Has('\'')
  {
  }

  /** A value that is neither quoted nor followed by a comment is what is between its ends' white space. */
  lemma BareValueIsTrimmed(k: string, v: string)
    requires KeyOk(k) && !StartsQuoted(v) && NoComment(v) && '\n' !in v
    ensures Gives(k + "=" + v, k, TrimSpace(v))
  {
    hide TrimRight;
    hide TrimLeft;
    hide IndexOfPair;
    hide Gives;
    hide CharClass.Has;
    HashIsNoSpace();
    var end := TrimRight(v, Spaces);
    TrimmedBare(k, v);
    assert end == v[..|end|];
    NoCommentBefore(v, |end|);
    NoPair(end);
    TrimTwice(v);
    AssignmentGives(k, k + "=" + v, end, TrimSpace(v));
  }

  lemma {:induction false} TrimmedBare(k: string, v: string)
    requires KeyOk(k)
    ensures TrimSpace(k + "=" + v) == k + "=" + TrimRight(v, Spaces)
  {
    hide TrimRight;
    hide TrimLeft;
    hide CharClass.Has;
    HashIsNoSpace();
    TrimLeftStops(k + "=" + v, Spaces);
    TrimRightKeeps(k + "=", v, Spaces);
  }

  /** Between apostrophes a value stands for itself, and what follows them counts for nothing. */
  lemma ApostrophesQuote(k: string, v: string, rest: string)
    requires KeyOk(k) && '\'' !in v && '\n' !in v && '\n' !in rest
    ensures Gives(k + "='" + v + "'" + rest, k, v)
  {
    hide TrimSpace;
    hide Gives;
    hide Unescape;
    QuotedLine(k, '\'', v, rest);
    Requoted(k, '\'', v, rest);
    assert "=" + ['\''] == "='" && ['\''] == "'";
    QuotedReads('\'', v, TrimRight(rest, Spaces));
    AssignmentGives(k, k + "='" + v + "'" + rest, ['\''] + v + ['\''] + TrimRight(rest, Spaces), v);
  }

  lemma Requoted(k: string, q: char, w: string, rest: string)
    ensures k + ("=" + [q]) + w + [q] + rest == k + "=" + ([q] + w + [q]) + rest
  {
    ConcatAssoc(k, "=", [q]);
    Concat4(k + "=", [q], w, [q]);
  }

  /** What a quoted value reads as. */
  lemma QuotedReads(q: char, w: string, end: string)
    requires (q == '"' || q == '\'') && q !in w
    ensures ReadValue([q] + w + [q] + end) == Some(if q == '"' then Unescape(w) else w)
  {
    hide Unescape;
    var t := [q] + w + [q] + end;
    var rest := [q] + end;
    Concat4([q], w, [q], end);
    ConcatAssoc(w, [q], end);
    assert t[1..] == w + rest;
    assert t[1..][..|w|] == w && t[1..][|w|] == q;
    IndexOfAt(t[1..], q, |w|);
  }

  /** A quoted value's line when its end is trimmed. */
  lemma {:induction false} QuotedLine(k: string, q: char, w: string, rest: string)
    requires KeyOk(k) && (q == '"' || q == '\'')
    ensures TrimSpace(k + "=" + ([q] + w + [q]) + rest) == k + "=" + ([q] + w + [q] + TrimRight(rest, Spaces))
  {
    hide TrimRight;
    hide TrimLeft;
    HashIsNoSpace();
    hide CharClass.Has;
    TrimmedAssignment(k, [q] + w + [q], rest);
  }

  // ---- Escapes -------------------------------------------------------------------------

  /** What can stand in a double-quoted value. */
  datatype Piece = Plain(c: char) | Newline | Tab | Backslash {
    function Written(): string {
      match this case Plain(c) => [c] case Newline => "\\n" case Tab => "\\t" case Backslash => "\\\\"
    }
    function Meant(): char {
      match this case Plain(c) => c case Newline => '\n' case Tab => '\t' case Backslash => '\\'
    }
    predicate Ordinary() {
      Plain? ==> c != '\\' && c != '"' && c != '\n'
    }
  }

  function Written(ps: seq<Piece>): string {
    if |ps| == 0 then "" else ps[0].Written() + Written(ps[1..])
  }

  function Meant(ps: seq<Piece>): string {
    if |ps| == 0 then "" else [ps[0].Meant()] + Meant(ps[1..])
  }

  /** No escaped backslash stands in front of a letter that would make another escape of it. */
  ghost predicate Clear(ps: seq<Piece>) {
    && (forall i | 0 <= i < |ps| :: ps[i].Ordinary())
    && forall i | 0 <= i < |ps| - 1 && ps[i] == Backslash :: ps[i + 1] != Plain('n') && ps[i + 1] != Plain('t')
  }

  /** The text once the first n of the replacements are done: newlines, then tabs, then backslashes. */
  function Stage(ps: seq<Piece>, n: nat): string {
    if |ps| == 0 then ""
    else (if (ps[0].Newline? && n >= 1) || (ps[0].Tab? && n >= 2) then [ps[0].Meant()] else ps[0].Written()) + Stage(ps[1..], n)
  }

  lemma ClearTail(ps: seq<Piece>)
    requires |ps| > 0 && Clear(ps)
    ensures Clear(ps[1..]) && ps[0].Ordinary()
    ensures ps[0] == Backslash && |ps| > 1 ==> ps[1] != Plain('n') && ps[1] != Plain('t')
  {
    var tail := ps[1..];
    forall i | 0 <= i < |tail| ensures tail[i].Ordinary() {
      assert tail[i] == ps[i + 1];
    }
    forall i | 0 <= i < |tail| - 1 && tail[i] == Backslash ensures tail[i + 1] != Plain('n') && tail[i + 1] != Plain('t') {
      assert tail[i] == ps[i + 1] && tail[i + 1] == ps[i + 2];
    }
  }

  /** The first character a stage starts with. */
  lemma StageFirst(ps: seq<Piece>, n: nat)
    requires |ps| > 0 && ps[0].Ordinary()
    ensures |Stage(ps, n)| > 0
    ensures Stage(ps, n)[0] == 'n' <==> ps[0] == Plain('n')
    ensures Stage(ps, n)[0] == 't' <==> ps[0] == Plain('t')
  {
  }

  /** Stepping over one character, wherever the text after it begins. */
  lemma OneOver(x: char, s: string, a: char, b: char, c: char)
    requires !(x == a && |s| > 0 && s[0] == b)
    ensures ReplacePair([x] + s, a, b, c) == [x] + ReplacePair(s, a, b, c)
  {
    if |s| > 0 {
      PairStep(a, b, c, x, s);
    } else {
      assert [x] + s == [x];
    }
  }

  lemma {:induction false} NewlinesRead(ps: seq<Piece>)
    requires Clear(ps)
    ensures ReplacePair(Stage(ps, 0), '\\', 'n', '\n') == Stage(ps, 1)
  {
    if |ps| > 0 {
      ClearTail(ps);
      NewlinesRead(ps[1..]);
      if |ps| > 1 {
        StageFirst(ps[1..], 0);
      }
      PieceOver(ps[0], Stage(ps[1..], 0), 'n', '\n');
    }
  }

  lemma {:induction false} TabsRead(ps: seq<Piece>)
    requires Clear(ps)
    ensures ReplacePair(Stage(ps, 1), '\\', 't', '\t') == Stage(ps, 2)
  {
    if |ps| > 0 {
      ClearTail(ps);
      TabsRead(ps[1..]);
      if |ps| > 1 {
        StageFirst(ps[1..], 1);
      }
      if ps[0].Newline? {
        OneOver('\n', Stage(ps[1..], 1), '\\', 't', '\t');
      } else {
        PieceOver(ps[0], Stage(ps[1..], 1), 't', '\t');
      }
    }
  }

  /** One replacement over one piece. */
  lemma PieceOver(p: Piece, s: string, b: char, c: char)
    requires p.Ordinary() && ((b == 'n' && c == '\n') || (b == 't' && c == '\t'))
    requires p == Backslash ==> |s| > 0 ==> s[0] != b
    ensures ReplacePair(p.Written() + s, '\\', b, c) ==
            (if (p.Newline? && b == 'n') || (p.Tab? && b == 't') then [c] else p.Written()) + ReplacePair(s, '\\', b, c)
  {
    match p
    case Plain(x) => OneOver(x, s, '\\', b, c);
    case Newline => TwoOver('n', s, b, c);
    case Tab => TwoOver('t', s, b, c);
    case Backslash => TwoOver('\\', s, b, c);
  }

  lemma TwoOver(x: char, s: string, b: char, c: char)
    requires x == '\\' ==> |s| > 0 ==> s[0] != b
    requires b != '\\'
    ensures ReplacePair(['\\', x] + s, '\\', b, c) == (if x == b then [c] else ['\\', x]) + ReplacePair(s, '\\', b, c)
  {
    if x == b {
      PairHit('\\', b, c, s);
    } else {
      var rest := [x] + s;
      assert ['\\', x] + s == ['\\'] + rest;
      OneOver('\\', rest, '\\', b, c);
      OneOver(x, s, '\\', b, c);
      assert ['\\'] + ([x] + ReplacePair(s, '\\', b, c)) == ['\\', x] + ReplacePair(s, '\\', b, c);
    }
  }

  lemma {:induction false} BackslashesRead(ps: seq<Piece>)
    requires Clear(ps)
    ensures ReplacePair(Stage(ps, 2), '\\', '\\', '\\') == Meant(ps)
  {
    if |ps| > 0 {
      ClearTail(ps);
      BackslashesRead(ps[1..]);
      var s := Stage(ps[1..], 2);
      if ps[0].Backslash? {
        PairHit('\\', '\\', '\\', s);
      } else {
        OneOver(ps[0].Meant(), s, '\\', '\\', '\\');
      }
    }
  }

  lemma {:induction false} NoQuoteIn(ps: seq<Piece>, n: nat)
    requires Clear(ps)
    ensures '"' !in Stage(ps, n) && (n == 0 ==> '\n' !in Stage(ps, n) && Stage(ps, n) == Written(ps))
  {
    if |ps| > 0 {
      ClearTail(ps);
      NoQuoteIn(ps[1..], n);
    }
  }

  lemma PiecesUnescape(ps: seq<Piece>)
    requires Clear(ps)
    ensures Unescape(Written(ps)) == Meant(ps) && '"' !in Written(ps) && '\n' !in Written(ps)
  {
    NoQuoteIn(ps, 0);
    NoQuoteIn(ps, 2);
    NewlinesRead(ps);
    TabsRead(ps);
    ReplacePairAbsent(Stage(ps, 2), '\\', '"', '"');
    BackslashesRead(ps);
  }

  /** Between quotes a value is read with its escapes, and what follows the quotes counts for nothing. */
  lemma QuotesEscape(k: string, ps: seq<Piece>, rest: string)
    requires KeyOk(k) && Clear(ps) && '\n' !in rest
    ensures Gives(k + "=\"" + Written(ps) + "\"" + rest, k, Meant(ps))
  {
    hide TrimRight;
    hide TrimLeft;
    hide Gives;
    hide CharClass.Has;
    hide Unescape;
    hide Written;
    hide Meant;
    hide Clear;
    hide TrimSpace;
    PiecesUnescape(ps);
    var w := Written(ps);
    QuotedLine(k, '"', w, rest);
    Requoted(k, '"', w, rest);
    assert "=" + ['"'] == "=\"" && ['"'] == "\"";
    QuotedReads('"', w, TrimRight(rest, Spaces));
    QuotedOneLine(k, w, rest);
    AssignmentGives(k, k + "=\"" + w + "\"" + rest, ['"'] + w + ['"'] + TrimRight(rest, Spaces), Meant(ps));
  }

  lemma QuotedOneLine(k: string, w: string, rest: string)
    requires '\n' !in k && '\n' !in w && '\n' !in rest
    ensures '\n' !in k + "=\"" + w + "\"" + rest
  {
  }

  /** Text in quotes without a backslash stands for itself. */
  lemma QuotesWithoutEscapes(k: string, v: string, rest: string)
    requires KeyOk(k) && '"' !in v && '\\' !in v && '\n' !in v && '\n' !in rest
    ensures Gives(k + "=\"" + v + "\"" + rest, k, v)
  {
    hide Gives;
    var ps := seq(|v|, i requires 0 <= i < |v| => Plain(v[i]));
    assert forall i | 0 <= i < |v| :: v[i] in v;
    PlainIsItself(v, ps);
    QuotesEscape(k, ps, rest);
  }

  lemma {:induction false} PlainIsItself(v: string, ps: seq<Piece>)
    requires |ps| == |v| && forall i | 0 <= i < |v| :: ps[i] == Plain(v[i])
    ensures Written(ps) == v && Meant(ps) == v
  {
    if |v| > 0 {
      PlainIsItself(v[1..], ps[1..]);
    }
  }

  // ---- export --------------------------------------------------------------------------

  /** "export", a blank and more blanks or tabs in front of an assignment change nothing. */
  lemma ExportIsSkipped(text: string, gap: string, k: string, t: string)
    requires Whole(text) && AllIn(gap, Blanks) && KeyOk(k) && '\n' !in t
    ensures Parse(text + ("export " + gap + (k + "=" + t)) + "\n") == Parse(text + (k + "=" + t) + "\n")
  {
    hide ReadLines;
    hide ScanLines;
    hide ReadLine;
    hide TrimSpace;
    hide KeyOk;
    var plain := k + "=" + t;
    var line := "export " + gap + plain;
    ExportOneLine(gap, k, t);
    ReaderGoesOn(text, line);
    ReaderGoesOn(text, plain);
    ExportReadsAlike(ReaderAfter(text), gap, k, t);
  }

  lemma ExportOneLine(gap: string, k: string, t: string)
    requires AllIn(gap, Blanks) && KeyOk(k) && '\n' !in t
    ensures '\n' !in k + "=" + t && '\n' !in "export " + gap + (k + "=" + t)
  {
    BlanksAreOneLine(gap);
    hide AllIn;
    hide CharClass.Has;
    assert '\n' !in k;
    hide KeyOk;
  }

  lemma ExportReadsAlike(r: Reader, gap: string, k: string, t: string)
    requires AllIn(gap, Blanks) && KeyOk(k)
    ensures ReadLine(r, "export " + gap + (k + "=" + t)) == ReadLine(r, k + "=" + t)
  {
    hide TrimSpace;
    hide ReadAssignment;
    hide BlockAdd;
    hide BlockAnn;
    var end := TrimRight(t, Spaces);
    TrimmedBare(k, t);
    ExportTrims(gap, k, t);
    ReadsKey(k, end);
    ExportReads(gap, k, end);
    assert ("export " + gap + (k + "=" + end))[0] == 'e';
  }

  lemma BlanksAreOneLine(gap: string)
    requires AllIn(gap, Blanks)
    ensures '\n' !in gap
  {
  }

  lemma {:induction false} ExportTrims(gap: string, k: string, t: string)
    requires KeyOk(k)
    ensures TrimSpace("export " + gap + (k + "=" + t)) == "export " + gap + (k + "=" + TrimRight(t, Spaces))
  {
    hide TrimRight;
    hide TrimLeft;
    EIsNoSpace();
    HashIsNoSpace();
    hide CharClass.Has;
    var start := "export " + gap;
    var lead := start + (k + "=");
    ConcatAssoc(start, k + "=", t);
    ConcatAssoc(start, k + "=", TrimRight(t, Spaces));
    assert (lead + t)[0] == 'e' && lead[|lead| - 1] == '=';
    TrimLeftStops(lead + t, Spaces);
    TrimRightKeeps(lead, t, Spaces);
  }

  lemma EIsNoSpace()
    ensures !Spaces.Has('e')
  {
  }

  lemma ExportReads(gap: string, k: string, t: string)
    requires KeyOk(k) && AllIn(gap, Blanks)
    ensures ReadAssignment("export " + gap + (k + "=" + t)) == ReadAssignment(k + "=" + t)
  {
    hide TrimLeft;
    hide ReadValue;
    hide TrimSpace;
    hide IndexOf;
    var plain := k + "=" + t;
    var raw := "export " + gap + plain;
    ExportPrefixes(gap, plain);
    KeyStartsUnblank(k);
    assert plain[0] == k[0];
    NotExported(k, t);
    hide KeyOk;
    hide CharClass.Has;
    TrimLeftSkips(gap, plain, Blanks);
  }

  lemma ExportPrefixes(gap: string, plain: string)
    ensures var raw := "export " + gap + plain;
            EXPORT_PREFIX <= raw && raw[|EXPORT_PREFIX|..] == gap + plain
  {
    ConcatAssoc("export ", gap, plain);
  }

  lemma KeyStartsUnblank(k: string)
    requires KeyOk(k)
    ensures !Blanks.Has(k[0])
  {
  }

  // ---- Errors ----------------------------------------------------------------------------

  /** The line is reported, by its number, whatever follows it, when the text before it parses. */
  ghost predicate Reported(line: string, what: LineError) {
    forall text, more | Whole(text) && Parse(text).Ok? ::
      Parse(text + line + "\n" + more) == Err(ParseError(Count(text, '\n') + 1, what))
  }

  lemma {:induction false} LinesCounted(text: string)
    requires Whole(text)
    ensures |ScanLines(text)| == Count(text, '\n')
    decreases |text|
  {
    if |text| == 0 {
      ScanNone();
    } else {
      hide DropCR;
      hide ScanLines;
      var line, rest := FirstLine(text);
      ScanFirst(line, rest);
      LinesCounted(rest);
      CountZero(line, '\n');
      CountConcat(line + "\n", rest, '\n');
      CountConcat(line, "\n", '\n');
    }
  }

  lemma {:induction false} CountConcat(a: string, b: string, x: char)
    ensures Count(a + b, x) == Count(a, x) + Count(b, x)
  {
    if |a| == 0 {
      assert a + b == b;
    } else {
      assert (a + b)[1..] == a[1..] + b;
      CountConcat(a[1..], b, x);
    }
  }

  lemma {:induction false} LinesNumbered(r: Reader, lines: seq<string>)
    requires ReadLines(r, lines).error.None?
    ensures ReadLines(r, lines).lineNo == r.lineNo + |lines|
  {
    hide TrimSpace;
    hide ReadAssignment;
    hide BlockAdd;
    if |lines| > 0 {
      LinesNumbered(r, lines[..|lines| - 1]);
    }
  }

  lemma FailureIsReported(line: string, what: LineError)
    requires '\n' !in line
    requires var raw := TrimSpace(line); |raw| > 0 && raw[0] != '#' && ReadAssignment(raw) == Err(what)
    ensures Reported(line, what)
  {
    hide TrimSpace;
    hide ReadAssignment;
    hide ScanLines;
    hide Count;
    forall text, more | Whole(text) && Parse(text).Ok?
      ensures Parse(text + line + "\n" + more) == Err(ParseError(Count(text, '\n') + 1, what))
    {
      ReaderGoesOn(text, line);
      LinesCounted(text);
      LinesNumbered(START, ScanLines(text));
      FirstErrorStands(text + line + "\n", more);
    }
  }

  /** A line with text that is no comment and has no equals sign. */
  lemma NoEqualsIsReported(line: string)
    requires '\n' !in line && '=' !in line
    requires |TrimSpace(line)| > 0 && TrimSpace(line)[0] != '#'
    ensures Reported(line, MissingEquals)
  {
    hide Reported;
    hide CharClass.Has;
    var raw := TrimSpace(line);
    TrimIsPart(line);
    TrimIsPart(raw);
    var text := if EXPORT_PREFIX <= raw then TrimLeft(raw[|EXPORT_PREFIX|..], Blanks) else raw;
    assert forall c | c in text :: c in raw;
    FailureIsReported(line, MissingEquals);
  }

  lemma TrimIsPart(s: string)
    ensures forall c | c in TrimSpace(s) :: c in s
  {
    hide CharClass.Has;
    var l := TrimLeft(s, Spaces);
    assert forall c | c in l :: c in s;
    assert forall c | c in TrimRight(l, Spaces) :: c in l;
  }

  /** A line with nothing but white space in front of its first equals sign. */
  lemma NoKeyIsReported(gap: string, t: string)
    requires AllIn(gap, Spaces) && '\n' !in gap && '\n' !in t
    ensures Reported(gap + "=" + t, EmptyKey)
  {
    hide Reported;
    hide TrimRight;
    hide TrimLeft;
    HashIsNoSpace();
    hide CharClass.Has;
    var line := gap + "=" + t;
    var raw := "=" + TrimRight(t, Spaces);
    assert line == gap + ("=" + t);
    TrimLeftSkips(gap, "=" + t, Spaces);
    TrimRightKeeps("=", t, Spaces);
    assert raw[0] == '=' && !(EXPORT_PREFIX <= raw);
    IndexOfAt(raw, '=', 0);
    NothingTrims();
    assert raw[..0] == "";
    FailureIsReported(line, EmptyKey);
  }

  lemma NothingTrims()
    ensures TrimSpace("") == ""
  {
  }

  /** A quoted value that is not closed on its line. */
  lemma OpenQuoteIsReported(k: string, q: char, w: string)
    requires KeyOk(k) && (q == '"' || q == '\'') && q !in w && '\n' !in w
    ensures Reported(k + "=" + [q] + w, UnterminatedValue)
  {
    hide Reported;
    hide TrimRight;
    hide TrimLeft;
    hide CharClass.Has;
    hide ReadAssignment;
    hide ReadValue;
    hide TrimSpace;
    HashIsNoSpace();
    var line := k + "=" + [q] + w;
    var end := TrimRight(w, Spaces);
    var t := [q] + end;
    TrimmedAssignment(k, [q], w);
    assert forall c | c in end :: c in w;
    UnclosedReadsNothing(q, end);
    ReadsKey(k, t);
    FailureIsReported(line, UnterminatedValue);
  }

  lemma UnclosedReadsNothing(q: char, w: string)
    requires (q == '"' || q == '\'') && q !in w
    ensures ReadValue([q] + w) == None
  {
    hide Unescape;
    assert ([q] + w)[1..] == w;
  }
}
