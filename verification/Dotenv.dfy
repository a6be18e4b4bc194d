/** Reading and writing a whole .env file. */
module Dotenv {
  import opened Wrappers
  import opened Text
  import opened DotenvComments
  import opened DotenvValues

  datatype Entry = Entry(key: string, value: string, ann: Ann)

  datatype LineError = MissingEquals | EmptyKey | UnterminatedValue

  /** The parser stops at the first bad line, whose number it reports. */
  datatype ParseError = ParseError(lineNo: nat, what: LineError)

  const EXPORT_PREFIX := "export "

  // ---- Reading ----------------------------------------------------------------------

  /** One trimmed line that is neither empty nor a comment. */
  function ReadAssignment(raw: string): Result<(string, string), LineError> {
    var text := if EXPORT_PREFIX <= raw then TrimLeft(raw[|EXPORT_PREFIX|..], Blanks) else raw;
    match IndexOf(text, '=')
    case None => Err(MissingEquals)
    case Some(eq) =>
      var key := TrimSpace(text[..eq]);
      if key == "" then Err(EmptyKey)
      else
        match ReadValue(text[eq + 1..])
        case None => Err(UnterminatedValue)
        case Some(value) => Ok((key, value))
  }

  datatype Reader = Reader(lineNo: nat, block: Block, entries: seq<Entry>, error: Option<ParseError>)

  const START := Reader(0, EMPTY_BLOCK, [], None)

  function ReadLine(r: Reader, line: string): Reader {
    if r.error.Some? then r
    else
      var raw := TrimSpace(line);
      if raw == "" then r.(lineNo := r.lineNo + 1, block := EMPTY_BLOCK)
      else if raw[0] == '#' then r.(lineNo := r.lineNo + 1, block := BlockAdd(r.block, raw))
      else
        match ReadAssignment(raw)
        case Err(e) => r.(lineNo := r.lineNo + 1, error := Some(ParseError(r.lineNo + 1, e)))
        case Ok((key, value)) =>
          Reader(r.lineNo + 1, EMPTY_BLOCK, r.entries + [Entry(key, value, BlockAnn(r.block))], None)
  }

  function ReadLines(r: Reader, lines: seq<string>): Reader {
    if |lines| == 0 then r
    else ReadLine(ReadLines(r, lines[..|lines| - 1]), lines[|lines| - 1])
  }

  function Parse(body: string): Result<seq<Entry>, ParseError> {
    var r := ReadLines(START, ScanLines(body));
    if r.error.Some? then Err(r.error.value) else Ok(r.entries)
  }

  method ParseDotenv(body: string) returns (r: Result<seq<Entry>, ParseError>)
    ensures r == Parse(body)
  {
    hide ReadLines;
    hide ReadAssignment;
    hide TrimSpace;
    hide BlockAdd;
    hide BlockAnn;
    hide ScanLines;
    var lines := ScanLines(body);
    var out: seq<Entry> := [];
    var lineNo := 0;
    var block := new CommentBlock();
    NothingRead(lines);
    for i := 0 to |lines|
      invariant ReadLines(START, lines[..i]) == Reader(lineNo, block.View(), out, None)
    {
      ReadOneMore(lines, i);
      ghost var before := Reader(lineNo, block.View(), out, None);
      lineNo := lineNo + 1;
      var raw := TrimSpace(lines[i]);
      if raw == "" {
        block.Reset();
        assert ReadLine(before, lines[i]) == Reader(lineNo, block.View(), out, None);
        continue;
      }
      if raw[0] == '#' {
        block.Add(raw);
        assert ReadLine(before, lines[i]) == Reader(lineNo, block.View(), out, None);
        continue;
      }
      match ReadAssignment(raw) {
        case Err(e) =>
          ErrorSticks(START, lines, i + 1);
          return Err(ParseError(lineNo, e));
        case Ok((key, value)) =>
          var ann := block.Take();
          out := out + [Entry(key, value, ann)];
      }
    }
    assert lines[..|lines|] == lines;
    return Ok(out);
  }

  lemma NothingRead(lines: seq<string>)
    ensures ReadLines(START, lines[..0]) == START
  {
  }

  lemma ReadOneMore(lines: seq<string>, i: nat)
    requires i < |lines|
    ensures ReadLines(START, lines[..i + 1]) == ReadLine(ReadLines(START, lines[..i]), lines[i])
  {
    assert lines[..i + 1][..i] == lines[..i];
  }

  lemma {:induction false} ErrorSticks(r: Reader, lines: seq<string>, i: nat)
    requires i <= |lines| && ReadLines(r, lines[..i]).error.Some?
    ensures ReadLines(r, lines) == ReadLines(r, lines[..i])
  {
    if i == |lines| {
      assert lines[..i] == lines;
    } else {
      assert lines[..|lines| - 1][..i] == lines[..i];
      ErrorSticks(r, lines[..|lines| - 1], i);
    }
  }

  lemma {:induction false} ReadLinesConcat(r: Reader, a: seq<string>, b: seq<string>)
    ensures ReadLines(r, a + b) == ReadLines(ReadLines(r, a), b)
  {
    if |b| == 0 {
      assert a + b == a;
    } else {
      var all, n := a + b, |b| - 1;
      assert all[..|all| - 1] == a + b[..n] && all[|all| - 1] == b[n];
      ReadLinesConcat(r, a, b[..n]);
      assert ReadLines(r, all) == ReadLine(ReadLines(r, a + b[..n]), b[n]);
    }
  }

  // ---- Writing ----------------------------------------------------------------------

  function ValueOf(m: map<string, string>, k: string): string {
    if k in m then m[k] else ""
  }

  function AnnOf(ann: map<string, Ann>, k: string): Ann {
    if k in ann then ann[k] else NO_ANN
  }

  function AssignLine(k: string, v: string): string {
    k + "=" + WriteValue(v)
  }

  /** The lines written for one key: its comment block, set off by a blank line, and the assignment. */
  function EntryLines(first: bool, k: string, v: string, a: Ann): seq<string> {
    (if a.IsEmpty() then [] else (if first then [] else [""]) + CommentLines(a)) + [AssignLine(k, v)]
  }

  function FileLines(keys: seq<string>, m: map<string, string>, ann: map<string, Ann>): seq<string> {
    if |keys| == 0 then []
    else
      var n := |keys| - 1;
      FileLines(keys[..n], m, ann) + EntryLines(n == 0, keys[n], ValueOf(m, keys[n]), AnnOf(ann, keys[n]))
  }

  function Render(keys: seq<string>, m: map<string, string>, ann: map<string, Ann>): string {
    Unlines(FileLines(keys, m, ann))
  }

  /** One key's part of the rendering loop. */
  method RenderEntry(b: string, first: bool, k: string, v: string, a: Ann) returns (out: string)
    ensures out == b + Unlines(EntryLines(first, k, v, a))
  {
    out := b;
    ghost var blank: seq<string> := [];
    ghost var comments: seq<string> := [];
    assert b + Unlines([]) == b;
    if !a.IsEmpty() {
      if !first {
        out := out + "\n";
        blank := [""];
        assert Unlines([""]) == "" + "" + "\n" == "\n";
      }
      comments := CommentLines(a);
      UnlinesConcat(blank, comments);
      ConcatAssoc(b, Unlines(blank), Unlines(comments));
      out := RenderAnnotationComments(out, a);
    }
    ghost var before := blank + comments;
    assert EntryLines(first, k, v, a) == before + [AssignLine(k, v)];
    assert out == b + Unlines(before);
    UnlinesSnoc(b, before + [AssignLine(k, v)]);
    assert (before + [AssignLine(k, v)])[..|before|] == before;
    var needsQuote := NeedsQuote(v);
    var line := k + "=";
    if needsQuote {
      line := line + ([QUOTE] + Escape(v) + [QUOTE]);
    } else {
      line := line + v;
    }
    out := out + line + "\n";
  }

  method RenderDotenvAnnotated(keys: seq<string>, m: map<string, string>, ann: map<string, Ann>) returns (b: string)
    ensures b == Render(keys, m, ann)
  {
    b := "";
    for i := 0 to |keys|
      invariant b == Unlines(FileLines(keys[..i], m, ann))
    {
      assert keys[..i + 1][..i] == keys[..i];
      var k := keys[i];
      UnlinesConcat(FileLines(keys[..i], m, ann), EntryLines(i == 0, k, ValueOf(m, k), AnnOf(ann, k)));
      b := RenderEntry(b, i == 0, k, ValueOf(m, k), AnnOf(ann, k));
    }
    assert keys[..|keys|] == keys;
  }
}
