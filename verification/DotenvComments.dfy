/**
 Descriptions and notes in a .env file: the comment block above an assignment,
 read line by line, and written back out.
 */
module DotenvComments {
  import opened Wrappers
  import opened Text

  /** What a comment block carries for one variable. */
  datatype Ann = Ann(desc: string, notes: seq<string>) {
    predicate IsEmpty() {
      desc == "" && |notes| == 0
    }
  }

  const NO_ANN := Ann("", [])

  // ---- A comment that is really a disabled KEY=value line ------------------------

  predicate NameStart(c: char) {
    'A' <= c <= 'Z' || 'a' <= c <= 'z' || c == '_'
  }

  predicate NameChar(c: char) {
    NameStart(c) || '0' <= c <= '9' || c == '.'
  }

  ghost predicate IsName(s: string) {
    |s| > 0 && NameStart(s[0]) && forall i | 1 <= i < |s| :: NameChar(s[i])
  }

  const EXPORT := "export"

  /** [A-Za-z_][A-Za-z0-9_.]*\s*= and whatever follows. */
  ghost predicate AssignPieces(s: string, name: string, gap: string, rest: string) {
    s == name + (gap + (['='] + rest)) && IsName(name) && AllIn(gap, PatternSpaces)
  }

  ghost predicate IsAssign(s: string) {
    exists name, gap, rest :: AssignPieces(s, name, gap, rest)
  }

  /** (export\s+)?, by the white space after the word. */
  function ExportText(exported: Option<string>): string {
    if exported.None? then "" else EXPORT + exported.value
  }

  /** ^\s*(export\s+)? and an assignment. */
  ghost predicate PatternPieces(s: string, lead: string, exported: Option<string>, assign: string) {
    && s == lead + (ExportText(exported) + assign)
    && AllIn(lead, PatternSpaces) && IsAssign(assign)
    && (exported.Some? ==> |exported.value| > 0 && AllIn(exported.value, PatternSpaces))
  }

  ghost predicate MatchesPattern(s: string) {
    exists lead, exported, assign :: PatternPieces(s, lead, exported, assign)
  }

  /** Past the longest run of name characters. */
  function DropName(s: string): (r: string)
    ensures |r| <= |s| && r == s[|s| - |r|..]
    ensures forall i | 0 <= i < |s| - |r| :: NameChar(s[i])
    ensures |r| > 0 ==> !NameChar(r[0])
  {
    if |s| > 0 && NameChar(s[0]) then DropName(s[1..]) else s
  }

  /** A name, white space and an equals sign at the start. */
  predicate AssignsHere(s: string) {
    && |s| > 0 && NameStart(s[0])
    && var t := TrimLeft(DropName(s[1..]), PatternSpaces);
       |t| > 0 && t[0] == '='
  }

  /** The recogniser, without backtracking: each run is taken as long as it goes. */
  predicate CommentedAssignment(body: string) {
    var t := TrimLeft(body, PatternSpaces);
    || AssignsHere(t)
    || (EXPORT <= t && |t| > |EXPORT| && PatternSpaces.Has(t[|EXPORT|])
        && AssignsHere(TrimLeft(t[|EXPORT|..], PatternSpaces)))
  }

  lemma {:induction false} DropNameExact(name: string, rest: string)
    requires (forall i | 0 <= i < |name| :: NameChar(name[i])) && (|rest| > 0 ==> !NameChar(rest[0]))
    ensures DropName(name + rest) == rest
  {
    if |name| == 0 {
      assert name + rest == rest;
    } else {
      assert (name + rest)[1..] == name[1..] + rest;
      DropNameExact(name[1..], rest);
    }
  }

  lemma AssignWitness(name: string, gap: string, t: string)
    requires IsName(name) && AllIn(gap, PatternSpaces) && |t| > 0 && t[0] == '='
    ensures IsAssign(name + (gap + t))
  {
    assert t == ['='] + t[1..];
    assert AssignPieces(name + (gap + t), name, gap, t[1..]);
  }

  lemma PatternWitness(s: string, lead: string, exported: Option<string>, assign: string)
    requires PatternPieces(s, lead, exported, assign)
    ensures MatchesPattern(s)
  {
  }

  lemma PlainWitness(lead: string, assign: string)
    requires AllIn(lead, PatternSpaces) && IsAssign(assign)
    ensures MatchesPattern(lead + assign)
  {
    assert ExportText(None) + assign == assign;
    PatternWitness(lead + assign, lead, None, assign);
  }

  lemma NameAtStart(s: string)
    requires |s| > 0 && NameStart(s[0])
    ensures var n := |s| - |DropName(s[1..])|;
            0 < n && s[n..] == DropName(s[1..]) && IsName(s[..n]) && s == s[..n] + s[n..]
  {
    var n := |s| - |DropName(s[1..])|;
    assert forall i | 1 <= i < n :: s[..n][i] == s[1..][i - 1];
    Halves(s, n);
  }

  lemma AssignsHereMatches(s: string)
    requires AssignsHere(s)
    ensures IsAssign(s)
  {
    NameAtStart(s);
    var r := DropName(s[1..]);
    var t := TrimLeft(r, PatternSpaces);
    Halves(r, |r| - |t|);
    AssignWitness(s[..|s| - |r|], r[..|r| - |t|], t);
  }

  lemma AssignPiecesAreRecognised(s: string, name: string, gap: string, rest: string)
    requires AssignPieces(s, name, gap, rest)
    ensures AssignsHere(s) && !PatternSpaces.Has(s[0])
  {
    hide DropName;
    hide TrimLeft;
    var tail := ['='] + rest;
    var after := gap + tail;
    Regrouped(s, name, gap, rest);
    GapEndsName(gap, rest);
    DropNameExact(name[1..], after);
    EqualsIsNoSpace();
    TrimLeftSkips(gap, tail, PatternSpaces);
    NameIsNoSpace(name);
  }

  lemma Regrouped(s: string, name: string, gap: string, rest: string)
    requires AssignPieces(s, name, gap, rest)
    ensures |s| > 0 && s[0] == name[0] && s[1..] == name[1..] + (gap + (['='] + rest))
  {
    hide NameChar;
    hide CharClass.Has;
  }

  lemma GapEndsName(gap: string, rest: string)
    requires AllIn(gap, PatternSpaces)
    ensures var after := gap + (['='] + rest); |after| > 0 && !NameChar(after[0])
  {
    if |gap| > 0 {
      assert (gap + (['='] + rest))[0] == gap[0] && PatternSpaces.Has(gap[0]);
    }
  }

  lemma EqualsIsNoSpace()
    ensures !PatternSpaces.Has('=')
  {
  }

  lemma NameIsNoSpace(name: string)
    requires IsName(name)
    ensures |name| > 0 && NameStart(name[0]) && !PatternSpaces.Has(name[0])
    ensures forall i | 0 <= i < |name[1..]| :: NameChar(name[1..][i])
  {
    assert forall i | 1 <= i < |name| :: name[1..][i - 1] == name[i];
  }

  /** The recogniser accepts exactly what the pattern matches. */
  lemma RecogniserIsPattern(s: string)
    ensures CommentedAssignment(s) <==> MatchesPattern(s)
  {
    if CommentedAssignment(s) {
      RecognisedMatches(s);
    }
    if lead, exported, assign :| PatternPieces(s, lead, exported, assign) {
      PiecesAreRecognised(s, lead, exported, assign);
    }
  }

  lemma RecognisedMatches(s: string)
    requires CommentedAssignment(s)
    ensures MatchesPattern(s)
  {
    hide CharClass.Has;
    hide AssignsHere;
    hide IsAssign;
    var t := TrimLeft(s, PatternSpaces);
    var lead := s[..|s| - |t|];
    Halves(s, |s| - |t|);
    if AssignsHere(t) {
      AssignsHereMatches(t);
      PlainWitness(lead, t);
    } else {
      var w, u := ExportedAssign(t);
      PatternWitness(s, lead, Some(w), u);
    }
  }

  lemma ExportedAssign(t: string) returns (w: string, u: string)
    requires EXPORT <= t && |t| > |EXPORT| && PatternSpaces.Has(t[|EXPORT|])
    requires AssignsHere(TrimLeft(t[|EXPORT|..], PatternSpaces))
    ensures t == EXPORT + w + u && |w| > 0 && AllIn(w, PatternSpaces) && IsAssign(u)
  {
    hide CharClass.Has;
    hide TrimLeft;
    hide AssignsHere;
    hide IsAssign;
    var n := |EXPORT|;
    Halves(t, n);
    var spaced := t[n..];
    u := TrimLeft(spaced, PatternSpaces);
    w := spaced[..|spaced| - |u|];
    Halves(spaced, |spaced| - |u|);
    AssignsHereMatches(u);
    ConcatAssoc(EXPORT, w, u);
    assert spaced[0] == t[n];
  }

  lemma PiecesAreRecognised(s: string, lead: string, exported: Option<string>, assign: string)
    requires PatternPieces(s, lead, exported, assign)
    ensures CommentedAssignment(s)
  {
    var name, gap, rest :| AssignPieces(assign, name, gap, rest);
    AssignPiecesAreRecognised(assign, name, gap, rest);
    var t := ExportText(exported) + assign;
    TrimLeftSkips(lead, t, PatternSpaces);
    if exported.None? {
      assert t == assign;
    } else {
      var w := exported.value;
      ConcatAssoc(EXPORT, w, assign);
      assert t[|EXPORT|..] == w + assign && t[|EXPORT|] == w[0];
      TrimLeftSkips(w, assign, PatternSpaces);
    }
  }

  lemma AssignSurvivesSuffix(s: string, more: string)
    requires IsAssign(s)
    ensures IsAssign(s + more)
  {
    var name, gap, rest :| AssignPieces(s, name, gap, rest);
    var t := ['='] + rest;
    ConcatAssoc(gap, t, more);
    ConcatAssoc(name, gap + t, more);
    AssignWitness(name, gap, t + more);
  }

  /** Text added at the end cannot stop a comment from being a disabled assignment. */
  lemma AssignmentSurvivesSuffix(s: string, more: string)
    requires CommentedAssignment(s)
    ensures CommentedAssignment(s + more)
  {
    RecogniserIsPattern(s);
    var lead, exported, assign :| PatternPieces(s, lead, exported, assign);
    AssignSurvivesSuffix(assign, more);
    ConcatAssoc(ExportText(exported), assign, more);
    ConcatAssoc(lead, ExportText(exported) + assign, more);
    PatternWitness(s + more, lead, exported, assign + more);
    RecogniserIsPattern(s + more);
  }

  // ---- The block above the next assignment ------------------------------------------

  datatype Block = Block(desc: seq<string>, notes: seq<string>, inNotes: bool)

  const EMPTY_BLOCK := Block([], [], false)

  /** The text of a comment line: without its hashes and one blank after them. */
  function CommentBody(line: string): string {
    var body := TrimLeft(line, Hashes);
    if |body| > 0 && body[0] == ' ' then body[1..] else body
  }

  function BlockAdd(b: Block, line: string): Block {
    var body := CommentBody(line);
    if |line| - |TrimLeft(line, Hashes)| >= 2 then
      var t := TrimSpace(body);
      Block(b.desc, if |t| > 0 then b.notes + [t] else b.notes, true)
    else if b.inNotes then b
    else if CommentedAssignment(body) then EMPTY_BLOCK
    else b.(desc := b.desc + [TrimRight(body, Blanks)])
  }

  function BlockAnn(b: Block): Ann {
    Ann(Trim(Join(b.desc, '\n'), Newlines), b.notes)
  }

  /** The accumulator of comment lines. */
  class CommentBlock {
    var desc: seq<string>
    var notes: seq<string>
    var inNotes: bool

    constructor ()
      ensures View() == EMPTY_BLOCK
    {
      desc, notes, inNotes := [], [], false;
    }

    ghost function View(): Block
      reads this
    {
      Block(desc, notes, inNotes)
    }

    method Reset()
      modifies this
      ensures View() == EMPTY_BLOCK
    {
      desc, notes, inNotes := [], [], false;
    }

    method Add(line: string)
      modifies this
      ensures View() == BlockAdd(old(View()), line)
    {
      hide CommentedAssignment;
      hide TrimLeft;
      hide TrimRight;
      hide TrimSpace;
      hide CharClass.Has;
      var body := TrimLeft(line, Hashes);
      var hashes := |line| - |body|;
      if |body| > 0 && body[0] == ' ' {
        body := body[1..];
      }
      if hashes >= 2 {
        inNotes := true;
        var t := TrimSpace(body);
        if |t| > 0 {
          notes := notes + [t];
        }
        return;
      }
      if inNotes {
        return;
      }
      if CommentedAssignment(body) {
        Reset();
        return;
      }
      desc := desc + [TrimRight(body, Blanks)];
    }

    method Take() returns (a: Ann)
      modifies this
      ensures a == BlockAnn(old(View())) && View() == EMPTY_BLOCK
    {
      a := Ann(Trim(Join(desc, '\n'), Newlines), notes);
      Reset();
    }
  }

  // ---- Writing a block -----------------------------------------------------------------

  /** A description's lines, with "\r\n" read as a line end. */
  function DescSource(desc: string): seq<string> {
    SplitLines(ReplacePair(desc, '\r', '\n', '\n'))
  }

  function DescLine(line: string): string {
    var t := TrimRight(line, Blanks);
    if t == "" then "#" else "# " + t
  }

  function DescLines(lines: seq<string>): (r: seq<string>)
    ensures |r| == |lines| && forall i | 0 <= i < |lines| :: r[i] == DescLine(lines[i])
  {
    seq(|lines|, i requires 0 <= i < |lines| => DescLine(lines[i]))
  }

  /** A note on one line. */
  function NoteText(note: string): string {
    Join(Fields(note), ' ')
  }

  /** The notes that have any text, each on one line. */
  function NoteTexts(notes: seq<string>): seq<string> {
    if |notes| == 0 then []
    else
      var n := |notes| - 1;
      NoteTexts(notes[..n]) + (if NoteText(notes[n]) == "" then [] else [NoteText(notes[n])])
  }

  function NoteLines(texts: seq<string>): (r: seq<string>)
    ensures |r| == |texts| && forall i | 0 <= i < |texts| :: r[i] == "## " + texts[i]
  {
    seq(|texts|, i requires 0 <= i < |texts| => "## " + texts[i])
  }

  /** The comment lines written for an annotation. */
  function CommentLines(a: Ann): seq<string> {
    (if a.desc == "" then [] else DescLines(DescSource(a.desc))) + NoteLines(NoteTexts(a.notes))
  }

  /** The description's loop: one comment line for each of its lines. */
  method RenderDesc(b: string, desc: string) returns (out: string)
    ensures out == b + Unlines(DescLines(DescSource(desc)))
  {
    out := b;
    var lines := DescSource(desc);
    ghost var written := DescLines(lines);
    assert b + Unlines(written[..0]) == b;
    for i := 0 to |lines|
      invariant out == b + Unlines(written[..i])
    {
      var ln := TrimRight(lines[i], Blanks);
      assert written[..i + 1][..i] == written[..i];
      UnlinesSnoc(b, written[..i + 1]);
      if ln == "" {
        out := out + "#" + "\n";
      } else {
        out := out + ("# " + ln) + "\n";
      }
    }
    assert written[..|lines|] == written;
  }

  /** The notes' loop: one line for each note that has any text. */
  method RenderNotes(b: string, notes: seq<string>) returns (out: string)
    ensures out == b + Unlines(NoteLines(NoteTexts(notes)))
  {
    hide NoteText;
    hide Fields;
    out := b;
    assert b + Unlines(NoteLines(NoteTexts(notes[..0]))) == b;
    for i := 0 to |notes|
      invariant out == b + Unlines(NoteLines(NoteTexts(notes[..i])))
    {
      assert notes[..i + 1][..i] == notes[..i];
      var n := NoteText(notes[i]);
      if n != "" {
        ghost var before := NoteLines(NoteTexts(notes[..i]));
        ghost var after := NoteLines(NoteTexts(notes[..i + 1]));
        assert after == before + ["## " + n] && after[..|before|] == before;
        UnlinesSnoc(b, after);
        out := out + ("## " + n) + "\n";
      } else {
        assert NoteTexts(notes[..i + 1]) == NoteTexts(notes[..i]);
      }
    }
    assert notes[..|notes|] == notes;
  }

  method RenderAnnotationComments(b: string, a: Ann) returns (out: string)
    ensures out == b + Unlines(CommentLines(a))
  {
    out := b;
    ghost var desc := if a.desc == "" then [] else DescLines(DescSource(a.desc));
    if a.desc != "" {
      out := RenderDesc(b, a.desc);
    } else {
      assert b + Unlines(desc) == b;
    }
    UnlinesConcat(desc, NoteLines(NoteTexts(a.notes)));
    ConcatAssoc(b, Unlines(desc), Unlines(NoteLines(NoteTexts(a.notes))));
    out := RenderNotes(out, a.notes);
  }

  lemma {:induction false} UnlinesSnoc(b: string, lines: seq<string>)
    requires |lines| > 0
    ensures b + Unlines(lines) == (b + Unlines(lines[..|lines| - 1])) + lines[|lines| - 1] + "\n"
  {
    var n := |lines| - 1;
    ConcatAssoc(b, Unlines(lines[..n]) + lines[n], "\n");
    ConcatAssoc(b, Unlines(lines[..n]), lines[n]);
  }
}
