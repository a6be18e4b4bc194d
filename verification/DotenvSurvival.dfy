/**
 What survives writing a file and reading it back, said of the words and lines themselves:
 values, the words of the notes, the lines of a description; and how a value is written.
 */
module DotenvSurvival {
  import opened Wrappers
  import opened Text
  import opened DotenvComments
  import opened DotenvValues
  import opened Dotenv
  import opened DotenvRoundTrip

  // ---- How a value is written ---------------------------------------------------------------

  /** Whether a character keeps a value from being written bare. */
  predicate Special(c: char) {
    c == ' ' || c == '\t' || c == '\n' || c == '"' || c == '#' || c == '='
  }

  /** A value between quotes, character by character. */
  function Quoted(v: string): string {
    if |v| == 0 then ""
    else (if v[0] == '\\' then "\\\\" else if v[0] == '"' then "\\\"" else if v[0] == '\n' then "\\n" else [v[0]]) + Quoted(v[1..])
  }

  lemma {:induction false} EscapeIsQuoted(v: string)
    ensures Escape(v) == Quoted(v)
  {
    hide Escape;
    if |v| == 0 {
      EscapeNothing();
    } else {
      EscapeFirst(v);
      EscapeIsQuoted(v[1..]);
    }
  }

  /** A value without special characters is written as it is; any other between quotes, with its escapes. */
  lemma ValueIsWritten(k: string, v: string)
    ensures Render([k], map[k := v], map[]) ==
            k + "=" + (if exists c :: c in v && Special(c) then "\"" + Quoted(v) + "\"" else v) + "\n"
  {
    hide Escape;
    hide Quoted;
    hide Unlines;
    hide FileLines;
    EscapeIsQuoted(v);
    var m := map[k := v];
    var line := AssignLine(k, v);
    OneLineFile(k, v);
    UnlinesOne(line);
    if c :| c in v && Special(c) {
      assert NeedsQuote(v);
      assert [QUOTE] == "\"";
    } else {
      assert !NeedsQuote(v) by {
        assert forall c | c in v :: !Special(c);
        assert Special(' ') && Special('\t') && Special('\n') && Special('"') && Special('#') && Special('=');
      }
    }
  }

  lemma OneLineFile(k: string, v: string)
    ensures FileLines([k], map[k := v], map[]) == [AssignLine(k, v)]
  {
    hide AssignLine;
    var m: map<string, string> := map[k := v];
    assert [k][..0] == [];
    assert FileLines([], m, map[]) == [];
    assert EntryLines(true, k, v, NO_ANN) == [] + [AssignLine(k, v)] == [AssignLine(k, v)];
    assert [] + [AssignLine(k, v)] == [AssignLine(k, v)];
  }

  /** A file is its keys' parts one after the other; a blank line sets off one that has an annotation from what is before it. */
  lemma EntryIsSetOff(keys: seq<string>, k: string, m: map<string, string>, ann: map<string, Ann>)
    ensures Render(keys + [k], m, ann) ==
            Render(keys, m, ann) + ((if |keys| > 0 && k in ann && !ann[k].IsEmpty() then "\n" else "") + Render([k], m, ann))
  {
    hide Unlines;
    hide CommentLines;
    hide AssignLine;
    var all, n := keys + [k], |keys|;
    assert all[..n] == keys && all[n] == k;
    assert [k][..0] == [] && FileLines([], m, ann) == [];
    var a := AnnOf(ann, k);
    var mine := EntryLines(true, k, ValueOf(m, k), a);
    assert [] + mine == mine && FileLines([k], m, ann) == mine;
    UnlinesConcat(FileLines(keys, m, ann), EntryLines(n == 0, k, ValueOf(m, k), a));
    BlankThen(mine);
    if n > 0 && !a.IsEmpty() {
      assert EntryLines(false, k, ValueOf(m, k), a) == [""] + mine by {
        assert [] + CommentLines(a) == CommentLines(a);
        ConcatAssoc([""], CommentLines(a), [AssignLine(k, ValueOf(m, k))]);
      }
    } else {
      assert "" + Unlines(mine) == Unlines(mine);
    }
  }

  lemma BlankThen(lines: seq<string>)
    ensures Unlines([""] + lines) == "\n" + Unlines(lines)
  {
    UnlinesConcat([""], lines);
    UnlinesOne("");
  }

  /** A note's line: two hashes, a blank, and its words with one blank between them. */
  lemma {:induction false} NoteIsWritten(k: string, v: string, note: string)
    requires |Fields(note)| > 0
    ensures Render([k], map[k := v], map[k := Ann("", [note])]) ==
            "## " + Join(Fields(note), ' ') + "\n" + Render([k], map[k := v], map[])
  {
    hide AssignLine;
    hide Fields;
    hide Join;
    hide Unlines;
    var m, a := map[k := v], Ann("", [note]);
    WordsExactlyWhen(note);
    NoteIsItsWords(note);
    OneLineFile(k, v);
    var text := "## " + Join(Fields(note), ' ');
    assert [note][..0] == [] && NoteTexts([]) == [];
    assert NoteTexts([note]) == [NoteText(note)];
    assert CommentLines(a) == [text];
    WithComment(k, v, a, text);
  }

  /** A description of one line: a hash, a blank, and the line without the blanks at its end. */
  lemma DescriptionLineIsWritten(k: string, v: string, line: string)
    requires '\n' !in line && '\r' !in line && |line| > 0 && line[|line| - 1] != ' ' && line[|line| - 1] != '\t'
    ensures Render([k], map[k := v], map[k := Ann(line, [])]) == "# " + line + "\n" + Render([k], map[k := v], map[])
  {
    hide AssignLine;
    hide Unlines;
    hide TrimRight;
    var m, a := map[k := v], Ann(line, []);
    OneLineFile(k, v);
    ReplacePairAbsent(line, '\r', '\n', '\n');
    assert SplitLines(line) == [line];
    TrimRightStops(line, Blanks);
    assert CommentLines(a) == ["# " + line];
    WithComment(k, v, a, "# " + line);
  }

  lemma WithComment(k: string, v: string, a: Ann, text: string)
    requires !a.IsEmpty() && CommentLines(a) == [text]
    ensures Render([k], map[k := v], map[k := a]) == text + "\n" + Render([k], map[k := v], map[])
  {
    hide AssignLine;
    hide Unlines;
    hide CommentLines;
    var line := AssignLine(k, v);
    OneLineFile(k, v);
    assert [k][..0] == [] && FileLines([], map[k := v], map[k := a]) == [];
    assert EntryLines(true, k, v, a) == [text] + [line];
    assert FileLines([k], map[k := v], map[k := a]) == [text] + [line];
    UnlinesConcat([text], [line]);
    UnlinesOne(text);
  }

  // ---- Notes --------------------------------------------------------------------------------

  predicate HasWord(s: string) {
    exists j :: 0 <= j < |s| && !Spaces.Has(s[j])
  }

  /** The notes that have a word in them. */
  function Worded(notes: seq<string>): seq<string> {
    if |notes| == 0 then []
    else Worded(notes[..|notes| - 1]) + (if HasWord(notes[|notes| - 1]) then [notes[|notes| - 1]] else [])
  }

  lemma WordsExactlyWhen(s: string)
    ensures HasWord(s) <==> |Fields(s)| > 0
  {
    var t := TrimLeft(s, Spaces);
    var n := |s| - |t|;
    assert forall j | 0 <= j < n :: s[j] == s[..n][j];
    if |t| > 0 {
      assert s[n] == t[0];
    }
  }

  lemma NoteIsItsWords(note: string)
    ensures NoteText(note) == Join(Fields(note), ' ') && (NoteText(note) == "" <==> !HasWord(note))
  {
    hide Fields;
    hide Join;
    hide IsWord;
    WordsExactlyWhen(note);
    FieldsAreWords(note);
    JoinedWordsBare(Fields(note));
  }

  lemma {:induction false} NotesAreTheirWords(notes: seq<string>)
    ensures |NoteTexts(notes)| == |Worded(notes)|
    ensures forall j | 0 <= j < |Worded(notes)| :: NoteTexts(notes)[j] == Join(Fields(Worded(notes)[j]), ' ')
  {
    hide NoteText;
    hide Fields;
    hide HasWord;
    hide Join;
    if |notes| > 0 {
      NotesAreTheirWords(notes[..|notes| - 1]);
      NoteIsItsWords(notes[|notes| - 1]);
    }
  }

  function NotesOf(ann: map<string, Ann>, k: string): seq<string> {
    if k in ann then ann[k].notes else []
  }

  /**
   What is read back for a key: its own value, and of its notes those with a word in them, in
   order, word for word; words joined by single blanks come back as they were.
   */
  lemma ValuesAndNotesSurvive(keys: seq<string>, m: map<string, string>, ann: map<string, Ann>, i: nat)
    requires WellFormedFile(keys, m) && i < |keys|
    ensures Parse(Render(keys, m, ann)).Ok? && |Parse(Render(keys, m, ann)).value| == |keys|
    ensures var e := Parse(Render(keys, m, ann)).value[i];
            var kept := Worded(NotesOf(ann, keys[i]));
            && e.key == keys[i] && (keys[i] in m ==> e.value == m[keys[i]])
            && |e.ann.notes| == |kept|
            && (forall j | 0 <= j < |kept| :: Fields(e.ann.notes[j]) == Fields(kept[j]))
            && (forall j | 0 <= j < |kept| && SingleSpaced(kept[j]) :: e.ann.notes[j] == kept[j])
  {
    hide Parse;
    hide Render;
    hide Fields;
    hide NoteTexts;
    hide Worded;
    hide WellFormedFile;
    hide SingleSpaced;
    AnnotationsRoundTrip(keys, m, ann);
    var notes := NotesOf(ann, keys[i]);
    var e := Parse(Render(keys, m, ann)).value[i];
    assert e.ann == Normalized(AnnOf(ann, keys[i])) && AnnOf(ann, keys[i]).notes == notes;
    NotesAreTheirWords(notes);
    var kept := Worded(notes);
    forall j | 0 <= j < |kept|
      ensures Fields(e.ann.notes[j]) == Fields(kept[j]) && (SingleSpaced(kept[j]) ==> e.ann.notes[j] == kept[j])
    {
      FieldsAreWords(kept[j]);
      JoinedReadBack(Fields(kept[j]));
      if SingleSpaced(kept[j]) {
        SingleSpacedIsJoined(kept[j]);
      }
    }
  }

  /** Words with one blank between any two. */
  ghost predicate SingleSpaced(s: string) {
    exists words: seq<string> :: (forall i | 0 <= i < |words| :: IsWord(words[i])) && s == Join(words, ' ')
  }

  lemma SingleSpacedIsJoined(s: string)
    requires SingleSpaced(s)
    ensures Join(Fields(s), ' ') == s
  {
    hide Fields;
    hide IsWord;
    hide Join;
    var words: seq<string> :| (forall i | 0 <= i < |words| :: IsWord(words[i])) && s == Join(words, ' ');
    JoinedReadBack(words);
  }

  // ---- Descriptions ----------------------------------------------------------------------------

  function DescOf(ann: map<string, Ann>, k: string): string {
    if k in ann then ann[k].desc else ""
  }

  function Trimmed(lines: seq<string>): (r: seq<string>)
    ensures |r| == |lines| && forall i | 0 <= i < |lines| :: r[i] == TrimRight(lines[i], Spaces)
  {
    seq(|lines|, i requires 0 <= i < |lines| => TrimRight(lines[i], Spaces))
  }

  /** No line of it reads as an assignment. */
  ghost predicate Ordinary(lines: seq<string>) {
    forall i | 0 <= i < |lines| :: !MatchesPattern(TrimRight(lines[i], Spaces))
  }

  lemma {:induction false} OrdinaryIsKept(lines: seq<string>)
    requires Ordinary(lines)
    ensures KeptDesc(lines) == Trimmed(lines)
  {
    hide MatchesPattern;
    hide CommentedAssignment;
    hide TrimRight;
    forall i | 0 <= i < |lines| ensures !CommentedAssignment(TrimRight(lines[i], Spaces)) {
      RecogniserIsPattern(TrimRight(lines[i], Spaces));
    }
    OrdinaryDescriptionKept(lines);
  }

  /** A description without carriage returns and assignments comes back with its lines trimmed at the right and the blank ones around it gone. */
  lemma DescriptionSurvives(keys: seq<string>, m: map<string, string>, ann: map<string, Ann>, i: nat)
    requires WellFormedFile(keys, m) && i < |keys|
    requires var desc := DescOf(ann, keys[i]); '\r' !in desc && Ordinary(SplitLines(desc))
    ensures Parse(Render(keys, m, ann)).Ok? && |Parse(Render(keys, m, ann)).value| == |keys|
    ensures Parse(Render(keys, m, ann)).value[i].ann.desc ==
            Trim(Join(Trimmed(SplitLines(DescOf(ann, keys[i]))), '\n'), Newlines)
  {
    hide Parse;
    hide Render;
    hide Trim;
    hide Join;
    hide SplitLines;
    hide KeptDesc;
    hide Ordinary;
    hide NoteTexts;
    hide WellFormedFile;
    AnnotationsRoundTrip(keys, m, ann);
    var desc := DescOf(ann, keys[i]);
    assert AnnOf(ann, keys[i]).desc == desc;
    ReplacePairAbsent(desc, '\r', '\n', '\n');
    assert DescSource(desc) == SplitLines(desc);
    OrdinaryIsKept(SplitLines(desc));
  }

  /** When its lines are trimmed already and its first and last are not blank, it comes back as it was. */
  lemma TidyDescriptionSurvives(keys: seq<string>, m: map<string, string>, ann: map<string, Ann>, i: nat)
    requires WellFormedFile(keys, m) && i < |keys|
    requires var desc := DescOf(ann, keys[i]);
             && '\r' !in desc && Ordinary(SplitLines(desc))
             && (forall l | l in SplitLines(desc) && |l| > 0 :: !Spaces.Has(l[|l| - 1]))
             && (|desc| > 0 ==> desc[0] != '\n' && desc[|desc| - 1] != '\n')
    ensures Parse(Render(keys, m, ann)).Ok? && |Parse(Render(keys, m, ann)).value| == |keys|
    ensures Parse(Render(keys, m, ann)).value[i].ann.desc == DescOf(ann, keys[i])
  {
    hide Parse;
    hide Render;
    hide Trim;
    hide TrimRight;
    hide Ordinary;
    hide WellFormedFile;
    hide SplitLines;
    hide Join;
    var desc := DescOf(ann, keys[i]);
    var lines := SplitLines(desc);
    DescriptionSurvives(keys, m, ann, i);
    forall j | 0 <= j < |lines| ensures TrimRight(lines[j], Spaces) == lines[j] {
      assert lines[j] in lines;
      TrimRightStops(lines[j], Spaces);
    }
    assert Trimmed(lines) == lines;
    JoinSplit(desc);
    TrimIsBare(desc, Newlines);
  }

  lemma {:induction false} JoinSplit(s: string)
    ensures Join(SplitLines(s), '\n') == s
    decreases |s|
  {
    match IndexOf(s, '\n')
    case None =>
    case Some(k) =>
      JoinSplit(s[k + 1..]);
      Halves(s, k + 1);
      assert s[..k + 1] == s[..k] + ['\n'];
  }

  /** The same lines with "\r\n" between them. */
  function JoinCRLF(lines: seq<string>): string {
    if |lines| == 0 then "" else if |lines| == 1 then lines[0] else lines[0] + ("\r\n" + JoinCRLF(lines[1..]))
  }

  lemma {:induction false} LineReplaced(line: string, rest: string)
    requires '\r' !in line
    ensures ReplacePair(line + rest, '\r', '\n', '\n') == line + ReplacePair(rest, '\r', '\n', '\n')
  {
    if |line| == 0 {
      assert line + rest == rest && "" + ReplacePair(rest, '\r', '\n', '\n') == ReplacePair(rest, '\r', '\n', '\n');
    } else {
      var tail := line[1..] + rest;
      assert line + rest == [line[0]] + tail;
      LineReplaced(line[1..], rest);
      if |tail| > 0 {
        PairStep('\r', '\n', '\n', line[0], tail);
      } else {
        NothingToReplace(line, '\r', '\n', '\n');
        NothingToReplace("", '\r', '\n', '\n');
        assert rest == "" && line + rest == line;
      }
    }
  }

  lemma {:induction false} CRLFReplaced(lines: seq<string>)
    requires |lines| > 0 && forall i | 0 <= i < |lines| :: '\r' !in lines[i]
    ensures ReplacePair(JoinCRLF(lines), '\r', '\n', '\n') == Join(lines, '\n')
  {
    if |lines| == 1 {
      ReplacePairAbsent(lines[0], '\r', '\n', '\n');
    } else {
      hide ReplacePair;
      CRLFReplaced(lines[1..]);
      var rest := JoinCRLF(lines[1..]);
      LineReplaced(lines[0], "\r\n" + rest);
      PairHit('\r', '\n', '\n', rest);
      assert "\r\n" + rest == ['\r', '\n'] + rest;
      ConcatAssoc(lines[0], ['\n'], Join(lines[1..], '\n'));
    }
  }

  /** A description's line ends may be "\r\n": it comes back as with "\n". */
  lemma CarriageReturnsAreLineEnds(keys: seq<string>, m: map<string, string>, a: map<string, Ann>, b: map<string, Ann>, i: nat, lines: seq<string>)
    requires WellFormedFile(keys, m) && i < |keys| && keys[i] in a && keys[i] in b
    requires |lines| > 0 && forall j | 0 <= j < |lines| :: '\r' !in lines[j] && '\n' !in lines[j]
    requires a[keys[i]].desc == JoinCRLF(lines) && b[keys[i]].desc == Join(lines, '\n')
    ensures Parse(Render(keys, m, a)).Ok? && Parse(Render(keys, m, b)).Ok?
    ensures |Parse(Render(keys, m, a)).value| == |keys| == |Parse(Render(keys, m, b)).value|
    ensures Parse(Render(keys, m, a)).value[i].ann.desc == Parse(Render(keys, m, b)).value[i].ann.desc
  {
    hide Parse;
    hide Render;
    hide Trim;
    hide KeptDesc;
    hide SplitLines;
    hide NoteTexts;
    hide WellFormedFile;
    AnnotationsRoundTrip(keys, m, a);
    AnnotationsRoundTrip(keys, m, b);
    CRLFReplaced(lines);
    NoReturnsIn(lines);
    ReplacePairAbsent(Join(lines, '\n'), '\r', '\n', '\n');
  }

  lemma {:induction false} NoReturnsIn(lines: seq<string>)
    requires forall j | 0 <= j < |lines| :: '\r' !in lines[j]
    ensures '\r' !in Join(lines, '\n')
  {
    if |lines| > 1 {
      NoReturnsIn(lines[1..]);
    }
  }

  /** A line that reads as an assignment takes the description above it along: only what stands below is kept. */
  lemma {:induction false} AssignmentCutsDescription(above: seq<string>, x: string, below: seq<string>)
    requires MatchesPattern(TrimRight(x, Spaces)) && Ordinary(below)
    ensures KeptDesc(above + [x] + below) == Trimmed(below)
  {
    hide MatchesPattern;
    hide CommentedAssignment;
    hide TrimRight;
    var all := above + [x] + below;
    var n := |all| - 1;
    if |below| == 0 {
      RecogniserIsPattern(TrimRight(x, Spaces));
      assert all[n] == x;
    } else {
      var init := below[..|below| - 1];
      assert all[n] == below[|below| - 1] && all[..n] == above + [x] + init;
      assert forall i | 0 <= i < |init| :: init[i] == below[i];
      AssignmentCutsDescription(above, x, init);
      RecogniserIsPattern(TrimRight(below[|below| - 1], Spaces));
    }
  }

  /** So of a description with such lines what is below the last of them comes back. */
  lemma DescriptionBelowAssignmentSurvives(keys: seq<string>, m: map<string, string>, ann: map<string, Ann>, i: nat,
                                           above: seq<string>, x: string, below: seq<string>)
    requires WellFormedFile(keys, m) && i < |keys|
    requires MatchesPattern(TrimRight(x, Spaces)) && Ordinary(below)
    requires forall l | l in above + [x] + below :: '\r' !in l && '\n' !in l
    requires DescOf(ann, keys[i]) == Join(above + [x] + below, '\n')
    ensures Parse(Render(keys, m, ann)).Ok? && |Parse(Render(keys, m, ann)).value| == |keys|
    ensures Parse(Render(keys, m, ann)).value[i].ann.desc == Trim(Join(Trimmed(below), '\n'), Newlines)
  {
    hide Parse;
    hide Render;
    hide Trim;
    hide Join;
    hide SplitLines;
    hide KeptDesc;
    hide Ordinary;
    hide NoteTexts;
    hide WellFormedFile;
    hide MatchesPattern;
    AnnotationsRoundTrip(keys, m, ann);
    var lines := above + [x] + below;
    var desc := Join(lines, '\n');
    assert AnnOf(ann, keys[i]).desc == desc;
    NoReturnsIn(lines);
    ReplacePairAbsent(desc, '\r', '\n', '\n');
    SplitJoin(lines);
    AssignmentCutsDescription(above, x, below);
  }
}
