/** What comes back when a written .env file is read: keys, values, descriptions and notes. */
module DotenvRoundTrip {
  import opened Wrappers
  import opened Text
  import opened DotenvComments
  import opened DotenvValues
  import opened Dotenv

  /** The keys that are read back as written. */
  predicate KeyOk(k: string) {
    && |k| > 0 && Bare(k, Spaces) && k[0] != '#'
    && '=' !in k && '\n' !in k && !(EXPORT_PREFIX <= k)
  }

  // ---- The assignment line ---------------------------------------------------------

  lemma DropCRKeepsTrim(line: string)
    ensures TrimRight(DropCR(line), Spaces) == TrimRight(line, Spaces)
  {
    hide TrimRight;
    if |line| > 0 && line[|line| - 1] == '\r' {
      var n := |line| - 1;
      Halves(line, n);
      assert line[n..] == ['\r'];
      TrimRightIgnores(line[..n], ['\r'], Spaces);
    }
  }

  lemma DropCRBeforeTrim(line: string)
    requires |line| > 1 && !Spaces.Has(line[0])
    ensures TrimSpace(DropCR(line)) == TrimRight(line, Spaces)
  {
    hide TrimRight;
    hide TrimLeft;
    hide CharClass.Has;
    DropCRKeepsTrim(line);
    TrimLeftStops(DropCR(line), Spaces);
  }

  /** What is left of an assignment line when it reaches the parser. */
  lemma AssignLineTrimmed(k: string, v: string)
    requires |k| > 0 && !Spaces.Has(k[0])
    ensures TrimSpace(DropCR(AssignLine(k, v))) == k + "=" + TrimRight(WriteValue(v), Spaces)
  {
    DropCRBeforeTrim(AssignLine(k, v));
    TrimRightKeeps(k + "=", WriteValue(v), Spaces);
  }

  lemma NotExported(k: string, t: string)
    requires '=' !in k && !(EXPORT_PREFIX <= k)
    ensures !(EXPORT_PREFIX <= k + "=" + t)
  {
    var raw := k + "=" + t;
    if |k| < |EXPORT_PREFIX| {
      assert raw[|k|] == '=' != EXPORT_PREFIX[|k|];
    } else {
      assert raw[..|EXPORT_PREFIX|] == k[..|EXPORT_PREFIX|];
    }
  }

  lemma ReadsKey(k: string, t: string)
    requires KeyOk(k)
    ensures var raw := k + "=" + t;
            && raw[0] != '#'
            && ReadAssignment(raw) ==
               match ReadValue(t) case None => Err(UnterminatedValue) case Some(value) => Ok((k, value))
  {
    hide TrimLeft;
    hide TrimRight;
    hide TrimSpace;
    hide ReadValue;
    hide CharClass.Has;
    var raw := k + "=" + t;
    NotExported(k, t);
    assert raw[|k|] == '=' && raw[..|k|] == k && raw[|k| + 1..] == t;
    IndexOfAt(raw, '=', |k|);
    BareTrims(k);
  }

  lemma BareTrims(s: string)
    requires Bare(s, Spaces)
    ensures TrimSpace(s) == s
  {
    TrimIsBare(s, Spaces);
  }

  /** A well-formed pair comes back, with whatever block stood above it. */
  lemma AssignLineReads(r: Reader, k: string, v: string)
    requires r.error.None? && KeyOk(k) && ValueOk(v)
    ensures ReadLine(r, DropCR(AssignLine(k, v))) ==
            Reader(r.lineNo + 1, EMPTY_BLOCK, r.entries + [Entry(k, v, BlockAnn(r.block))], None)
  {
    hide TrimRight;
    hide TrimLeft;
    hide ReadAssignment;
    hide ReadValue;
    hide WriteValue;
    hide ValueOk;
    hide BlockAdd;
    hide BlockAnn;
    AssignLineTrimmed(k, v);
    ReadsKey(k, TrimRight(WriteValue(v), Spaces));
    ValueRoundTripsExactlyWhen(v);
  }

  // ---- Comment lines ------------------------------------------------------------------

  lemma BlanksAreSpaces(s: string)
    requires AllIn(s, Blanks)
    ensures AllIn(s, Spaces)
  {
  }

  lemma BlanksThenSpaces(line: string)
    ensures TrimRight(TrimRight(line, Blanks), Spaces) == TrimRight(line, Spaces)
  {
    var t := TrimRight(line, Blanks);
    Halves(line, |t|);
    BlanksAreSpaces(line[|t|..]);
    hide TrimRight;
    hide CharClass.Has;
    TrimRightIgnores(t, line[|t|..], Spaces);
  }

  lemma BlankBeforeText(t: string)
    ensures var u := TrimRight(t, Spaces);
            TrimRight([' '] + t, Spaces) == if u == "" then "" else [' '] + u
  {
    hide TrimRight;
    var u := TrimRight(t, Spaces);
    Halves(t, |u|);
    ConcatAssoc([' '], u, t[|u|..]);
    TrimRightIgnores([' '] + u, t[|u|..], Spaces);
    if u == "" {
      assert [' '] + u == [] + [' '];
      TrimRightIgnores([], [' '], Spaces);
      TrimRightStops([], Spaces);
    } else {
      TrimRightStops([' '] + u, Spaces);
    }
  }

  lemma HashBeforeText(t: string)
    ensures var u := TrimRight(t, Spaces);
            TrimRight("# " + t, Spaces) == if u == "" then "#" else "# " + u
  {
    hide TrimRight;
    var u := TrimRight(t, Spaces);
    assert "# " + t == ['#'] + ([' '] + t);
    TrimRightKeeps(['#'], [' '] + t, Spaces);
    BlankBeforeText(t);
    assert ['#'] + ([' '] + u) == "# " + u;
  }

  lemma LoneHash()
    ensures TrimSpace(DropCR("#")) == "#"
  {
    assert DropCR("#") == "#";
    TrimRightStops("#", Spaces);
    TrimLeftStops("#", Spaces);
  }

  /** What a written description line is when it reaches the block. */
  lemma DescLineTrimmed(line: string)
    ensures var u := TrimRight(line, Spaces);
            TrimSpace(DropCR(DescLine(line))) == if u == "" then "#" else "# " + u
  {
    hide TrimLeft;
    hide TrimRight;
    hide TrimSpace;
    hide DropCR;
    var t := TrimRight(line, Blanks);
    BlanksThenSpaces(line);
    if t == "" {
      LoneHash();
      TrimRightStops("", Spaces);
    } else {
      DropCRBeforeTrim("# " + t);
      HashBeforeText(t);
    }
  }

  /** The text of a written description line, as the block sees it. */
  lemma DescBody(u: string)
    requires |u| > 0 ==> !Spaces.Has(u[|u| - 1])
    ensures var raw := if u == "" then "#" else "# " + u;
            CommentBody(raw) == u && |raw| - |TrimLeft(raw, Hashes)| == 1 && raw[0] == '#'
    ensures TrimRight(u, Blanks) == u
  {
    var raw := if u == "" then "#" else "# " + u;
    if u == "" {
      assert TrimLeft("#", Hashes) == "" by { assert "#"[1..] == ""; }
    } else {
      assert raw[1..] == " " + u;
      TrimLeftStops(" " + u, Hashes);
      assert (" " + u)[1..] == u;
    }
    TrimRightStops(u, Blanks);
  }

  /** The description lines that survive: right-trimmed, and only those after the last one that looks like an assignment. */
  function KeptDesc(lines: seq<string>): seq<string> {
    if |lines| == 0 then []
    else
      var u := TrimRight(lines[|lines| - 1], Spaces);
      if CommentedAssignment(u) then [] else KeptDesc(lines[..|lines| - 1]) + [u]
  }

  lemma {:induction false} DescLinesRead(r: Reader, lines: seq<string>)
    requires r.error.None? && r.block == EMPTY_BLOCK
    ensures ReadLines(r, DropCRs(DescLines(lines))) ==
            r.(lineNo := r.lineNo + |lines|, block := Block(KeptDesc(lines), [], false))
  {
    hide TrimLeft;
    hide TrimRight;
    hide CommentedAssignment;
    hide TrimSpace;
    hide CommentBody;
    hide DropCR;
    hide DescLine;
    hide ReadAssignment;
    var n := |lines| - 1;
    var scanned := DropCRs(DescLines(lines));
    if n >= 0 {
      DescLinesRead(r, lines[..n]);
      assert scanned[..n] == DropCRs(DescLines(lines[..n]));
      DescLineTrimmed(lines[n]);
      DescBody(TrimRight(lines[n], Spaces));
    }
  }

  lemma HashesOff(text: string)
    ensures TrimLeft("## " + text, Hashes) == " " + text
  {
    hide TrimLeft;
    assert "## " + text == "##" + (" " + text);
    TrimLeftSkips("##", " " + text, Hashes);
  }

  lemma NoteLineTrimmed(text: string)
    requires |text| > 0 && Bare(text, Spaces)
    ensures var raw := "## " + text;
            && TrimSpace(DropCR(raw)) == raw && raw[0] == '#'
            && |raw| - |TrimLeft(raw, Hashes)| == 2 && TrimSpace(CommentBody(raw)) == text
  {
    hide TrimRight;
    hide TrimLeft;
    hide TrimSpace;
    var raw := "## " + text;
    DropCRBeforeTrim(raw);
    TrimRightStops(raw, Spaces);
    HashesOff(text);
    assert (" " + text)[1..] == text;
    BareTrims(text);
  }

  ghost predicate CleanNotes(texts: seq<string>) {
    forall i | 0 <= i < |texts| :: |texts[i]| > 0 && Bare(texts[i], Spaces) && '\n' !in texts[i]
  }

  lemma NoteTextClean(note: string)
    ensures Bare(NoteText(note), Spaces) && '\n' !in NoteText(note)
  {
    FieldsAreWords(note);
    JoinedWordsBare(Fields(note));
  }

  lemma {:induction false} NoteTextsClean(notes: seq<string>)
    ensures CleanNotes(NoteTexts(notes))
  {
    hide NoteText;
    hide CharClass.Has;
    if |notes| > 0 {
      NoteTextsClean(notes[..|notes| - 1]);
      NoteTextClean(notes[|notes| - 1]);
    }
  }

  lemma {:induction false} NoteLinesRead(r: Reader, texts: seq<string>)
    requires r.error.None? && CleanNotes(texts) && r.block.notes == []
    ensures ReadLines(r, DropCRs(NoteLines(texts))) ==
            r.(lineNo := r.lineNo + |texts|, block := Block(r.block.desc, texts, r.block.inNotes || |texts| > 0))
  {
    hide TrimLeft;
    hide TrimRight;
    hide CommentedAssignment;
    hide TrimSpace;
    hide CommentBody;
    hide DropCR;
    hide ReadAssignment;
    var n := |texts| - 1;
    var scanned := DropCRs(NoteLines(texts));
    if n >= 0 {
      NoteLinesRead(r, texts[..n]);
      assert scanned[..n] == DropCRs(NoteLines(texts[..n]));
      NoteLineTrimmed(texts[n]);
      assert texts == texts[..n] + [texts[n]];
    }
  }

  /** What an annotation is worth once written: the block its lines make. */
  function Normalized(a: Ann): Ann {
    Ann(Trim(Join(KeptDesc(DescSource(a.desc)), '\n'), Newlines), NoteTexts(a.notes))
  }

  lemma EmptyDescription()
    ensures Trim(Join(KeptDesc(DescSource("")), '\n'), Newlines) == ""
    ensures Trim(Join([], '\n'), Newlines) == ""
  {
    assert DescSource("") == [""];
    assert [""][..0] == [];
    assert TrimRight("", Spaces) == "";
    assert KeptDesc([""]) == [""];
  }

  lemma CommentLinesRead(r: Reader, a: Ann)
    requires r.error.None? && r.block == EMPTY_BLOCK
    ensures var after := ReadLines(r, DropCRs(CommentLines(a)));
            after.entries == r.entries && after.error.None? && BlockAnn(after.block) == Normalized(a)
  {
    hide ReadLine;
    hide DescSource;
    hide NoteTexts;
    hide KeptDesc;
    hide Trim;
    hide Join;
    hide DropCR;
    hide DescLine;
    var desc := if a.desc == "" then [] else DescLines(DescSource(a.desc));
    var notes := NoteLines(NoteTexts(a.notes));
    DropCRsConcat(desc, notes);
    ReadLinesConcat(r, DropCRs(desc), DropCRs(notes));
    var mid := ReadLines(r, DropCRs(desc));
    if a.desc == "" {
      assert mid == r;
      EmptyDescription();
    } else {
      DescLinesRead(r, DescSource(a.desc));
    }
    NoteTextsClean(a.notes);
    NoteLinesRead(mid, NoteTexts(a.notes));
  }

  lemma BlankLineRead(r: Reader)
    requires r.error.None? && r.block == EMPTY_BLOCK
    ensures ReadLines(r, [""]) == r.(lineNo := r.lineNo + 1)
  {
    assert [""][..0] == [] && TrimSpace("") == "";
  }

  lemma DropCRsConcat(a: seq<string>, b: seq<string>)
    ensures DropCRs(a + b) == DropCRs(a) + DropCRs(b)
  {
  }

  /** The blank line and the comment block before an assignment. */
  lemma BlockLinesRead(r: Reader, first: bool, a: Ann)
    requires r.error.None? && r.block == EMPTY_BLOCK
    ensures var after := ReadLines(r, DropCRs(if a.IsEmpty() then [] else (if first then [] else [""]) + CommentLines(a)));
            after.entries == r.entries && after.error.None? && BlockAnn(after.block) == Normalized(a)
  {
    hide ReadLine;
    hide CommentLines;
    hide BlockAnn;
    hide Normalized;
    if a.IsEmpty() {
      NothingWritten(a);
    } else if first {
      assert [] + CommentLines(a) == CommentLines(a);
      CommentLinesRead(r, a);
    } else {
      DropCRsConcat([""], CommentLines(a));
      assert DropCRs([""]) == [""];
      ReadLinesConcat(r, [""], DropCRs(CommentLines(a)));
      BlankLineRead(r);
      CommentLinesRead(ReadLines(r, [""]), a);
    }
  }

  lemma NothingWritten(a: Ann)
    requires a.IsEmpty()
    ensures BlockAnn(EMPTY_BLOCK) == Normalized(a)
  {
    EmptyDescription();
  }

  /** One key's lines give one entry: its pair, and its own annotation normalised. */
  lemma EntryLinesRead(r: Reader, first: bool, k: string, v: string, a: Ann)
    requires r.error.None? && r.block == EMPTY_BLOCK && KeyOk(k) && ValueOk(v)
    ensures var after := ReadLines(r, DropCRs(EntryLines(first, k, v, a)));
            && after.error.None? && after.block == EMPTY_BLOCK
            && after.entries == r.entries + [Entry(k, v, Normalized(a))]
  {
    hide ReadLine;
    hide CommentLines;
    hide AssignLine;
    hide DropCR;
    hide Normalized;
    hide BlockAnn;
    hide KeyOk;
    hide ValueOk;
    var above := if a.IsEmpty() then [] else (if first then [] else [""]) + CommentLines(a);
    var line := AssignLine(k, v);
    DropCRsConcat(above, [line]);
    assert DropCRs([line]) == [DropCR(line)];
    ReadLinesConcat(r, DropCRs(above), [DropCR(line)]);
    BlockLinesRead(r, first, a);
    var two := ReadLines(r, DropCRs(above));
    assert [DropCR(line)][..0] == [];
    assert ReadLines(two, [DropCR(line)]) == ReadLine(two, DropCR(line));
    AssignLineReads(two, k, v);
  }

  // ---- Whole files -----------------------------------------------------------------

  /** The entries a reader should find: each key in order, with its own value and normalised annotation. */
  function Expected(keys: seq<string>, m: map<string, string>, ann: map<string, Ann>): (r: seq<Entry>)
    ensures |r| == |keys|
    ensures forall i | 0 <= i < |keys| :: r[i] == Entry(keys[i], ValueOf(m, keys[i]), Normalized(AnnOf(ann, keys[i])))
  {
    seq(|keys|, i requires 0 <= i < |keys| => Entry(keys[i], ValueOf(m, keys[i]), Normalized(AnnOf(ann, keys[i]))))
  }

  ghost predicate WellFormedFile(keys: seq<string>, m: map<string, string>) {
    forall i | 0 <= i < |keys| :: KeyOk(keys[i]) && ValueOk(ValueOf(m, keys[i]))
  }

  ghost predicate NoNewlines(lines: seq<string>) {
    forall i | 0 <= i < |lines| :: '\n' !in lines[i]
  }

  lemma AssignLineClean(k: string, v: string)
    requires '\n' !in k
    ensures '\n' !in AssignLine(k, v)
  {
    EscapeKeepsQuotes(v);
  }

  lemma CommentLinesClean(a: Ann)
    ensures NoNewlines(CommentLines(a))
  {
    NoteTextsClean(a.notes);
    var lines := DescSource(a.desc);
    forall i | 0 <= i < |lines| ensures '\n' !in DescLine(lines[i]) {
      assert forall c | c in TrimRight(lines[i], Blanks) :: c in lines[i];
    }
    forall i | 0 <= i < |NoteTexts(a.notes)| ensures '\n' !in "## " + NoteTexts(a.notes)[i] {
    }
  }

  lemma {:induction false} FileLinesClean(keys: seq<string>, m: map<string, string>, ann: map<string, Ann>)
    requires forall i | 0 <= i < |keys| :: '\n' !in keys[i]
    ensures NoNewlines(FileLines(keys, m, ann))
  {
    hide CommentLines;
    hide AssignLine;
    if |keys| > 0 {
      var n := |keys| - 1;
      FileLinesClean(keys[..n], m, ann);
      AssignLineClean(keys[n], ValueOf(m, keys[n]));
      CommentLinesClean(AnnOf(ann, keys[n]));
    }
  }

  lemma {:induction false} ExpectedSnoc(keys: seq<string>, m: map<string, string>, ann: map<string, Ann>)
    requires |keys| > 0
    ensures var n := |keys| - 1;
            Expected(keys, m, ann) ==
            Expected(keys[..n], m, ann) + [Entry(keys[n], ValueOf(m, keys[n]), Normalized(AnnOf(ann, keys[n])))]
  {
    hide Normalized;
  }

  lemma {:induction false} FileLinesRead(keys: seq<string>, m: map<string, string>, ann: map<string, Ann>)
    requires WellFormedFile(keys, m)
    ensures var after := ReadLines(START, DropCRs(FileLines(keys, m, ann)));
            after.error.None? && after.block == EMPTY_BLOCK && after.entries == Expected(keys, m, ann)
  {
    hide ReadLine;
    hide EntryLines;
    hide Normalized;
    hide KeyOk;
    hide ValueOk;
    hide ValueOf;
    hide AnnOf;
    hide DropCR;
    if |keys| > 0 {
      var n := |keys| - 1;
      var k, v, a := keys[n], ValueOf(m, keys[n]), AnnOf(ann, keys[n]);
      FileLinesRead(keys[..n], m, ann);
      var before, mine := FileLines(keys[..n], m, ann), EntryLines(n == 0, k, v, a);
      DropCRsConcat(before, mine);
      ReadLinesConcat(START, DropCRs(before), DropCRs(mine));
      EntryLinesRead(ReadLines(START, DropCRs(before)), n == 0, k, v, a);
      ExpectedSnoc(keys, m, ann);
    }
  }

  /**
   Reading a written file gives every key in order with its value, and attaches to it
   exactly its own annotation, normalised; for any annotations at all.
   */
  lemma AnnotationsRoundTrip(keys: seq<string>, m: map<string, string>, ann: map<string, Ann>)
    requires WellFormedFile(keys, m)
    ensures Parse(Render(keys, m, ann)) == Ok(Expected(keys, m, ann))
  {
    FileLinesClean(keys, m, ann);
    ScanUnlines(FileLines(keys, m, ann));
    FileLinesRead(keys, m, ann);
  }

  /** When no line of a description looks like an assignment, all its lines are kept, right-trimmed. */
  lemma {:induction false} OrdinaryDescriptionKept(lines: seq<string>)
    requires forall i | 0 <= i < |lines| :: !CommentedAssignment(TrimRight(lines[i], Spaces))
    ensures |KeptDesc(lines)| == |lines|
    ensures forall i | 0 <= i < |lines| :: KeptDesc(lines)[i] == TrimRight(lines[i], Spaces)
  {
    hide CommentedAssignment;
    hide TrimRight;
    if |lines| > 0 {
      OrdinaryDescriptionKept(lines[..|lines| - 1]);
    }
  }

  // ---- Exactly which files come back -------------------------------------------------

  /** A line adds at most one entry, and none after an error. */
  lemma ReadLineGrows(r: Reader, line: string)
    ensures r.entries <= ReadLine(r, line).entries && |ReadLine(r, line).entries| <= |r.entries| + 1
    ensures ReadLine(r, line).error.None? ==> r.error.None?
  {
  }

  /** A blank line or a comment. */
  predicate Silent(line: string) {
    TrimSpace(line) == "" || TrimSpace(line)[0] == '#'
  }

  lemma {:induction false} SilentLinesRead(r: Reader, lines: seq<string>)
    requires forall i | 0 <= i < |lines| :: Silent(lines[i])
    ensures ReadLines(r, lines).entries == r.entries && ReadLines(r, lines).error == r.error
  {
    hide TrimSpace;
    hide BlockAdd;
    hide ReadAssignment;
    if |lines| > 0 {
      SilentLinesRead(r, lines[..|lines| - 1]);
    }
  }

  /** What is written above an assignment adds no entry, whatever came before it. */
  lemma AboveIsSilent(first: bool, a: Ann)
    ensures var above := DropCRs(if a.IsEmpty() then [] else (if first then [] else [""]) + CommentLines(a));
            forall i | 0 <= i < |above| :: Silent(above[i])
  {
    hide TrimSpace;
    hide DescSource;
    hide NoteTexts;
    hide DropCR;
    hide DescLine;
    if !a.IsEmpty() {
      BlankIsSilent();
      var source := DescSource(a.desc);
      forall l | l in source ensures Silent(DropCR(DescLine(l))) {
        DescLineTrimmed(l);
        DescBody(TrimRight(l, Spaces));
      }
      NoteTextsClean(a.notes);
      forall t | t in NoteTexts(a.notes) ensures Silent(DropCR("## " + t)) {
        NoteLineTrimmed(t);
      }
    }
  }

  lemma BlankIsSilent()
    ensures Silent(DropCR(""))
  {
    assert TrimSpace("") == "";
  }

  /** A key that is read is trimmed, not empty, and has neither newline nor equals sign. */
  lemma KeyReadIsTrimmed(raw: string)
    requires ReadAssignment(raw).Ok?
    ensures var k := ReadAssignment(raw).value.0;
            |k| > 0 && Bare(k, Spaces) && '=' !in k && (forall c | c in k :: c in raw)
  {
    var text := if EXPORT_PREFIX <= raw then TrimLeft(raw[|EXPORT_PREFIX|..], Blanks) else raw;
    var eq := IndexOf(text, '=').value;
    TrimIsBare(text[..eq], Spaces);
    assert forall c | c in text :: c in raw;
    var l := TrimLeft(text[..eq], Spaces);
    assert forall c | c in l :: c in text[..eq];
    assert forall c | c in TrimRight(l, Spaces) :: c in l;
  }

  /** A key with the export prefix loses it. */
  lemma ExportedKeyShrinks(k: string, t: string)
    requires EXPORT_PREFIX <= k && '=' !in k
    requires ReadAssignment(k + "=" + t).Ok?
    ensures |ReadAssignment(k + "=" + t).value.0| < |k|
  {
    hide ReadAssignment;
    hide TrimLeft;
    hide TrimSpace;
    hide ReadValue;
    hide CharClass.Has;
    var n := |EXPORT_PREFIX|;
    var rest, tail := k[n..], ['='] + t;
    AfterExport(k, t);
    EqualsIsNoBlank();
    TrimLeftUpTo(rest, tail, Blanks);
    var kept := TrimLeft(rest, Blanks);
    assert forall c | c in kept :: c in rest;
    assert forall c | c in rest :: c in k;
    KeyBeforeEquals(kept, t);
    KeyIsUpTo(k + "=" + t, |kept|);
  }

  lemma KeyIsUpTo(raw: string, j: nat)
    requires EXPORT_PREFIX <= raw && ReadAssignment(raw).Ok?
    requires var text := TrimLeft(raw[|EXPORT_PREFIX|..], Blanks);
             IndexOf(text, '=') == Some(j) && |TrimSpace(text[..j])| <= j
    ensures |ReadAssignment(raw).value.0| <= j
  {
    hide TrimLeft;
    hide TrimSpace;
    hide ReadValue;
  }

  lemma EqualsIsNoBlank()
    ensures !Blanks.Has('=')
  {
  }

  lemma AfterExport(k: string, t: string)
    requires EXPORT_PREFIX <= k
    ensures EXPORT_PREFIX <= k + "=" + t && (k + "=" + t)[|EXPORT_PREFIX|..] == k[|EXPORT_PREFIX|..] + (['='] + t)
  {
    var n := |EXPORT_PREFIX|;
    var raw := k + "=" + t;
    assert raw[..n] == k[..n] == EXPORT_PREFIX;
  }

  lemma KeyBeforeEquals(kept: string, t: string)
    requires '=' !in kept
    ensures var text := kept + (['='] + t);
            IndexOf(text, '=') == Some(|kept|) && text[..|kept|] == kept && |TrimSpace(kept)| <= |kept|
  {
    var text := kept + (['='] + t);
    assert text[..|kept|] == kept && text[|kept|] == '=';
    IndexOfAt(text, '=', |kept|);
  }

  /** Trimming on the left stops at the latest where something else begins. */
  lemma TrimLeftUpTo(s: string, tail: string, k: CharClass)
    requires |tail| > 0 && !k.Has(tail[0])
    ensures TrimLeft(s + tail, k) == TrimLeft(s, k) + tail
  {
    hide TrimLeft;
    hide CharClass.Has;
    var r := TrimLeft(s, k);
    var n := |s| - |r|;
    Halves(s, n);
    ConcatAssoc(s[..n], r, tail);
    TrimLeftSkips(s[..n], r + tail, k);
  }

  /** An assignment line gives back its own pair exactly when key and value are well-formed. */
  lemma AssignLineRoundTripsExactlyWhen(r: Reader, k: string, v: string)
    requires r.error.None? && '\n' !in k
    ensures var after := ReadLine(r, DropCR(AssignLine(k, v)));
            (exists a :: after.entries == r.entries + [Entry(k, v, a)]) <==> KeyOk(k) && ValueOk(v)
  {
    var after := ReadLine(r, DropCR(AssignLine(k, v)));
    if KeyOk(k) && ValueOk(v) {
      AssignLineReads(r, k, v);
    }
    if a :| after.entries == r.entries + [Entry(k, v, a)] {
      var raw := TrimSpace(DropCR(AssignLine(k, v)));
      assert after.entries[|r.entries|] == Entry(k, v, a);
      assert ReadAssignment(raw) == Ok((k, v)) && raw[0] != '#';
      KeyReadIsTrimmed(raw);
      AssignLineTrimmed(k, v);
      var t := TrimRight(WriteValue(v), Spaces);
      if EXPORT_PREFIX <= k {
        ExportedKeyShrinks(k, t);
      }
      assert KeyOk(k);
      ReadsKey(k, t);
      ValueRoundTripsExactlyWhen(v);
    }
  }

  /** Keys that come out of the parser hold no newline. */
  lemma {:induction false} ReadKeysHaveNoNewline(lines: seq<string>)
    requires NoNewlines(lines)
    ensures forall e | e in ReadLines(START, lines).entries :: '\n' !in e.key
  {
    hide ReadAssignment;
    hide TrimLeft;
    hide TrimRight;
    hide BlockAdd;
    hide BlockAnn;
    if |lines| > 0 {
      var n := |lines| - 1;
      ReadKeysHaveNoNewline(lines[..n]);
      var raw := TrimSpace(lines[n]);
      TrimmedHasNoNewline(lines[n]);
      if ReadAssignment(raw).Ok? {
        KeyReadIsTrimmed(raw);
      }
    }
  }

  /** The entries are the expected pairs, whatever annotations they carry. */
  ghost predicate GivesPairs(entries: seq<Entry>, keys: seq<string>, m: map<string, string>) {
    && |entries| == |keys|
    && forall i | 0 <= i < |keys| :: entries[i].key == keys[i] && entries[i].value == ValueOf(m, keys[i])
  }

  lemma {:induction false} EachEntryGaveItsPair(keys: seq<string>, m: map<string, string>, ann: map<string, Ann>)
    requires forall i | 0 <= i < |keys| :: '\n' !in keys[i]
    ensures var after := ReadLines(START, DropCRs(FileLines(keys, m, ann)));
            && |after.entries| <= |keys|
            && (after.error.None? && GivesPairs(after.entries, keys, m) ==> WellFormedFile(keys, m))
  {
    hide ReadLine;
    hide EntryLines;
    hide KeyOk;
    hide ValueOk;
    hide AssignLine;
    hide DropCR;
    hide ValueOf;
    hide AnnOf;
    hide ReadLines;
    if |keys| == 0 {
      var none: seq<string> := [];
      NothingRead(none);
      assert none[..0] == none == DropCRs(FileLines(keys, m, ann));
    } else {
      var n := |keys| - 1;
      var k, v, a := keys[n], ValueOf(m, keys[n]), AnnOf(ann, keys[n]);
      EachEntryGaveItsPair(keys[..n], m, ann);
      var lines, mine := FileLines(keys[..n], m, ann), EntryLines(n == 0, k, v, a);
      DropCRsConcat(lines, mine);
      ReadLinesConcat(START, DropCRs(lines), DropCRs(mine));
      var before := ReadLines(START, DropCRs(lines));
      var after := ReadLines(before, DropCRs(mine));
      assert after == ReadLines(START, DropCRs(FileLines(keys, m, ann)));
      var above := EntryReadsOnce(before, n == 0, k, v, a);
      if after.error.None? && GivesPairs(after.entries, keys, m) {
        LastEntry(before.entries, after.entries, n);
        assert GivesPairs(before.entries, keys[..n], m);
        var e := after.entries[n];
        assert e == Entry(k, v, e.ann);
        AssignLineRoundTripsExactlyWhen(above, k, v);
      }
    }
  }

  /** The lines of one entry: the reader after those above the assignment, and what that adds. */
  lemma EntryReadsOnce(r: Reader, first: bool, k: string, v: string, a: Ann) returns (above: Reader)
    ensures above.entries == r.entries && above.error == r.error
    ensures var after := ReadLines(r, DropCRs(EntryLines(first, k, v, a)));
            && after == ReadLine(above, DropCR(AssignLine(k, v)))
            && r.entries <= after.entries && |after.entries| <= |r.entries| + 1
            && (after.error.None? ==> r.error.None?)
  {
    hide ReadLine;
    hide CommentLines;
    hide AssignLine;
    hide DropCR;
    hide Silent;
    var lines := if a.IsEmpty() then [] else (if first then [] else [""]) + CommentLines(a);
    var line := AssignLine(k, v);
    DropCRsConcat(lines, [line]);
    assert DropCRs([line]) == [DropCR(line)];
    ReadLinesConcat(r, DropCRs(lines), [DropCR(line)]);
    AboveIsSilent(first, a);
    SilentLinesRead(r, DropCRs(lines));
    above := ReadLines(r, DropCRs(lines));
    assert [DropCR(line)][..0] == [];
    assert ReadLines(above, [DropCR(line)]) == ReadLine(above, DropCR(line));
    ReadLineGrows(above, DropCR(line));
  }

  lemma LastEntry(before: seq<Entry>, after: seq<Entry>, n: nat)
    requires before <= after && |before| <= n && |after| == n + 1 && |after| <= |before| + 1
    ensures |before| == n && after == before + [after[n]]
  {
  }

  /** A file, with whatever annotations, comes back exactly when every key and every value is well-formed. */
  lemma FileRoundTripsExactlyWhen(keys: seq<string>, m: map<string, string>, ann: map<string, Ann>)
    ensures Parse(Render(keys, m, ann)) == Ok(Expected(keys, m, ann)) <==> WellFormedFile(keys, m)
  {
    hide ReadLine;
    hide KeyOk;
    hide ValueOk;
    hide ReadLines;
    hide Normalized;
    hide FileLines;
    hide DropCR;
    if WellFormedFile(keys, m) {
      AnnotationsRoundTrip(keys, m, ann);
    } else if Parse(Render(keys, m, ann)) == Ok(Expected(keys, m, ann)) {
      ReadKeysHaveNoNewline(ScanLines(Render(keys, m, ann)));
      forall i | 0 <= i < |keys| ensures '\n' !in keys[i] {
        assert Expected(keys, m, ann)[i] in Expected(keys, m, ann);
      }
      FileLinesClean(keys, m, ann);
      ScanUnlines(FileLines(keys, m, ann));
      EachEntryGaveItsPair(keys, m, ann);
    }
  }

  // ---- No description ever holds a disabled assignment ---------------------------------

  ghost predicate CleanDesc(lines: seq<string>) {
    forall i | 0 <= i < |lines| :: '\n' !in lines[i] && !CommentedAssignment(lines[i])
  }

  lemma CommentBodyIsPart(line: string)
    requires '\n' !in line
    ensures '\n' !in CommentBody(line)
  {
    hide CharClass.Has;
    assert forall c | c in TrimLeft(line, Hashes) :: c in line;
  }

  /** Trimming the right end off a line makes no assignment of it. */
  lemma TrimmedStaysOrdinary(body: string)
    requires '\n' !in body && !CommentedAssignment(body)
    ensures CleanDesc([TrimRight(body, Blanks)])
  {
    hide CharClass.Has;
    hide CommentedAssignment;
    var t := TrimRight(body, Blanks);
    assert forall c | c in t :: c in body;
    Halves(body, |t|);
    if CommentedAssignment(t) {
      AssignmentSurvivesSuffix(t, body[|t|..]);
    }
  }

  lemma BlockAddKeepsClean(b: Block, line: string)
    requires CleanDesc(b.desc) && '\n' !in line
    ensures CleanDesc(BlockAdd(b, line).desc)
  {
    hide TrimLeft;
    hide TrimRight;
    hide CommentedAssignment;
    hide TrimSpace;
    hide CommentBody;
    hide CharClass.Has;
    var body := CommentBody(line);
    CommentBodyIsPart(line);
    if !CommentedAssignment(body) {
      TrimmedStaysOrdinary(body);
    }
  }

  /** Trimming newlines off joined lines drops empty lines at the ends and nothing else. */
  lemma {:induction false} TrimmedDescLines(lines: seq<string>)
    requires CleanDesc(lines)
    ensures CleanDesc(SplitLines(Trim(Join(lines, '\n'), Newlines)))
  {
    var l := DropLeadingEmpty(lines);
    var r := DropTrailingEmpty(l);
    if |r| > 0 {
      SplitJoin(r);
    } else {
      assert SplitLines("") == [""];
      NotAnAssignment();
    }
  }

  lemma NotAnAssignment()
    ensures !CommentedAssignment("")
  {
  }

  lemma {:induction false} DropLeadingEmpty(lines: seq<string>) returns (r: seq<string>)
    requires CleanDesc(lines)
    ensures CleanDesc(r) && TrimLeft(Join(lines, '\n'), Newlines) == Join(r, '\n')
    ensures |r| > 0 ==> |r[0]| > 0
  {
    hide CommentedAssignment;
    if |lines| == 0 {
      r := [];
    } else if lines[0] == "" {
      if |lines| == 1 {
        r := [];
      } else {
        r := DropLeadingEmpty(lines[1..]);
        assert Join(lines, '\n') == ['\n'] + Join(lines[1..], '\n');
        assert Join(lines, '\n')[1..] == Join(lines[1..], '\n');
      }
    } else {
      r := lines;
      assert Join(lines, '\n')[0] == lines[0][0];
      assert lines[0][0] in lines[0];
      TrimLeftStops(Join(lines, '\n'), Newlines);
    }
  }

  lemma {:induction false} JoinSnoc(lines: seq<string>, last: string)
    requires |lines| > 0
    ensures Join(lines + [last], '\n') == Join(lines, '\n') + ['\n'] + last
  {
    if |lines| == 1 {
      assert (lines + [last])[1..] == [last];
    } else {
      assert (lines + [last])[1..] == lines[1..] + [last];
      JoinSnoc(lines[1..], last);
      var head := lines[0] + ['\n'];
      ConcatAssoc(head, Join(lines[1..], '\n') + ['\n'], last);
      ConcatAssoc(head, Join(lines[1..], '\n'), ['\n']);
    }
  }

  lemma {:induction false} DropTrailingEmpty(lines: seq<string>) returns (r: seq<string>)
    requires CleanDesc(lines)
    ensures CleanDesc(r) && TrimRight(Join(lines, '\n'), Newlines) == Join(r, '\n')
  {
    hide CommentedAssignment;
    hide TrimRight;
    var n := |lines| - 1;
    if n < 0 {
      r := [];
    } else if lines[n] == "" {
      r := DropTrailingEmpty(lines[..n]);
      if n > 0 {
        JoinSnoc(lines[..n], "");
        assert lines == lines[..n] + [""];
        assert Join(lines, '\n') == Join(lines[..n], '\n') + ['\n'];
        TrimRightIgnores(Join(lines[..n], '\n'), ['\n'], Newlines);
      }
    } else {
      r := lines;
      var s := Join(lines, '\n');
      if n > 0 {
        JoinSnoc(lines[..n], lines[n]);
        assert lines == lines[..n] + [lines[n]];
      }
      assert s[|s| - 1] == lines[n][|lines[n]| - 1];
      assert lines[n][|lines[n]| - 1] in lines[n];
      TrimRightStops(s, Newlines);
    }
  }

  /** What holds of a reader whose descriptions are clean. */
  ghost predicate CleanReader(r: Reader) {
    CleanDesc(r.block.desc) && forall e | e in r.entries :: CleanDesc(SplitLines(e.ann.desc))
  }

  lemma TrimmedHasNoNewline(line: string)
    requires '\n' !in line
    ensures '\n' !in TrimSpace(line)
  {
    hide CharClass.Has;
    var l := TrimLeft(line, Spaces);
    assert forall c | c in l :: c in line;
    assert forall c | c in TrimRight(l, Spaces) :: c in l;
  }

  lemma {:induction false} ReadDescriptionsClean(lines: seq<string>)
    requires NoNewlines(lines)
    ensures CleanReader(ReadLines(START, lines))
  {
    hide Trim;
    hide Join;
    hide CharClass.Has;
    hide TrimSpace;
    hide CommentedAssignment;
    hide BlockAdd;
    hide ReadAssignment;
    hide SplitLines;
    if |lines| > 0 {
      var n := |lines| - 1;
      var r := ReadLines(START, lines[..n]);
      ReadDescriptionsClean(lines[..n]);
      TrimmedHasNoNewline(lines[n]);
      BlockAddKeepsClean(r.block, TrimSpace(lines[n]));
      TrimmedDescLines(r.block.desc);
    }
  }

  /** For every file whatsoever: no line of any description that is read looks like an assignment. */
  lemma NoDescriptionHoldsAnAssignment(body: string)
    ensures Parse(body).Ok? ==>
              forall e | e in Parse(body).value :: forall line | line in SplitLines(e.ann.desc) :: !CommentedAssignment(line)
  {
    ReadDescriptionsClean(ScanLines(body));
  }
}
