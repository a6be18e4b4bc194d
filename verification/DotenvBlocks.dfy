/**
 Comment blocks as people write them: what ends a block, what is no part of one, and what
 reads alike.  Everything here is said about texts.
 */
module DotenvBlocks {
  import opened Wrappers
  import opened Text
  import opened DotenvComments
  import opened DotenvValues
  import opened Dotenv
  import opened DotenvRoundTrip
  import opened DotenvLines

  // ---- Readers that differ in nothing but the line number ---------------------------------

  predicate Alike(r: Reader, s: Reader) {
    r.block == s.block && r.entries == s.entries && r.error.None? && s.error.None?
  }

  lemma {:induction false} AlikeStays(r: Reader, s: Reader, lines: seq<string>)
    requires Alike(r, s)
    ensures var a, b := ReadLines(r, lines), ReadLines(s, lines);
            Alike(a, b) || (a.error.Some? && b.error.Some?)
  {
    hide TrimSpace;
    hide ReadAssignment;
    hide BlockAdd;
    hide BlockAnn;
    if |lines| > 0 {
      AlikeStays(r, s, lines[..|lines| - 1]);
    }
  }

  /** The two texts give the same entries, or are both refused. */
  ghost predicate SameEntries(a: string, b: string) {
    (Parse(a).Ok? || Parse(b).Ok?) ==> Parse(a) == Parse(b)
  }

  lemma AlikeReadsAlike(a: string, b: string, more: string)
    requires Whole(a) && Whole(b) && Alike(ReaderAfter(a), ReaderAfter(b))
    ensures SameEntries(a + more, b + more)
  {
    hide ReaderAfter;
    hide ReadLines;
    hide ScanLines;
    hide Parse;
    ReaderContinues(a, more);
    ReaderContinues(b, more);
    AlikeStays(ReaderAfter(a), ReaderAfter(b), ScanLines(more));
    ParseIsReader(a + more);
    ParseIsReader(b + more);
  }

  lemma OkReader(text: string)
    ensures Parse(text).Ok? <==> ReaderAfter(text).error.None?
  {
    hide ReadLines;
    hide ScanLines;
  }

  // ---- Blank lines ------------------------------------------------------------------------

  lemma BlankClears(r: Reader, blank: string)
    requires AllIn(blank, Spaces)
    ensures ReadLine(r, blank) == if r.error.Some? then r else r.(lineNo := r.lineNo + 1, block := EMPTY_BLOCK)
  {
    hide ReadAssignment;
    AllSpaceTrims(blank);
    hide TrimSpace;
  }

  /** A blank line cuts off what stands above it: the next assignment gets no annotation from there. */
  lemma BlankLineCutsOff(text: string, blank: string, line: string, k: string, v: string)
    requires Whole(text) && Parse(text).Ok? && AllIn(blank, Spaces) && '\n' !in blank && '\n' !in line
    requires Gives(line, k, v)
    ensures Parse(text + blank + "\n" + line + "\n") == Ok(Parse(text).value + [Entry(k, v, NO_ANN)])
  {
    hide ReadLine;
    hide ReadLines;
    hide ScanLines;
    hide Parse;
    hide TrimSpace;
    hide Gives;
    var above := text + blank + "\n";
    ReaderGoesOn(text, blank);
    BlankClears(ReaderAfter(text), blank);
    ParseIsReader(text);
    ReaderGoesOn(above, line);
    ParseIsReader(above + line + "\n");
    GivenIsRead(line, k, v);
    EmptyBlockIsNoAnn();
    ReadEntry(ReaderAfter(above), line, k, v);
  }

  /** A line that gives a pair is read as that pair by any reader. */
  lemma GivenIsRead(line: string, k: string, v: string)
    requires Gives(line, k, v) && '\n' !in line
    ensures var raw := TrimSpace(line); |raw| > 0 && raw[0] != '#' && ReadAssignment(raw) == Ok((k, v))
  {
    hide ReadAssignment;
    hide TrimSpace;
    hide ReadLine;
    hide ReaderAfter;
    hide Parse;
    EmptyTextReads();
    ReaderGoesOn("", line);
    assert "" + line == line;
    ParseIsReader(line + "\n");
    OneEntryRead(line, k, v);
  }

  lemma OneEntryRead(line: string, k: string, v: string)
    requires ReadLine(START, line).error.None? && ReadLine(START, line).entries == [Entry(k, v, NO_ANN)]
    ensures var raw := TrimSpace(line); |raw| > 0 && raw[0] != '#' && ReadAssignment(raw) == Ok((k, v))
  {
    hide ReadAssignment;
    hide TrimSpace;
    hide BlockAdd;
    hide BlockAnn;
    assert ReadLine(START, line).entries[0] == Entry(k, v, NO_ANN);
    var raw := TrimSpace(line);
    assert |raw| > 0 && raw[0] != '#' && ReadAssignment(raw).Ok?;
    var pair := ReadAssignment(raw).value;
    assert START.entries + [Entry(pair.0, pair.1, BlockAnn(START.block))] == [Entry(pair.0, pair.1, BlockAnn(START.block))];
  }

  lemma ReadEntry(r: Reader, line: string, k: string, v: string)
    requires r.error.None?
    requires var raw := TrimSpace(line); |raw| > 0 && raw[0] != '#' && ReadAssignment(raw) == Ok((k, v))
    ensures ReadLine(r, line) == Reader(r.lineNo + 1, EMPTY_BLOCK, r.entries + [Entry(k, v, BlockAnn(r.block))], None)
  {
    hide ReadAssignment;
    hide TrimSpace;
    hide BlockAnn;
  }

  /** An assignment takes the block above it: the next one gets none of it. */
  lemma AssignmentTakesBlock(text: string, line: string, k: string, v: string, next: string, k2: string, v2: string)
    requires Whole(text) && Parse(text).Ok? && '\n' !in line && '\n' !in next
    requires Gives(line, k, v) && Gives(next, k2, v2)
    ensures exists a :: Parse(text + line + "\n" + next + "\n") == Ok(Parse(text).value + [Entry(k, v, a), Entry(k2, v2, NO_ANN)])
  {
    hide ReadLine;
    hide ReadLines;
    hide ScanLines;
    hide Parse;
    hide TrimSpace;
    hide Gives;
    hide BlockAnn;
    var above := text + line + "\n";
    var r := ReaderAfter(text);
    ReaderGoesOn(text, line);
    ParseIsReader(text);
    ReaderGoesOn(above, next);
    ParseIsReader(above + next + "\n");
    GivenIsRead(line, k, v);
    GivenIsRead(next, k2, v2);
    EmptyBlockIsNoAnn();
    ReadEntry(r, line, k, v);
    ReadEntry(ReaderAfter(above), next, k2, v2);
    var a := BlockAnn(r.block);
    assert r.entries + [Entry(k, v, a)] + [Entry(k2, v2, NO_ANN)] == r.entries + [Entry(k, v, a), Entry(k2, v2, NO_ANN)];
  }

  // ---- Comment lines ------------------------------------------------------------------------

  lemma CommentIsAdded(r: Reader, line: string, raw: string)
    requires r.error.None? && TrimSpace(line) == raw && |raw| > 0 && raw[0] == '#'
    ensures ReadLine(r, line) == r.(lineNo := r.lineNo + 1, block := BlockAdd(r.block, raw))
  {
    hide TrimSpace;
    hide BlockAdd;
  }

  lemma {:induction false} CommentTrims(hashes: string, rest: string)
    requires |hashes| > 0 && AllIn(hashes, Hashes)
    ensures TrimSpace(hashes + rest) == hashes + TrimRight(rest, Spaces)
  {
    hide TrimLeft;
    hide TrimRight;
    HashIsNoSpace();
    assert hashes[0] == '#' && hashes[|hashes| - 1] == '#';
    hide CharClass.Has;
    TrimLeftStops(hashes + rest, Spaces);
    TrimRightKeeps(hashes, rest, Spaces);
  }

  /** What the block makes of a comment: how many hashes, and the text behind them. */
  lemma {:induction false} CommentParts(hashes: string, body: string)
    requires AllIn(hashes, Hashes) && (|body| > 0 ==> body[0] != '#')
    ensures TrimLeft(hashes + body, Hashes) == body
    ensures CommentBody(hashes + body) == if |body| > 0 && body[0] == ' ' then body[1..] else body
  {
    hide TrimLeft;
    OnlyHash();
    hide CharClass.Has;
    TrimLeftSkips(hashes, body, Hashes);
  }

  lemma OnlyHash()
    ensures forall c :: Hashes.Has(c) <==> c == '#'
  {
  }

  lemma BlankMakesNoDifference(b: Block, x: string)
    requires |x| > 0 && x[0] != '#' && x[0] != ' '
    ensures BlockAdd(b, "#" + x) == BlockAdd(b, "#" + (" " + x))
  {
    hide TrimLeft;
    hide TrimRight;
    hide TrimSpace;
    hide CommentedAssignment;
    OneHash();
    CommentParts("#", x);
    CommentParts("#", " " + x);
    assert (" " + x)[1..] == x;
  }

  /** A comment's line, and what a reader makes of it. */
  lemma HashIsRead(r: Reader, x: string)
    requires r.error.None?
    ensures ReadLine(r, "#" + x) == r.(lineNo := r.lineNo + 1, block := BlockAdd(r.block, "#" + TrimRight(x, Spaces)))
  {
    hide TrimRight;
    hide TrimSpace;
    hide BlockAdd;
    OneHash();
    CommentTrims("#", x);
    CommentIsAdded(r, "#" + x, "#" + TrimRight(x, Spaces));
  }

  /** The blank after the hash may be left out. */
  lemma BlankAfterHashIsOptional(text: string, x: string, more: string)
    requires Whole(text) && Parse(text).Ok? && '\n' !in x && |x| > 0 && x[0] != '#' && !Spaces.Has(x[0])
    ensures SameEntries(text + ("#" + x) + "\n" + more, text + ("#" + (" " + x)) + "\n" + more)
  {
    hide TrimRight;
    hide ReaderAfter;
    hide ReadLine;
    hide Parse;
    hide BlockAdd;
    hide SameEntries;
    NoWords();
    hide CharClass.Has;
    var r, end := ReaderAfter(text), TrimRight(x, Spaces);
    OkReader(text);
    StartStays(x);
    BlankStays(x);
    ReaderGoesOn(text, "#" + x);
    ReaderGoesOn(text, "#" + (" " + x));
    HashIsRead(r, x);
    HashIsRead(r, " " + x);
    BlankMakesNoDifference(r.block, end);
    AlikeReadsAlike(text + ("#" + x) + "\n", text + ("#" + (" " + x)) + "\n", more);
  }

  lemma OneHash()
    ensures AllIn("#", Hashes) && AllIn("##", Hashes)
  {
  }

  lemma StartStays(x: string)
    requires |x| > 0 && !Spaces.Has(x[0])
    ensures var end := TrimRight(x, Spaces); |end| > 0 && end[0] == x[0]
  {
    hide TrimRight;
    hide CharClass.Has;
    var end := TrimRight(x, Spaces);
    assert x[0..] == x;
  }

  lemma BlankStays(x: string)
    requires |TrimRight(x, Spaces)| > 0
    ensures TrimRight(" " + x, Spaces) == " " + TrimRight(x, Spaces)
  {
    TrimRightAfter(" ", x);
  }

  /** Below a note a line with one hash is no part of anything. */
  lemma SingleHashBelowNoteIsNothing(text: string, note: string, x: string, more: string)
    requires Whole(text) && Parse(text).Ok? && '\n' !in note && '\n' !in x
    requires |note| > 0 && note[0] == ' ' && |x| > 0 && x[0] == ' '
    ensures SameEntries(text + ("##" + note) + "\n" + ("#" + x) + "\n" + more, text + ("##" + note) + "\n" + more)
  {
    hide TrimLeft;
    hide TrimRight;
    hide TrimSpace;
    hide ReaderAfter;
    hide ReadLine;
    hide Parse;
    hide CommentedAssignment;
    hide SameEntries;
    hide CharClass.Has;
    OkReader(text);
    OneHash();
    var above := text + ("##" + note) + "\n";
    var r, s := ReaderAfter(text), ReaderAfter(above);
    var noteEnd, end := TrimRight(note, Spaces), TrimRight(x, Spaces);
    CommentTrims("##", note);
    CommentTrims("#", x);
    ReaderGoesOn(text, "##" + note);
    ReaderGoesOn(above, "#" + x);
    CommentIsAdded(r, "##" + note, "##" + noteEnd);
    CommentIsAdded(s, "#" + x, "#" + end);
    CommentParts("##", noteEnd);
    CommentParts("#", end);
    AlikeReadsAlike(above + ("#" + x) + "\n", above, more);
  }

  /** Lines with one hash each, and no newline in them. */
  ghost predicate SingleHashes(xs: seq<string>) {
    forall i | 0 <= i < |xs| :: '\n' !in xs[i] && (|xs[i]| > 0 ==> xs[i][0] != '#')
  }

  function Hashed(xs: seq<string>): string {
    if |xs| == 0 then "" else Hashed(xs[..|xs| - 1]) + ("#" + xs[|xs| - 1]) + "\n"
  }

  /** Such lines start no notes. */
  lemma {:induction false} HashedStartsNoNotes(text: string, xs: seq<string>)
    requires Whole(text) && Parse(text).Ok? && SingleHashes(xs)
    requires ReaderAfter(text).block == EMPTY_BLOCK
    ensures var r := ReaderAfter(text + Hashed(xs));
            && Whole(text + Hashed(xs)) && r.error.None? && r.entries == ReaderAfter(text).entries
            && !r.block.inNotes && r.block.notes == []
  {
    hide TrimLeft;
    hide TrimRight;
    hide TrimSpace;
    hide ReaderAfter;
    hide ReadLine;
    hide Parse;
    hide CommentedAssignment;
    hide CharClass.Has;
    OkReader(text);
    if |xs| == 0 {
      assert text + Hashed(xs) == text;
    } else {
      var n := |xs| - 1;
      var x := xs[n];
      HashedStartsNoNotes(text, xs[..n]);
      var above := text + Hashed(xs[..n]);
      var r := ReaderAfter(above);
      ReaderGoesOn(above, "#" + x);
      assert text + Hashed(xs) == above + ("#" + x) + "\n" by {
        Concat4(text, Hashed(xs[..n]), "#" + x, "\n");
      }
      OneHash();
      CommentTrims("#", x);
      var end := TrimRight(x, Spaces);
      CommentIsAdded(r, "#" + x, "#" + end);
      CommentParts("#", end);
    }
  }

  /** A disabled assignment ends the block: neither it nor the description above it is kept. */
  lemma DisabledAssignmentEndsBlock(text: string, xs: seq<string>, a: string, more: string)
    requires Whole(text) && Parse(text).Ok? && SingleHashes(xs)
    requires MatchesPattern(a) && '\n' !in a && a[0] != '#' && !Spaces.Has(a[|a| - 1])
    ensures SameEntries(text + "\n" + Hashed(xs) + ("#" + a) + "\n" + more, text + "\n" + more)
  {
    hide TrimLeft;
    hide TrimRight;
    hide TrimSpace;
    hide ReaderAfter;
    hide ReadLine;
    hide Parse;
    hide SameEntries;
    hide MatchesPattern;
    hide CommentedAssignment;
    OkReader(text);
    OneHash();
    hide CharClass.Has;
    var blank := text + "\n";
    ConcatAssoc(text, "", "\n");
    assert text + "" + "\n" == blank;
    ReaderGoesOn(text, "");
    BlankClears(ReaderAfter(text), "");
    OkReader(blank);
    HashedStartsNoNotes(blank, xs);
    var above := blank + Hashed(xs);
    var r := ReaderAfter(above);
    ReaderGoesOn(above, "#" + a);
    CommentTrims("#", a);
    TrimRightStops(a, Spaces);
    CommentIsAdded(r, "#" + a, "#" + a);
    CommentParts("#", a);
    DisabledBody(a);
    AlikeReadsAlike(above + ("#" + a) + "\n", blank, more);
  }

  lemma DisabledBody(a: string)
    requires MatchesPattern(a)
    ensures |a| > 0 && CommentedAssignment(a) && (a[0] == ' ' ==> CommentedAssignment(a[1..]))
  {
    RecogniserIsPattern(a);
    hide CharClass.Has;
    hide AssignsHere;
    if a[0] == ' ' {
      BlankIsPatternSpace();
      assert TrimLeft(a, PatternSpaces) == TrimLeft(a[1..], PatternSpaces);
    }
  }

  lemma BlankIsPatternSpace()
    ensures PatternSpaces.Has(' ')
  {
  }
}
