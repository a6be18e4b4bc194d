/**
 Reading the log back: the events with their chain positions, what a half-written
 last line does to every reader, and what a later append does to it.
 */
module AuditTail {
  import opened Wrappers
  import opened AuditChain
  import opened AuditTamper
  import opened AuditRuns
  import opened AuditFiles

  /** An event as `Tail` returns it, tagged with its position. */
  datatype Rec = Rec(index: nat, event: Event, head: Hex)

  // ---- What Tail computes -------------------------------------------------------

  /** The rest of one file, from line k on; an unreadable line is an error unless it is the last of the newest file. */
  function ReadFrom(c: Codec, lines: seq<Text>, current: bool, k: nat, all: seq<Rec>): Option<seq<Rec>>
    requires k <= |lines|
    decreases |lines| - k
  {
    if k == |lines| then Some(all)
    else if |lines[k]| == 0 then ReadFrom(c, lines, current, k + 1, all)
    else
      match c.parse(lines[k])
      case Torn => if current && k == |lines| - 1 then ReadFrom(c, lines, current, k + 1, all) else None
      case Entry(e, h) => ReadFrom(c, lines, current, k + 1, all + [Rec(|all|, e, h)])
  }

  function ReadFilesFrom(c: Codec, d: Dir, names: seq<string>, f: nat, all: seq<Rec>): Option<seq<Rec>>
    requires f <= |names|
    decreases |names| - f
  {
    if f == |names| then Some(all)
    else
      match ReadFrom(c, Split(FileText(d, names[f])), f == |names| - 1, 0, all)
      case None => None
      case Some(more) => ReadFilesFrom(c, d, names, f + 1, more)
  }

  function ReadAll(c: Codec, d: Dir): Option<seq<Rec>> {
    ReadFilesFrom(c, d, SortNames(d.names), 0, [])
  }

  function Matching(all: seq<Rec>, wanted: Event -> bool): seq<Rec> {
    if |all| == 0 then []
    else
      var n := |all| - 1;
      Matching(all[..n], wanted) + (if wanted(all[n].event) then [all[n]] else [])
  }

  /** The newest n of the matching events, all of them when n <= 0. */
  function LastOf(all: seq<Rec>, n: int): seq<Rec> {
    if 0 < n < |all| then all[|all| - n..] else all
  }

  // ---- Tail against the verifier's numbering ---------------------------------------

  /** The entries of a log, each tagged with its position, counting from base. */
  function Tagged(lines: seq<Line>, base: nat): (r: seq<Rec>)
    requires forall l | l in lines :: l.Entry?
  {
    seq(|lines|, i requires 0 <= i < |lines| => assert lines[i] in lines; Rec(base + i, lines[i].event, lines[i].head))
  }

  ghost predicate AllParse(c: Codec, raw: seq<Text>) {
    forall i | 0 <= i < |raw| :: c.parse(raw[i]).Entry?
  }

  /** The tagged entries of some raw lines that all parse. */
  ghost function TaggedRaw(c: Codec, raw: seq<Text>, base: nat): (r: seq<Rec>)
    requires AllParse(c, raw)
    ensures |r| == |raw|
    ensures forall i | 0 <= i < |raw| :: r[i] == Rec(base + i, c.parse(raw[i]).event, c.parse(raw[i]).head)
  {
    seq(|raw|, i requires 0 <= i < |raw| => Rec(base + i, c.parse(raw[i]).event, c.parse(raw[i]).head))
  }

  lemma TaggedRawConcat(c: Codec, a: seq<Text>, b: seq<Text>, all: seq<Rec>)
    requires AllParse(c, a + b)
    ensures AllParse(c, a) && AllParse(c, b)
    ensures all + TaggedRaw(c, a + b, |all|)
         == (all + TaggedRaw(c, a, |all|)) + TaggedRaw(c, b, |all + TaggedRaw(c, a, |all|)|)
  {
    assert forall i | 0 <= i < |a| :: (a + b)[i] == a[i];
    assert forall i | 0 <= i < |b| :: (a + b)[|a| + i] == b[i];
  }

  /** Lines that parse are read into their tagged entries. */
  lemma {:induction false} ReadFromParses(c: Codec, lines: seq<Text>, current: bool, k: nat, n: nat, all: seq<Rec>)
    requires k <= n <= |lines| && AllParse(c, NonEmpty(lines[k..n]))
    ensures ReadFrom(c, lines, current, k, all)
         == ReadFrom(c, lines, current, n, all + TaggedRaw(c, NonEmpty(lines[k..n]), |all|))
    decreases n - k
  {
    if k == n {
      assert lines[k..n] == [];
      assert all + TaggedRaw(c, [], |all|) == all;
    } else {
      assert lines[k..n][1..] == lines[k + 1..n];
      var rest := NonEmpty(lines[k + 1..n]);
      if |lines[k]| == 0 {
        assert NonEmpty(lines[k..n]) == rest;
        ReadFromParses(c, lines, current, k + 1, n, all);
      } else {
        assert NonEmpty(lines[k..n]) == [lines[k]] + rest;
        TaggedRawConcat(c, [lines[k]], rest, all);
        assert c.parse([lines[k]][0]).Entry?;
        assert TaggedRaw(c, [lines[k]], |all|) == [Rec(|all|, c.parse(lines[k]).event, c.parse(lines[k]).head)];
        ReadFromParses(c, lines, current, k + 1, n, all + TaggedRaw(c, [lines[k]], |all|));
      }
    }
  }

  lemma {:induction false} RawOfConcat(d: Dir, a: seq<string>, b: seq<string>)
    ensures RawOf(d, a + b) == RawOf(d, a) + RawOf(d, b)
  {
    if |b| == 0 {
      assert a + b == a;
    } else {
      var n := |b| - 1;
      assert (a + b)[..|a + b| - 1] == a + b[..n];
      RawOfConcat(d, a, b[..n]);
      ConcatAssoc(RawOf(d, a), RawOf(d, b[..n]), NonEmpty(Split(FileText(d, b[n]))));
    }
  }

  lemma RawOfFirst(d: Dir, names: seq<string>)
    requires |names| > 0
    ensures RawOf(d, names) == NonEmpty(Split(FileText(d, names[0]))) + RawOf(d, names[1..])
  {
    assert names == [names[0]] + names[1..];
    RawOfConcat(d, [names[0]], names[1..]);
    RawOfOneMore(d, [], names[0]);
    assert [] + [names[0]] == [names[0]];
  }

  /** Files that parse throughout are read into their tagged entries. */
  lemma {:induction false} ReadFilesParse(c: Codec, d: Dir, names: seq<string>, f: nat, g: nat, all: seq<Rec>)
    requires f <= g <= |names| && AllParse(c, RawOf(d, names[f..g]))
    ensures ReadFilesFrom(c, d, names, f, all)
         == ReadFilesFrom(c, d, names, g, all + TaggedRaw(c, RawOf(d, names[f..g]), |all|))
    decreases g - f
  {
    if f < g {
      var lines := Split(FileText(d, names[f]));
      var here, rest := NonEmpty(lines), RawOf(d, names[f + 1..g]);
      RawOfFirst(d, names[f..g]);
      assert names[f..g][1..] == names[f + 1..g];
      TaggedRawConcat(c, here, rest, all);
      assert lines[0..|lines|] == lines;
      ReadFromParses(c, lines, f == |names| - 1, 0, |lines|, all);
      ReadFilesParse(c, d, names, f + 1, g, all + TaggedRaw(c, here, |all|));
    } else {
      assert names[f..g] == [];
      assert all + TaggedRaw(c, [], |all|) == all;
    }
  }

  lemma EntriesParse(c: Codec, d: Dir)
    requires forall l | l in LogOf(c, d) :: l.Entry?
    ensures AllParse(c, RawLines(d))
    ensures TaggedRaw(c, RawLines(d), 0) == Tagged(LogOf(c, d), 0)
  {
    var raw, lines := RawLines(d), LogOf(c, d);
    forall i | 0 <= i < |raw| ensures c.parse(raw[i]).Entry? {
      assert lines[i] in lines;
    }
  }

  /** When every line parses, Tail's numbering is the verifier's: event i of the log has index i. */
  lemma TailNumbersLikeWalk(c: Codec, d: Dir)
    requires forall l | l in LogOf(c, d) :: l.Entry?
    ensures ReadAll(c, d) == Some(Tagged(LogOf(c, d), 0))
  {
    var names := SortNames(d.names);
    assert names[0..|names|] == names;
    EntriesParse(c, d);
    ReadFilesParse(c, d, names, 0, |names|, []);
    assert [] + TaggedRaw(c, RawLines(d), 0) == TaggedRaw(c, RawLines(d), 0);
  }

  /** Indices in order, each event matching, none skipped. */
  lemma {:induction false} MatchingIsExact(all: seq<Rec>, wanted: Event -> bool)
    requires forall i | 0 <= i < |all| :: all[i].index == i
    ensures var m := Matching(all, wanted);
            && (forall i, j | 0 <= i < j < |m| :: m[i].index < m[j].index)
            && (forall r :: r in m <==> r in all && wanted(r.event))
  {
    if |all| > 0 {
      var n := |all| - 1;
      MatchingIsExact(all[..n], wanted);
      assert all == all[..n] + [all[n]];
      var m := Matching(all[..n], wanted);
      forall i | 0 <= i < |m| ensures m[i].index < n {
        assert m[i] in all[..n];
      }
    }
  }

  /** The window is the newest n matching events: nothing matching after its first event is missing from it. */
  lemma {:induction false} WindowIsNewestMatching(all: seq<Rec>, wanted: Event -> bool, n: int)
    requires forall i | 0 <= i < |all| :: all[i].index == i
    ensures var m := Matching(all, wanted);
            var w := LastOf(m, n);
            && |w| == (if 0 < n < |m| then n else |m|)
            && (forall i, j | 0 <= i < j < |w| :: w[i].index < w[j].index)
            && (forall r | r in w :: r in all && wanted(r.event))
            && (forall r | r in all && wanted(r.event) && |w| > 0 && w[0].index <= r.index :: r in w)
  {
    MatchingIsExact(all, wanted);
    SuffixIsNewest(Matching(all, wanted), n);
  }

  lemma SuffixIsNewest(m: seq<Rec>, n: int)
    requires forall i, j | 0 <= i < j < |m| :: m[i].index < m[j].index
    ensures var w := LastOf(m, n);
            && |w| == (if 0 < n < |m| then n else |m|)
            && (forall i, j | 0 <= i < j < |w| :: w[i].index < w[j].index)
            && (forall r | r in w :: r in m)
            && (forall r | r in m && |w| > 0 && w[0].index <= r.index :: r in w)
  {
    var w := LastOf(m, n);
    var start := |m| - |w|;
    assert w == m[start..];
    forall i, j | 0 <= i < j < |w| ensures w[i].index < w[j].index {
      assert w[i] == m[start + i] && w[j] == m[start + j];
    }
    forall r | r in m && |w| > 0 && w[0].index <= r.index ensures r in w {
      SuffixHolds(m, start, r);
    }
  }

  lemma SuffixHolds(m: seq<Rec>, start: nat, r: Rec)
    requires forall i, j | 0 <= i < j < |m| :: m[i].index < m[j].index
    requires start < |m| && r in m && m[start].index <= r.index
    ensures r in m[start..]
  {
    var k :| 0 <= k < |m| && m[k] == r;
    assert k >= start;
    assert m[start..][k - start] == r;
  }

  // ---- When Tail fails --------------------------------------------------------------

  /** Line k of a file stops Tail: it has text that does not parse, and is not the newest file's last. */
  predicate Stops(c: Codec, lines: seq<Text>, current: bool, k: nat)
    requires k < |lines|
  {
    |lines[k]| > 0 && c.parse(lines[k]).Torn? && !(current && k == |lines| - 1)
  }

  ghost predicate StopsFrom(c: Codec, lines: seq<Text>, current: bool, k: nat) {
    exists j: nat :: k <= j < |lines| && Stops(c, lines, current, j)
  }

  lemma {:induction false} ReadFromFailsExactlyWhen(c: Codec, lines: seq<Text>, current: bool, k: nat, all: seq<Rec>)
    requires k <= |lines|
    ensures ReadFrom(c, lines, current, k, all).None? <==> StopsFrom(c, lines, current, k)
    decreases |lines| - k
  {
    if k < |lines| && Stops(c, lines, current, k) {
      assert StopsFrom(c, lines, current, k);
    } else if k < |lines| {
      var more := if |lines[k]| > 0 && c.parse(lines[k]).Entry?
                  then all + [Rec(|all|, c.parse(lines[k]).event, c.parse(lines[k]).head)] else all;
      ReadFromFailsExactlyWhen(c, lines, current, k + 1, more);
    }
  }

  /** Some line of a file, from the one named on, stops Tail. */
  ghost predicate FileStops(c: Codec, d: Dir, names: seq<string>, from: nat) {
    exists f: nat :: from <= f < |names| && StopsFrom(c, Split(FileText(d, names[f])), f == |names| - 1, 0)
  }

  lemma {:induction false} ReadFilesFailExactlyWhen(c: Codec, d: Dir, names: seq<string>, f: nat, all: seq<Rec>)
    requires f <= |names|
    ensures ReadFilesFrom(c, d, names, f, all).None? <==> FileStops(c, d, names, f)
    decreases |names| - f
  {
    hide Split;
    hide StopsFrom;
    hide ReadFrom;
    if f < |names| {
      var lines, current := Split(FileText(d, names[f])), f == |names| - 1;
      ReadFromFailsExactlyWhen(c, lines, current, 0, all);
      var read := ReadFrom(c, lines, current, 0, all);
      if read.Some? {
        ReadFilesFailExactlyWhen(c, d, names, f + 1, read.value);
      } else {
        assert StopsFrom(c, Split(FileText(d, names[f])), f == |names| - 1, 0);
      }
    }
  }

  /** Tail fails exactly when some non-empty line does not parse and is not the last line of the newest file. */
  lemma TailFailsExactlyWhen(c: Codec, d: Dir)
    ensures ReadAll(c, d).None? <==> FileStops(c, d, SortNames(d.names), 0)
  {
    ReadFilesFailExactlyWhen(c, d, SortNames(d.names), 0, []);
  }

  /** A line that does not parse stands in a file that is not the newest. */
  ghost predicate TornInOlder(c: Codec, d: Dir, name: string, later: string) {
    && WellFormed(d) && name in d.names && later in d.names && StrLe(name, later) && name != later
    && StopsFrom(c, Split(FileText(d, name)), false, 0)
  }

  lemma TornInOlderFails(c: Codec, d: Dir, name: string, later: string)
    requires TornInOlder(c, d, name, later)
    ensures ReadAll(c, d).None?
  {
    hide StrLe;
    hide Split;
    hide SortNames;
    SameNames(d.names);
    var names := SortNames(d.names);
    var f: nat :| f < |names| && names[f] == name;
    var g: nat :| g < |names| && names[g] == later;
    if f == |names| - 1 {
      assert g < f ==> StrLe(names[g], names[f]);
      StrLeTotal(name, later);
    }
    assert StopsFrom(c, Split(FileText(d, names[f])), f == |names| - 1, 0);
    TailFailsExactlyWhen(c, d);
  }

  /** Then Tail fails for good: whatever is appended while the month goes forward. */
  lemma TornInOlderStays(c: Codec, d: Dir, name: string, later: string, month: string, bytes: Text)
    requires TornInOlder(c, d, name, later) && Newest(d, month)
    ensures TornInOlder(c, WithAppended(d, month, bytes), name, later)
    ensures ReadAll(c, WithAppended(d, month, bytes)).None?
  {
    hide StrLe;
    hide Split;
    hide ReadAll;
    var older := AppendToNewest(d, month, bytes);
    if name == month {
      StrLeTotal(name, later);
    }
    assert FileText(WithAppended(d, month, bytes), name) == FileText(d, name);
    TornInOlderFails(c, WithAppended(d, month, bytes), name, later);
  }

  // ---- A write cut short --------------------------------------------------------

  /** The bytes one append writes. */
  function LineText(c: Codec, e: Event, h: Hex): Text {
    c.marshal(e, h) + [NEWLINE]
  }

  /** A piece that stops before the newline is a piece of the JSON. */
  lemma PieceOfJson(c: Codec, e: Event, h: Hex, p: Text)
    requires Lawful(c) && p <= LineText(c, e, h) && 0 < |p| <= |c.marshal(e, h)|
    ensures p <= c.marshal(e, h) && Split(p) == [p]
    ensures c.parse(p) == if |p| < |c.marshal(e, h)| then Torn else Entry(e, h)
  {
    var m := c.marshal(e, h);
    assert p == LineText(c, e, h)[..|p|] == m[..|p|];
    assert forall b | b in p :: b in m;
    assert |p| == |m| ==> p == m;
  }

  /** A piece of a line, cut anywhere, is no line, a torn line, or the whole line. */
  lemma {:induction false} PieceOfLine(c: Codec, e: Event, h: Hex, p: Text)
    requires Lawful(c) && p <= LineText(c, e, h)
    ensures ParseAll(c, NonEmpty(Split(p))) ==
            if |p| == 0 then [] else if CutInside(c, e, h, p) then [Torn] else [Entry(e, h)]
  {
    var m := c.marshal(e, h);
    if 0 < |p| <= |m| {
      PieceOfJson(c, e, h, p);
      assert NonEmpty([p]) == [p];
    } else if |p| > |m| {
      assert p == m + [NEWLINE] + [];
      SplitAtNewline(m, []);
      assert NonEmpty([m]) == [m];
    }
  }

  /** A cut is inside the JSON, or the JSON is complete. */
  predicate CutInside(c: Codec, e: Event, h: Hex, p: Text) {
    |p| < |c.marshal(e, h)|
  }

  lemma LogAppend(c: Codec, d: Dir, month: string, bytes: Text)
    requires WellFormed(d) && Newest(d, month) && Finished(FileText(d, month))
    ensures LogOf(c, WithAppended(d, month, bytes)) == LogOf(c, d) + ParseAll(c, NonEmpty(Split(bytes)))
  {
    hide RawLines;
    hide Split;
    hide WithAppended;
    hide WellFormed;
    hide Newest;
    hide Finished;
    AppendToFinished(d, month, bytes);
    ParseAllConcat(c, RawLines(d), NonEmpty(Split(bytes)));
  }

  lemma ParseAllConcat(c: Codec, a: seq<Text>, b: seq<Text>)
    ensures ParseAll(c, a + b) == ParseAll(c, a) + ParseAll(c, b)
  {
  }

  /**
   Whatever part p of a line reaches the newest file, the log gains nothing, one
   torn line, or the event; and start-up adopts the new head exactly when the
   JSON is complete, newline or not.
   */
  lemma CutWriteIsHandled(c: Codec, d: Dir, month: string, e: Event, h: Hex, p: Text)
    requires Lawful(c) && WellFormed(d) && Newest(d, month) && Finished(FileText(d, month))
    requires p <= LineText(c, e, h) && h.Head?
    ensures LogOf(c, WithAppended(d, month, p)) == LogOf(c, d) +
              (if |p| == 0 then [] else if CutInside(c, e, h, p) then [Torn] else [Entry(e, h)])
    ensures DiskHead(LogOf(c, WithAppended(d, month, p))) ==
              if CutInside(c, e, h, p) then DiskHead(LogOf(c, d)) else Some(h)
  {
    hide Lawful;
    hide RawLines;
    hide Split;
    hide WithAppended;
    LogAppend(c, d, month, p);
    PieceOfLine(c, e, h, p);
    FormIsNonEmpty(c, e, h);
    var before := LogOf(c, d);
    assert before + [] == before;
    assert (before + [Torn])[..|before|] == before;
    assert |p| == 0 ==> CutInside(c, e, h, p);
  }

  /** After a cut the verifier stops at the torn line, and only there. */
  lemma CutWriteIsReported(c: Codec, d: Dir, month: string, seed: Seed, e: Event, h: Hex, p: Text)
    requires Lawful(c) && WellFormed(d) && Newest(d, month) && Finished(FileText(d, month))
    requires p <= LineText(c, e, h) && 0 < |p| && CutInside(c, e, h, p) && h.Head?
    requires Intact(seed, LogOf(c, d))
    ensures var n := |LogOf(c, d)|;
            WalkOf(seed, LogOf(c, WithAppended(d, month, p))) == Walk(n, n, 0, Empty, Empty, TornLine)
  {
    CutWriteIsHandled(c, d, month, e, h, p);
    TornAfterIntact(seed, LogOf(c, d));
  }

  lemma TornAfterIntact(seed: Seed, lines: seq<Line>)
    requires Intact(seed, lines)
    ensures WalkOf(seed, lines + [Torn]) == Walk(|lines|, |lines|, 0, Empty, Empty, TornLine)
  {
    var torn := lines + [Torn];
    assert torn[..|lines|] == lines[..|lines|];
    AgreeingPrefixVerifies(seed, lines, torn, |lines|);
    assert !Readable(torn[|lines|]);
    ReportedAt(seed, torn, |lines|);
    NoBreaksMeansVerified(seed, torn, |lines|);
  }

  /** Tail returns exactly the complete events, wherever the last write was cut. */
  lemma TailReturnsCompleteEvents(c: Codec, d: Dir, month: string, e: Event, h: Hex, p: Text)
    requires Lawful(c) && WellFormed(d) && Newest(d, month) && Finished(FileText(d, month))
    requires p <= LineText(c, e, h) && h.Head?
    requires forall l | l in LogOf(c, d) :: l.Entry?
    ensures forall l | l in LogOf(c, d) + [Entry(e, h)] :: l.Entry?
    ensures ReadAll(c, WithAppended(d, month, p)) ==
              Some(Tagged(if CutInside(c, e, h, p) then LogOf(c, d) else LogOf(c, d) + [Entry(e, h)], 0))
  {
    CutWriteIsHandled(c, d, month, e, h, p);
    var d2 := WithAppended(d, month, p);
    if 0 < |p| && CutInside(c, e, h, p) {
      TailSkipsTornLast(c, d, month, e, h, p);
    } else {
      assert LogOf(c, d) + [] == LogOf(c, d);
      assert LogOf(c, d2) == if CutInside(c, e, h, p) then LogOf(c, d) else LogOf(c, d) + [Entry(e, h)] by {
        FormIsNonEmpty(c, e, h);
      }
      TailNumbersLikeWalk(c, d2);
    }
  }

  lemma FormIsNonEmpty(c: Codec, e: Event, h: Hex)
    requires Lawful(c)
    ensures |c.marshal(e, h)| > 0
  {
  }

  lemma TailSkipsTornLast(c: Codec, d: Dir, month: string, e: Event, h: Hex, p: Text)
    requires Lawful(c) && WellFormed(d) && Newest(d, month) && Finished(FileText(d, month))
    requires p <= LineText(c, e, h) && 0 < |p| && CutInside(c, e, h, p)
    requires forall l | l in LogOf(c, d) :: l.Entry?
    ensures ReadAll(c, WithAppended(d, month, p)) == Some(Tagged(LogOf(c, d), 0))
  {
    var d2 := WithAppended(d, month, p);
    var older := NewestSortsLast(d, month);
    PieceOfJson(c, e, h, p);
    SplitConcat(FileText(d, month), p);
    NewestFileLast(d, month, older);
    RawOfUnchanged(d, d2, older);
    EntriesParse(c, d);
    ReadTornNewest(c, d2, older, month, Split(FileText(d, month)), p);
  }

  /** Files that parse, but for a torn last line in the newest one. */
  lemma ReadTornNewest(c: Codec, d: Dir, older: seq<string>, month: string, finished: seq<Text>, p: Text)
    requires Split(FileText(d, month)) == finished + [p] && |p| > 0 && c.parse(p).Torn?
    requires AllParse(c, RawOf(d, older) + NonEmpty(finished))
    ensures ReadFilesFrom(c, d, older + [month], 0, []) == Some(TaggedRaw(c, RawOf(d, older) + NonEmpty(finished), 0))
  {
    var names, lines := older + [month], finished + [p];
    var before := RawOf(d, older);
    var all := TaggedRaw(c, before + NonEmpty(finished), 0);
    TaggedRawConcat(c, before, NonEmpty(finished), []);
    assert [] + all == all && [] + TaggedRaw(c, before, 0) == TaggedRaw(c, before, 0);
    assert names[0..|older|] == older && names[|older|] == month;
    ReadFilesParse(c, d, names, 0, |older|, []);
    assert lines[0..|finished|] == finished;
    ReadFromParses(c, lines, true, 0, |finished|, TaggedRaw(c, before, 0));
  }

  lemma NewestFileLast(d: Dir, month: string, older: seq<string>)
    requires SortNames(d.names) == (if month in d.names then older + [month] else older)
    requires WellFormed(d)
    ensures RawLines(d) == RawOf(d, older) + NonEmpty(Split(FileText(d, month)))
  {
    if month in d.names {
      RawOfOneMore(d, older, month);
    } else {
      assert FileText(d, month) == [];
      assert RawOf(d, older) + [] == RawOf(d, older);
    }
  }

  // ---- Appending after a cut -----------------------------------------------------

  /**
   The next append to the same file is read back exactly when the cut left nothing
   behind: otherwise it is glued to the fragment, complete or not, and both are lost.
   */
  lemma AppendAfterCut(c: Codec, d: Dir, month: string, e: Event, h: Hex, p: Text, e2: Event, h2: Hex)
    requires Lawful(c) && WellFormed(d) && Newest(d, month) && Finished(FileText(d, month))
    requires p <= c.marshal(e, h)
    ensures var after := LogOf(c, WithAppended(WithAppended(d, month, p), month, LineText(c, e2, h2)));
            && after == LogOf(c, d) + (if |p| == 0 then [Entry(e2, h2)] else [Torn])
            && (after == LogOf(c, d) + [Entry(e2, h2)] <==> |p| == 0)
  {
    hide Split;
    hide SortNames;
    hide RawOf;
    var joined := p + LineText(c, e2, h2);
    var line := p + c.marshal(e2, h2);
    AppendTwice(d, month, p, LineText(c, e2, h2));
    LogAppend(c, d, month, joined);
    GluedLine(c, e, h, p, e2, h2);
    assert NonEmpty([line]) == [line];
    assert |p| == 0 ==> line == c.marshal(e2, h2);
    var after := LogOf(c, WithAppended(d, month, joined));
    assert after == LogOf(c, d) + [c.parse(line)] && after[|LogOf(c, d)|] == c.parse(line);
  }

  lemma AppendTwice(d: Dir, month: string, a: Text, b: Text)
    requires WellFormed(d)
    ensures WithAppended(WithAppended(d, month, a), month, b) == WithAppended(d, month, a + b)
  {
    ConcatAssoc(FileText(d, month), a, b);
    assert d.files[month := FileText(d, month) + a][month := FileText(d, month) + a + b]
        == d.files[month := FileText(d, month) + (a + b)];
  }

  lemma PieceIsPieced(c: Codec, e: Event, h: Hex, p: Text)
    requires 0 < |p| && p <= c.marshal(e, h)
    ensures Pieced(c, p, 0)
  {
  }

  lemma PiecesAreTorn(c: Codec, t: Text)
    requires Lawful(c) && Pieced(c, t, 1)
    ensures c.parse(t) == Torn
  {
  }

  lemma GluedIsPieced(c: Codec, e: Event, h: Hex, p: Text, e2: Event, h2: Hex)
    requires Lawful(c) && 0 < |p| && p <= c.marshal(e, h)
    ensures Pieced(c, p + c.marshal(e2, h2), 1) && c.parse(p + c.marshal(e2, h2)) == Torn
  {
    hide Lawful;
    var line := p + c.marshal(e2, h2);
    FormIsNonEmpty(c, e2, h2);
    PieceIsPieced(c, e, h, p);
    PieceIsPieced(c, e2, h2, c.marshal(e2, h2));
    assert line[..|p|] == p && line[|p|..] == c.marshal(e2, h2);
    PiecesAreTorn(c, line);
  }

  lemma GluedLine(c: Codec, e: Event, h: Hex, p: Text, e2: Event, h2: Hex)
    requires Lawful(c) && p <= c.marshal(e, h)
    ensures Split(p + LineText(c, e2, h2)) == [p + c.marshal(e2, h2)]
    ensures |p| > 0 ==> c.parse(p + c.marshal(e2, h2)) == Torn
  {
    hide Split;
    hide Lawful;
    hide Pieced;
    var line := p + c.marshal(e2, h2);
    FormIsOneLine(c, e, h);
    FormIsOneLine(c, e2, h2);
    assert forall b | b in p :: b in c.marshal(e, h);
    if |p| > 0 {
      GluedIsPieced(c, e, h, p, e2, h2);
    }
    assert p + LineText(c, e2, h2) == line + [NEWLINE] + [];
    SplitAtNewline(line, []);
    SplitNothing();
  }

  lemma FormIsOneLine(c: Codec, e: Event, h: Hex)
    requires Lawful(c)
    ensures NEWLINE !in c.marshal(e, h)
  {
  }

  /** Such a log has lost an append that reported success, and no later append makes the verifier pass again. */
  lemma GluedLogNeverVerifies(seed: Seed, lines: seq<Line>, more: seq<Line>)
    requires Intact(seed, lines)
    ensures WalkOf(seed, lines + [Torn] + more) == Walk(|lines|, |lines|, 0, Empty, Empty, TornLine)
  {
    var torn := lines + [Torn] + more;
    assert torn[..|lines|] == lines[..|lines|];
    AgreeingPrefixVerifies(seed, lines, torn, |lines|);
    assert !Readable(torn[|lines|]);
    ReportedAt(seed, torn, |lines|);
    NoBreaksMeansVerified(seed, torn, |lines|);
  }


}
