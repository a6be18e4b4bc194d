/**
 Lines that were not written in one piece.  Once a file holds one, no later write, whole or
 cut, mends it, and the verifier reports an error for good.
 */
module AuditTears {
  import opened Wrappers
  import opened AuditChain
  import opened AuditTamper
  import opened AuditFiles
  import opened AuditTail

  ghost predicate IsPieced(c: Codec, t: Text) {
    exists n: nat :: Pieced(c, t, n)
  }

  /** A line made of pieces that does not parse. */
  ghost predicate Broken(c: Codec, t: Text) {
    IsPieced(c, t) && c.parse(t) == Torn
  }

  ghost predicate AllPieced(c: Codec, raw: Text) {
    forall l | l in Split(raw) :: IsPieced(c, l)
  }

  ghost predicate HasBroken(c: Codec, raw: Text) {
    exists l :: l in Split(raw) && Broken(c, l)
  }

  lemma PiecedIsNotEmpty(c: Codec, t: Text)
    requires IsPieced(c, t)
    ensures |t| > 0
  {
    var n: nat :| Pieced(c, t, n);
  }

  /** One more piece on an unfinished line: still pieced, and broken for good. */
  lemma PieceMore(c: Codec, t: Text, e: Event, h: Hex, q: Text)
    requires Lawful(c) && IsPieced(c, t) && 0 < |q| && q <= c.marshal(e, h)
    ensures Broken(c, t + q)
  {
    var n: nat :| Pieced(c, t, n);
    PiecedIsNotEmpty(c, t);
    var all := t + q;
    assert all[..|t|] == t && all[|t|..] == q;
    assert Pieced(c, all[|t|..], 0);
    assert Pieced(c, all, n + 1);
  }

  /** An unfinished text: its finished part and its last line. */
  lemma {:induction false} UnfinishedParts(raw: Text) returns (done: Text, last: Text)
    requires !Finished(raw)
    ensures raw == done + last && Finished(done) && |last| > 0 && NEWLINE !in last
    decreases |raw|
  {
    if NEWLINE !in raw {
      done, last := [], raw;
    } else {
      var k := IndexOfNewline(raw);
      var more;
      more, last := UnfinishedParts(raw[k + 1..]);
      done := raw[..k + 1] + more;
    }
  }

  lemma {:induction false} SplitUnfinished(done: Text, last: Text)
    requires Finished(done) && |last| > 0 && NEWLINE !in last
    ensures Split(done + last) == Split(done) + [last]
    ensures Split(done + last + [NEWLINE]) == Split(done) + [last]
  {
    hide Finished;
    SplitConcat(done, last);
    SplitConcat(done, last + [NEWLINE]);
    SplitAtNewline(last, []);
    assert last + [NEWLINE] + [] == last + [NEWLINE];
    ConcatAssoc(done, last, [NEWLINE]);
    SplitNothing();
  }

  /** What an append writes is a piece of a form, or a form and its newline. */
  lemma LinePieces(c: Codec, e: Event, h: Hex, b: Text) returns (q: Text, ends: bool)
    requires Lawful(c) && b <= LineText(c, e, h)
    ensures q <= c.marshal(e, h) && NEWLINE !in q && b == (if ends then q + [NEWLINE] else q)
    ensures ends ==> q == c.marshal(e, h)
    ensures |b| > 0 ==> |q| > 0
  {
    var m := c.marshal(e, h);
    if |b| == |m| + 1 {
      q, ends := m, true;
      assert b == LineText(c, e, h)[..|b|] == m + [NEWLINE];
    } else {
      q, ends := b, false;
      assert b == LineText(c, e, h)[..|b|] == m[..|b|];
      assert forall x | x in q :: x in m;
    }
  }

  /** The append tears a line: it stops inside the form, or starts behind an unfinished line. */
  predicate Tears(c: Codec, raw: Text, e: Event, h: Hex, b: Text) {
    |b| > 0 && (|b| < |c.marshal(e, h)| || !Finished(raw))
  }

  /** Writing any part of a line keeps lines pieced and broken lines broken, and breaks one exactly when it tears. */
  lemma AppendPieces(c: Codec, raw: Text, e: Event, h: Hex, b: Text)
    requires Lawful(c) && AllPieced(c, raw) && b <= LineText(c, e, h)
    ensures AllPieced(c, raw + b)
    ensures HasBroken(c, raw + b) <==> HasBroken(c, raw) || Tears(c, raw, e, h, b)
  {
    hide Pieced;
    hide Lawful;
    if |b| == 0 {
      assert raw + b == raw;
    } else {
      var q, ends := LinePieces(c, e, h, b);
      if Finished(raw) {
        AppendToLines(c, raw, e, h, b, q, ends);
      } else {
        AppendToPiece(c, raw, e, h, b, q, ends);
      }
    }
  }

  lemma OnePiece(c: Codec, e: Event, h: Hex, q: Text)
    requires Lawful(c) && 0 < |q| && q <= c.marshal(e, h)
    ensures IsPieced(c, q) && (Broken(c, q) <==> |q| < |c.marshal(e, h)|)
  {
    PieceIsPieced(c, e, h, q);
    assert |q| == |c.marshal(e, h)| ==> q == c.marshal(e, h);
  }

  lemma AppendToLines(c: Codec, raw: Text, e: Event, h: Hex, b: Text, q: Text, ends: bool)
    requires Lawful(c) && AllPieced(c, raw) && Finished(raw)
    requires 0 < |q| && q <= c.marshal(e, h) && NEWLINE !in q && b == (if ends then q + [NEWLINE] else q)
    requires ends ==> q == c.marshal(e, h)
    ensures AllPieced(c, raw + b)
    ensures HasBroken(c, raw + b) <==> HasBroken(c, raw) || Tears(c, raw, e, h, b)
  {
    hide Split;
    hide Lawful;
    hide Broken;
    hide IsPieced;
    SplitUnfinished(raw, q);
    ConcatAssoc(raw, q, [NEWLINE]);
    assert Split(raw + b) == Split(raw) + [q];
    OnePiece(c, e, h, q);
    assert q in Split(raw + b);
    assert forall l :: l in Split(raw + b) <==> l in Split(raw) || l == q;
  }

  lemma AppendToPiece(c: Codec, raw: Text, e: Event, h: Hex, b: Text, q: Text, ends: bool)
    requires Lawful(c) && AllPieced(c, raw) && !Finished(raw)
    requires 0 < |q| && q <= c.marshal(e, h) && NEWLINE !in q && b == (if ends then q + [NEWLINE] else q)
    ensures AllPieced(c, raw + b) && HasBroken(c, raw + b)
  {
    hide Split;
    hide Lawful;
    var done, last := UnfinishedParts(raw);
    SplitUnfinished(done, last);
    var longer := last + q;
    SplitUnfinished(done, longer);
    ConcatAssoc(done, last, q);
    ConcatAssoc(raw, q, [NEWLINE]);
    assert Split(raw + b) == Split(done) + [longer];
    assert last in Split(raw);
    PieceMore(c, last, e, h, q);
    assert longer in Split(raw + b);
    forall l | l in Split(raw + b) ensures IsPieced(c, l) {
      if l in Split(done) {
        assert l in Split(raw);
      }
    }
  }

  // ---- Over a directory -----------------------------------------------------------------

  ghost predicate DirPieced(c: Codec, d: Dir) {
    WellFormed(d) && forall name :: AllPieced(c, FileText(d, name))
  }

  ghost predicate DirBroken(c: Codec, d: Dir) {
    exists name :: HasBroken(c, FileText(d, name))
  }

  lemma DirAppendPieces(c: Codec, d: Dir, name: string, e: Event, h: Hex, b: Text)
    requires Lawful(c) && DirPieced(c, d) && b <= LineText(c, e, h)
    ensures var after := WithAppended(d, name, b);
            && DirPieced(c, after)
            && (DirBroken(c, after) <==> DirBroken(c, d) || Tears(c, FileText(d, name), e, h, b))
  {
    hide AllPieced;
    hide HasBroken;
    hide Tears;
    hide Lawful;
    hide LineText;
    AppendPieces(c, FileText(d, name), e, h, b);
    var after := WithAppended(d, name, b);
    assert forall n | n != name :: FileText(after, n) == FileText(d, n);
    assert FileText(after, name) == FileText(d, name) + b;
    if DirBroken(c, d) {
      var n :| HasBroken(c, FileText(d, n));
      assert HasBroken(c, FileText(after, n));
    }
  }

  lemma {:induction false} FileLinesInLog(d: Dir, names: seq<string>, name: string, l: Text)
    requires name in names && l in Split(FileText(d, name)) && |l| > 0
    ensures l in RawOf(d, names)
  {
    hide Split;
    var n := |names| - 1;
    if name == names[n] {
      NonEmptyKeeps(Split(FileText(d, name)), l);
    } else {
      assert name in names[..n];
      FileLinesInLog(d, names[..n], name, l);
    }
  }

  lemma {:induction false} NonEmptyKeeps(lines: seq<Text>, l: Text)
    requires l in lines && |l| > 0
    ensures l in NonEmpty(lines)
  {
    if lines[0] != l {
      NonEmptyKeeps(lines[1..], l);
    }
  }

  /** With a broken line anywhere in it the log is never accepted. */
  lemma BrokenIsReported(c: Codec, seed: Seed, d: Dir)
    requires WellFormed(d) && DirBroken(c, d)
    ensures WalkOf(seed, LogOf(c, d)).badIndex >= 0
  {
    hide Split;
    hide Pieced;
    var name :| HasBroken(c, FileText(d, name));
    var l :| l in Split(FileText(d, name)) && Broken(c, l);
    PiecedIsNotEmpty(c, l);
    SplitNothing();
    assert name in d.names;
    SameNames(d.names);
    FileLinesInLog(d, SortNames(d.names), name, l);
    var raw := RawLines(d);
    var i: nat :| i < |raw| && raw[i] == l;
    TornIsReported(seed, LogOf(c, d), i);
  }

  lemma TornIsReported(seed: Seed, lines: seq<Line>, i: nat)
    requires i < |lines| && lines[i].Torn?
    ensures WalkOf(seed, lines).badIndex >= 0
  {
    var stop := StopIndex(seed, Acks(lines), lines, 0);
    assert stop == |lines| ==> Readable(lines[i]);
  }
}
