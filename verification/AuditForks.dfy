/**
 What can be passed off as the log without the seed when the log it was has breaks: its
 lines link back to one another as a tree, and every path from the root is accepted.
 */
module AuditForks {
  import opened Wrappers
  import opened AuditChain
  import opened AuditTamper
  import opened AuditRuns

  /** The line carries a MAC of its own event, over whatever it was linked to. */
  predicate Signed(seed: Seed, l: Line) {
    l.Entry? && l.head.Head? && l.head.digest.Mac? && l.head.digest.seed == seed && l.head.digest.event == l.event
  }

  ghost predicate AllSigned(seed: Seed, lines: seq<Line>) {
    forall i | 0 <= i < |lines| :: Signed(seed, lines[i])
  }

  /** Line k is one of the issued lines, standing right after the line it was linked to. */
  ghost predicate Linked(seed: Seed, issued: seq<Line>, lines: seq<Line>, k: nat)
    requires k < |lines| && (k > 0 ==> Readable(lines[k - 1]))
  {
    lines[k] in issued && Signed(seed, lines[k]) && lines[k].head.digest.prev == PrevAt(lines, k)
  }

  /** Without the seed a line verifies exactly when it is an issued one in a place it was issued for. */
  lemma VerifiesExactlyWhenLinked(seed: Seed, issued: seq<Line>, lines: seq<Line>, k: nat)
    requires AllSigned(seed, issued) && OnlyReuses(seed, issued, lines)
    requires AllReadable(lines) && k < |lines|
    ensures VerifiesAt(seed, lines, k) <==> Linked(seed, issued, lines, k)
  {
    hide PrevAt;
    if VerifiesAt(seed, lines, k) {
      var j :| 0 <= j < |issued| && RecordedHead(issued[j]) == lines[k].head;
      assert Signed(seed, issued[j]);
      assert issued[j] == lines[k];
    }
  }

  /**
   Whatever the log was, with forks and acknowledged breaks: without the seed another is
   accepted exactly when each line is linked or acknowledged by a marker.
   */
  lemma AcceptedExactlyWhenLinkedOrAcked(seed: Seed, issued: seq<Line>, lines: seq<Line>)
    requires AllSigned(seed, issued) && OnlyReuses(seed, issued, lines)
    ensures WalkOf(seed, lines).badIndex == -1 <==>
            && AllReadable(lines)
            && forall k: nat | k < |lines| :: Linked(seed, issued, lines, k) || AckedAt(seed, Acks(lines), lines, k)
  {
    hide Acks;
    hide BreaksBefore;
    hide Linked;
    hide VerifiesAt;
    hide AckedAt;
    hide OnlyReuses;
    var stop := StopIndex(seed, Acks(lines), lines, 0);
    if WalkOf(seed, lines).badIndex == -1 {
      assert stop == |lines| && AllReadable(lines);
      forall k: nat | k < |lines| ensures Linked(seed, issued, lines, k) || AckedAt(seed, Acks(lines), lines, k) {
        assert PassesAt(seed, Acks(lines), lines, k);
        VerifiesExactlyWhenLinked(seed, issued, lines, k);
      }
    } else if AllReadable(lines) {
      VerifiesExactlyWhenLinked(seed, issued, lines, stop);
    }
  }

  /** And each acknowledged line leads, marker to marker, to an issued marker line in its place. */
  lemma AckedLeadsToIssuedMarker(seed: Seed, issued: seq<Line>, lines: seq<Line>, k: nat) returns (j: nat)
    requires AllSigned(seed, issued) && OnlyReuses(seed, issued, lines)
    requires WalkOf(seed, lines).badIndex == -1 && k < |lines|
    ensures AllReadable(lines) && j < |lines| && Linked(seed, issued, lines, j)
    ensures Linked(seed, issued, lines, k) ==> j == k
    ensures !Linked(seed, issued, lines, k) ==> IsMarker(lines[j]) && lines[j] in issued
  {
    hide WalkOf;
    hide Acknowledges;
    var path := BridgeSoundness(seed, lines, k);
    j := path[|path| - 1];
    VerifiesExactlyWhenLinked(seed, issued, lines, k);
    VerifiesExactlyWhenLinked(seed, issued, lines, j);
  }

  /** The log is a path in the tree the issued lines form. */
  ghost predicate IsPath(seed: Seed, issued: seq<Line>, lines: seq<Line>) {
    AllReadable(lines) && forall k: nat | k < |lines| :: Linked(seed, issued, lines, k)
  }

  /** Of a log without markers, forked or not, exactly the paths from the root can be passed off as the log. */
  lemma OnlyPathsAreAccepted(seed: Seed, issued: seq<Line>, lines: seq<Line>)
    requires AllSigned(seed, issued) && MarkerFree(issued) && OnlyReuses(seed, issued, lines)
    ensures WalkOf(seed, lines).badIndex == -1 <==> IsPath(seed, issued, lines)
  {
    hide WalkOf;
    hide VerifiesAt;
    hide AckedAt;
    hide Linked;
    hide OnlyReuses;
    hide Acks;
    AcceptedExactlyWhenLinkedOrAcked(seed, issued, lines);
    if WalkOf(seed, lines).badIndex == -1 {
      forall k: nat | k < |lines| ensures Linked(seed, issued, lines, k) {
        var j := AckedLeadsToIssuedMarker(seed, issued, lines, k);
      }
    }
  }

  /** What any run writes is signed, so this is so of every run's log. */
  lemma {:induction false} RunLinesAreSigned(seed: Seed, steps: seq<Step>)
    ensures AllSigned(seed, Run(seed, steps).lines)
  {
    hide WalkOf;
    if |steps| > 0 {
      RunLinesAreSigned(seed, steps[..|steps| - 1]);
    }
  }

  /** Of a log that forked, lines can be left out unnoticed: here the one whose head update was lost. */
  lemma DeletionBehindForkIsUnseen(seed: Seed, e: Event, f: Event, g: Event)
    ensures var steps := [Start(true), Append(e, Complete), Append(f, HeadNotStored), Append(g, Complete)];
            var lines := Run(seed, steps).lines;
            |lines| == 3 && Intact(seed, lines[..1] + lines[2..])
  {
    var a, b, c, d := Start(true), Append(e, Complete), Append(f, HeadNotStored), Append(g, Complete);
    RunSnoc(seed, [], a);
    RunSnoc(seed, [a], b);
    RunSnoc(seed, [a, b], c);
    RunSnoc(seed, [a, b, c], d);
    assert [] + [a] == [a] && [a] + [b] == [a, b] && [a, b] + [c] == [a, b, c] && [a, b, c] + [d] == [a, b, c, d];
    var first := Unlinked(seed, e);
    var second := Entry(f, Head(Mac(seed, Bytes(first.head), f)));
    var third := Entry(g, Head(Mac(seed, Bytes(first.head), g)));
    var lines := Run(seed, [a, b, c, d]).lines;
    assert lines == [first, second, third];
    assert lines[..1] + lines[2..] == [first, third];
  }
}
