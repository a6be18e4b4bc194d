/**
 What the verifier's answer says about a log: which alterations it reports and
 at which line, which logs it accepts, and where an accepted discontinuity
 gets its authority from.
 */
module AuditTamper {
  import opened Wrappers
  import opened AuditChain

  // ---- Term size: a term is larger than anything inside it ----------------

  function DigestSize(d: Digest): nat {
    match d
    case Junk(_) => 0
    case Mac(_, prev, event) => 1 + EventSize(event) + (if prev.Some? then DigestSize(prev.value) else 0)
  }

  function HexSize(h: Hex): nat {
    if h.Head? then 1 + DigestSize(h.digest) else 0
  }

  function EventSize(e: Event): nat {
    match e.reseal
    case None => 0
    case Some(m) => 1 + HexSize(m.observedHead) + HexSize(m.expectedHead)
  }

  // ---- Basic facts about the walk ----------------------------------------

  predicate IsMarker(l: Line) {
    l.Entry? && l.event.reseal.Some?
  }

  ghost predicate MarkerFree(lines: seq<Line>) {
    forall i | 0 <= i < |lines| :: !IsMarker(lines[i])
  }

  /** Line j carries a marker that acknowledges line i. */
  predicate AckedBy(seed: Seed, lines: seq<Line>, i: nat, j: nat)
    requires AllReadable(lines) && i < |lines| && j < |lines|
  {
    IsMarker(lines[j]) && Acknowledges(lines[j].event.reseal.value, seed, lines, i)
  }

  /** Every marker the verifier consults stands on some line of the log. */
  lemma {:induction false} AckHasLine(lines: seq<Line>, h: Hex) returns (j: nat)
    requires h in Acks(lines)
    ensures j < |lines| && IsMarker(lines[j])
    ensures lines[j].event.reseal.value == Acks(lines)[h] && Acks(lines)[h].observedHead == h
  {
    var n := |lines| - 1;
    if IsMarker(lines[n]) && lines[n].event.reseal.value.observedHead == h {
      j := n;
    } else {
      j := AckHasLine(lines[..n], h);
    }
  }

  /** No discontinuity before n: the count the verifier reports is zero exactly then. */
  lemma {:induction false} NoBreaksMeansVerified(seed: Seed, lines: seq<Line>, n: nat)
    requires n <= |lines| && forall i | 0 <= i < n :: Readable(lines[i])
    ensures BreaksBefore(seed, lines, n) == 0 <==> forall i | 0 <= i < n :: Readable(lines[i]) && VerifiesAt(seed, lines, i)
  {
    if n > 0 {
      NoBreaksMeansVerified(seed, lines, n - 1);
      assert Readable(lines[n - 1]);
    }
  }

  /** "Intact, nothing acknowledged" is reported exactly for a log every line of which verifies on its own. */
  lemma WalkAcceptsExactlyIntact(seed: Seed, lines: seq<Line>)
    ensures (WalkOf(seed, lines).badIndex == -1 && WalkOf(seed, lines).acked == 0) <==> Intact(seed, lines)
  {
    var stop := StopIndex(seed, Acks(lines), lines, 0);
    if stop == |lines| {
      NoBreaksMeansVerified(seed, lines, stop);
    }
  }

  /** The reported index: everything before it is stepped over, it is not, and -1 says there is no such line. */
  lemma BadIndexIsLeast(seed: Seed, lines: seq<Line>, i: nat)
    requires i < |lines|
    requires forall k | 0 <= k < i :: Readable(lines[k])
    requires forall k | 0 <= k < i :: PassesAt(seed, Acks(lines), lines, k)
    ensures WalkOf(seed, lines).badIndex == i <==> !PassesAt(seed, Acks(lines), lines, i)
  {
    var stop := StopIndex(seed, Acks(lines), lines, 0);
    assert stop >= i;
  }

  // ---- Where an acknowledged break gets its authority ----------------------

  /** Each line of the path is acknowledged by the marker on the next. */
  ghost predicate AckPath(seed: Seed, lines: seq<Line>, path: seq<nat>)
    requires AllReadable(lines)
  {
    && |path| > 0
    && (forall k | 0 <= k < |path| :: path[k] < |lines|)
    && forall k | 0 <= k < |path| - 1 :: AckedBy(seed, lines, path[k], path[k + 1])
  }

  /** A marker is larger than the line it acknowledges: it holds the MAC expected there. */
  lemma AckGrows(seed: Seed, lines: seq<Line>, i: nat, j: nat)
    requires AllReadable(lines) && i < |lines| && j < |lines|
    requires AckedBy(seed, lines, i, j)
    ensures EventSize(lines[i].event) < EventSize(lines[j].event)
  {
    var m := lines[j].event.reseal.value;
    assert m.expectedHead == Head(ExpectedAt(seed, lines, i));
    assert DigestSize(ExpectedAt(seed, lines, i)) > EventSize(lines[i].event);
  }

  /** No marker, and no ring of markers, acknowledges itself. */
  lemma {:induction false} AckPathNeverRepeats(seed: Seed, lines: seq<Line>, path: seq<nat>, a: nat, b: nat)
    requires AllReadable(lines) && AckPath(seed, lines, path)
    requires a < b < |path|
    ensures EventSize(lines[path[a]].event) < EventSize(lines[path[b]].event)
    ensures path[a] != path[b]
    decreases b
  {
    AckGrows(seed, lines, path[b - 1], path[b]);
    if a < b - 1 {
      AckPathNeverRepeats(seed, lines, path, a, b - 1);
    }
  }

  function LargestEvent(lines: seq<Line>): (n: nat)
    ensures forall i | 0 <= i < |lines| && lines[i].Entry? :: EventSize(lines[i].event) <= n
  {
    if |lines| == 0 then 0
    else
      var rest := LargestEvent(lines[1..]);
      assert forall i | 1 <= i < |lines| :: lines[i] == lines[1..][i - 1];
      if lines[0].Entry? && EventSize(lines[0].event) > rest then EventSize(lines[0].event) else rest
  }

  /**
   When the verifier accepts a log, every break it stepped over leads, from
   marker to marker, to a marker line that carries its own MAC.
   */
  lemma {:induction false} BridgeSoundness(seed: Seed, lines: seq<Line>, i: nat) returns (path: seq<nat>)
    requires WalkOf(seed, lines).badIndex == -1
    requires i < |lines|
    ensures AllReadable(lines) && AckPath(seed, lines, path) && path[0] == i
    ensures VerifiesAt(seed, lines, path[|path| - 1])
    ensures VerifiesAt(seed, lines, i) ==> path == [i]
    ensures !VerifiesAt(seed, lines, i) ==> IsMarker(lines[path[|path| - 1]])
    decreases LargestEvent(lines) - (if lines[i].Entry? then EventSize(lines[i].event) else 0)
  {
    var stop := StopIndex(seed, Acks(lines), lines, 0);
    assert Readable(lines[i]) && PassesAt(seed, Acks(lines), lines, i);
    if VerifiesAt(seed, lines, i) {
      path := [i];
    } else {
      var j := AckHasLine(lines, lines[i].head);
      AckGrows(seed, lines, i, j);
      var rest := BridgeSoundness(seed, lines, j);
      path := [i] + rest;
      assert forall k | 1 <= k < |path| :: path[k] == rest[k - 1];
      assert path[|path| - 1] == rest[|rest| - 1];
    }
  }

  /** Without one marker line that carries its own MAC, nothing is acknowledged: only intact logs are accepted. */
  lemma ForgedMarkersClearNothing(seed: Seed, lines: seq<Line>)
    requires AllReadable(lines)
    requires forall j | 0 <= j < |lines| && IsMarker(lines[j]) :: !VerifiesAt(seed, lines, j)
    ensures WalkOf(seed, lines).badIndex == -1 <==> Intact(seed, lines)
  {
    WalkAcceptsExactlyIntact(seed, lines);
    if WalkOf(seed, lines).badIndex == -1 {
      forall i | 0 <= i < |lines| ensures Readable(lines[i]) && VerifiesAt(seed, lines, i) {
        var path := BridgeSoundness(seed, lines, i);
      }
    }
  }

  // ---- The last chain value determines the log -----------------------------

  function LastHead(lines: seq<Line>): Hex {
    if |lines| == 0 then Empty else RecordedHead(lines[|lines| - 1])
  }

  lemma IntactPrefix(seed: Seed, lines: seq<Line>, n: nat)
    requires Intact(seed, lines) && n <= |lines|
    ensures Intact(seed, lines[..n])
  {
    forall i | 0 <= i < n ensures Readable(lines[..n][i]) && VerifiesAt(seed, lines[..n], i) {
      assert Readable(lines[i]) && VerifiesAt(seed, lines, i);
    }
  }

  /** Two intact logs under one seed that end in the same chain value are the same log. */
  lemma {:induction false} LastHeadDeterminesLog(seed: Seed, a: seq<Line>, b: seq<Line>)
    requires Intact(seed, a) && Intact(seed, b)
    requires LastHead(a) == LastHead(b)
    ensures a == b
  {
    var n, m := |a| - 1, |b| - 1;
    if n >= 0 {
      assert VerifiesAt(seed, a, n);
    }
    if m >= 0 {
      assert VerifiesAt(seed, b, m);
    }
    if n >= 0 && m >= 0 {
      assert Readable(a[n]) && Readable(b[m]);
      assert n > 0 ==> Readable(a[n - 1]) && VerifiesAt(seed, a, n - 1);
      assert m > 0 ==> Readable(b[m - 1]) && VerifiesAt(seed, b, m - 1);
      IntactPrefix(seed, a, n);
      IntactPrefix(seed, b, m);
      LastHeadDeterminesLog(seed, a[..n], b[..m]);
      assert a == a[..n] + [a[n]] && b == b[..m] + [b[m]];
    }
  }

  /** In an intact log chain values grow, so no two lines share one. */
  lemma {:induction false} HeadsGrow(seed: Seed, lines: seq<Line>, i: nat, j: nat)
    requires Intact(seed, lines) && i < j < |lines|
    ensures HexSize(lines[i].head) < HexSize(lines[j].head)
    ensures lines[i].head != lines[j].head
    decreases j
  {
    assert Readable(lines[j - 1]) && VerifiesAt(seed, lines, j - 1);
    assert Readable(lines[j]) && VerifiesAt(seed, lines, j);
    if i < j - 1 {
      HeadsGrow(seed, lines, i, j - 1);
    }
  }

  /**
   Cutting lines off the end is never reported by the walk, because it does not
   look at the stored head; only the last chain value changes.
   */
  lemma TruncationIsInvisible(seed: Seed, lines: seq<Line>, n: nat)
    requires Intact(seed, lines) && n < |lines|
    ensures WalkOf(seed, lines[..n]) == Walk(-1, n, 0, Empty, Empty, NoError)
    ensures LastHead(lines[..n]) != LastHead(lines)
  {
    IntactPrefix(seed, lines, n);
    WalkAcceptsExactlyIntact(seed, lines[..n]);
    if LastHead(lines[..n]) == LastHead(lines) {
      LastHeadDeterminesLog(seed, lines[..n], lines);
    }
  }

  // ---- Tampering is reported, and where ------------------------------------

  /** The first n lines are readable and each carries the MAC it must. */
  ghost predicate VerifiedBefore(seed: Seed, lines: seq<Line>, n: nat) {
    && n <= |lines|
    && (forall k | 0 <= k < n :: Readable(lines[k]))
    && forall k {:trigger VerifiesAt(seed, lines, k)} | 0 <= k < n :: VerifiesAt(seed, lines, k)
  }

  /** Line i is the one reported when everything before it verifies, and it neither verifies nor is acknowledged. */
  lemma ReportedAt(seed: Seed, lines: seq<Line>, i: nat)
    requires i < |lines|
    requires VerifiedBefore(seed, lines, i)
    requires Readable(lines[i]) ==>
               && !VerifiesAt(seed, lines, i)
               && forall j | 0 <= j < |lines| && IsMarker(lines[j]) ::
                    lines[j].event.reseal.value.expectedHead != Head(ExpectedAt(seed, lines, i))
    ensures WalkOf(seed, lines).badIndex == i
  {
    var acks := Acks(lines);
    if PassesAt(seed, acks, lines, i) {
      var j := AckHasLine(lines, lines[i].head);
    }
    BadIndexIsLeast(seed, lines, i);
  }

  /** The walk of an altered log that agrees with an intact one before line i. */
  lemma AgreeingPrefixVerifies(seed: Seed, lines: seq<Line>, altered: seq<Line>, i: nat)
    requires Intact(seed, lines) && i <= |lines| && i <= |altered|
    requires altered[..i] == lines[..i]
    ensures VerifiedBefore(seed, altered, i)
    ensures i > 0 ==> Readable(altered[i - 1]) && PrevAt(altered, i) == PrevAt(lines, i)
  {
    assert forall k | 0 <= k < i :: altered[k] == altered[..i][k] && lines[k] == lines[..i][k];
    forall k | 0 <= k < i ensures Readable(altered[k]) && VerifiesAt(seed, altered, k) {
      assert Readable(lines[k]) && VerifiesAt(seed, lines, k);
      assert k > 0 ==> altered[k - 1] == lines[k - 1];
    }
  }

  /** A line carrying the MAC that continues the chain: writing one takes the seed. */
  predicate Continues(seed: Seed, prev: Option<Digest>, l: Line) {
    l.Entry? && l.head == Head(Mac(seed, prev, l.event))
  }

  /**
   Editing any one line, into anything at all, is reported exactly there; or, if
   the editor could sign the new line, exactly at the next one (a signed edit of
   the last line goes unnoticed).
   */
  lemma EditIsReported(seed: Seed, lines: seq<Line>, i: nat, l: Line)
    requires Intact(seed, lines) && MarkerFree(lines)
    requires i < |lines| && l != lines[i]
    requires i > 0 ==> Readable(lines[i - 1])
    ensures WalkOf(seed, lines[i := l]).badIndex ==
            if !Continues(seed, PrevAt(lines, i), l) then i
            else if i + 1 < |lines| then i + 1 else -1
  {
    var altered := lines[i := l];
    AgreeingPrefixVerifies(seed, lines, altered, i);
    assert Readable(lines[i]) && VerifiesAt(seed, lines, i);
    assert forall j | 0 <= j < |altered| && j != i :: altered[j] == lines[j] && !IsMarker(lines[j]);
    if !Continues(seed, PrevAt(lines, i), l) {
      if Readable(l) {
        assert DigestSize(ExpectedAt(seed, altered, i)) > EventSize(l.event);
      }
      ReportedAt(seed, altered, i);
    } else if i + 1 < |lines| {
      assert Readable(altered[i]) && VerifiesAt(seed, altered, i);
      assert Readable(lines[i + 1]) && VerifiesAt(seed, lines, i + 1);
      assert altered[i + 1] == lines[i + 1];
      assert DigestSize(ExpectedAt(seed, altered, i + 1)) > DigestSize(l.head.digest) > EventSize(l.event);
      ReportedAt(seed, altered, i + 1);
    } else {
      assert Intact(seed, altered);
      WalkAcceptsExactlyIntact(seed, altered);
    }
  }

  /** Inserting a line anywhere is reported there, or at the line after it when the insertion is signed or is a copy. */
  lemma InsertionIsReported(seed: Seed, lines: seq<Line>, i: nat, l: Line)
    requires Intact(seed, lines) && MarkerFree(lines)
    requires i <= |lines|
    requires i > 0 ==> Readable(lines[i - 1])
    ensures WalkOf(seed, lines[..i] + [l] + lines[i..]).badIndex ==
            if !Continues(seed, PrevAt(lines, i), l) then i
            else if i < |lines| then i + 1 else -1
  {
    hide Acks;
    hide BreaksBefore;
    var altered := lines[..i] + [l] + lines[i..];
    assert altered[..i] == lines[..i];
    AgreeingPrefixVerifies(seed, lines, altered, i);
    assert forall j | 0 <= j < i :: altered[j] == lines[j] && !IsMarker(lines[j]);
    assert forall j | i < j < |altered| :: altered[j] == lines[j - 1] && !IsMarker(lines[j - 1]);
    if !Continues(seed, PrevAt(lines, i), l) {
      if Readable(l) {
        assert DigestSize(ExpectedAt(seed, altered, i)) > EventSize(l.event);
      }
      ReportedAt(seed, altered, i);
    } else if i < |lines| {
      assert altered[i + 1] == lines[i];
      assert Readable(altered[i]) && VerifiesAt(seed, altered, i);
      assert Readable(lines[i]) && VerifiesAt(seed, lines, i);
      assert DigestSize(ExpectedAt(seed, altered, i + 1)) > DigestSize(l.head.digest) > EventSize(l.event);
      if i > 0 {
        assert Readable(lines[i - 1]);
        assert PrevAt(altered, i + 1) != PrevAt(lines, i) by {
          assert l.head.digest.prev == PrevAt(lines, i);
        }
      }
      ReportedAt(seed, altered, i + 1);
    } else {
      assert Intact(seed, altered);
      WalkAcceptsExactlyIntact(seed, altered);
    }
  }

  /** A line of an intact log verifies nowhere but in its own place. */
  lemma MisplacedLineFails(seed: Seed, lines: seq<Line>, altered: seq<Line>, i: nat, j: nat)
    requires Intact(seed, lines) && MarkerFree(lines) && MarkerFree(altered)
    requires i < |altered| && i < j < |lines|
    requires altered[..i] == lines[..i] && altered[i] == lines[j]
    ensures WalkOf(seed, altered).badIndex == i
  {
    AgreeingPrefixVerifies(seed, lines, altered, i);
    assert Readable(lines[j]) && VerifiesAt(seed, lines, j);
    assert Readable(lines[j - 1]) && VerifiesAt(seed, lines, j - 1);
    if i > 0 {
      HeadsGrow(seed, lines, i - 1, j - 1);
    }
    ReportedAt(seed, altered, i);
  }

  /** Deleting any line but the last is reported at its place. */
  lemma DeletionIsReported(seed: Seed, lines: seq<Line>, i: nat)
    requires Intact(seed, lines) && MarkerFree(lines)
    requires i + 1 < |lines|
    ensures WalkOf(seed, lines[..i] + lines[i + 1..]).badIndex == i
  {
    var altered := lines[..i] + lines[i + 1..];
    assert altered[..i] == lines[..i] && altered[i] == lines[i + 1];
    assert MarkerFree(altered);
    MisplacedLineFails(seed, lines, altered, i, i + 1);
  }

  /** Exchanging any two lines is reported at the earlier place. */
  lemma ExchangeIsReported(seed: Seed, lines: seq<Line>, i: nat, j: nat)
    requires Intact(seed, lines) && MarkerFree(lines)
    requires i < j < |lines|
    ensures WalkOf(seed, lines[i := lines[j]][j := lines[i]]).badIndex == i
  {
    var altered := lines[i := lines[j]][j := lines[i]];
    assert altered[..i] == lines[..i];
    assert MarkerFree(altered);
    MisplacedLineFails(seed, lines, altered, i, j);
  }

  // ---- Without the seed, all that goes undetected in an intact, marker-free log is truncation

  /** Every MAC under the seed that the log shows as a chain value was issued for the other log. */
  ghost predicate OnlyReuses(seed: Seed, issued: seq<Line>, lines: seq<Line>) {
    forall k | 0 <= k < |lines| && lines[k].Entry? && lines[k].head.Head? && lines[k].head.digest.Mac?
               && lines[k].head.digest.seed == seed ::
      exists j | 0 <= j < |issued| :: RecordedHead(issued[j]) == lines[k].head
  }

  lemma VerifiedLineWasIssued(seed: Seed, issued: seq<Line>, lines: seq<Line>, k: nat) returns (j: nat)
    requires Intact(seed, issued) && OnlyReuses(seed, issued, lines)
    requires AllReadable(lines) && k < |lines| && VerifiesAt(seed, lines, k)
    ensures j < |issued| && issued[j] == lines[k]
    ensures j > 0 ==> Readable(issued[j - 1])
    ensures PrevAt(issued, j) == PrevAt(lines, k)
  {
    j :| 0 <= j < |issued| && RecordedHead(issued[j]) == lines[k].head;
    assert Readable(issued[j]) && VerifiesAt(seed, issued, j);
    assert j > 0 ==> Readable(issued[j - 1]);
  }

  /**
   Whoever lacks the seed can only replay chain values the log already showed.
   Such a log is accepted, markers and all, exactly when it is a prefix of the original.
   */
  lemma OnlyTruncationsAreAccepted(seed: Seed, issued: seq<Line>, lines: seq<Line>)
    requires Intact(seed, issued) && MarkerFree(issued)
    requires OnlyReuses(seed, issued, lines)
    ensures WalkOf(seed, lines).badIndex == -1 <==> lines <= issued
  {
    if lines <= issued {
      IntactPrefix(seed, issued, |lines|);
      assert issued[..|lines|] == lines;
      WalkAcceptsExactlyIntact(seed, lines);
    } else if WalkOf(seed, lines).badIndex == -1 {
      var stop := StopIndex(seed, Acks(lines), lines, 0);
      assert AllReadable(lines);
      forall j | 0 <= j < |lines| && VerifiesAt(seed, lines, j) ensures !IsMarker(lines[j]) {
        var was := VerifiedLineWasIssued(seed, issued, lines, j);
        assert !IsMarker(issued[was]);
      }
      ForgedMarkersClearNothing(seed, lines);
      ReplayedIntactIsPrefix(seed, issued, lines, |lines|);
    }
  }

  /** A replayed line that verifies after k original lines is the original line k. */
  lemma ReplayedLineInPlace(seed: Seed, issued: seq<Line>, lines: seq<Line>, k: nat)
    requires Intact(seed, issued) && Intact(seed, lines) && OnlyReuses(seed, issued, lines)
    requires k < |lines| && lines[..k] <= issued
    ensures k < |issued| && lines[k] == issued[k]
  {
    assert Readable(lines[k]) && VerifiesAt(seed, lines, k);
    var j := VerifiedLineWasIssued(seed, issued, lines, k);
    assert j > 0 ==> Readable(issued[j - 1]) && VerifiesAt(seed, issued, j - 1);
    if k > 0 {
      assert lines[k - 1] == lines[..k][k - 1] == issued[k - 1];
      assert Readable(issued[k - 1]) && VerifiesAt(seed, issued, k - 1);
      if 0 < j < k {
        HeadsGrow(seed, issued, j - 1, k - 1);
      } else if k < j {
        HeadsGrow(seed, issued, k - 1, j - 1);
      }
    }
    assert j == k;
  }

  lemma {:induction false} ReplayedIntactIsPrefix(seed: Seed, issued: seq<Line>, lines: seq<Line>, n: nat)
    requires Intact(seed, issued) && Intact(seed, lines) && OnlyReuses(seed, issued, lines)
    requires n <= |lines|
    ensures lines[..n] <= issued
  {
    if n > 0 {
      var k := n - 1;
      ReplayedIntactIsPrefix(seed, issued, lines, k);
      ReplayedLineInPlace(seed, issued, lines, k);
      assert lines[..n] == lines[..k] + [lines[k]];
    }
  }
}
