/**
 Acknowledging breaks: what one reseal changes, how many reseals a log needs,
 and the logs on which resealing never finishes.
 */
module AuditReseal {
  import opened Wrappers
  import opened AuditChain
  import opened AuditTamper

  /** The event a reseal appends, given what the verifier reported. */
  function ResealEvent(w: Walk, fields: Fields, reason: string, ackedBy: string): Event {
    Event(fields.(op := "audit.reseal", outcome := "ok"),
          Some(Marker(w.badIndex, w.observed, w.expected, reason, ackedBy)))
  }

  /** One call's own inputs: the stamped fields, and the owner's reason and name. */
  datatype Request = Request(fields: Fields, reason: string, ackedBy: string)

  /** The log after a reseal by a logger whose chain head is the last recorded one. */
  function Resealed(seed: Seed, lines: seq<Line>, r: Request): seq<Line>
    requires AllReadable(lines)
  {
    var w := WalkOf(seed, lines);
    if w.badIndex < 0 then lines
    else
      var e := ResealEvent(w, r.fields, r.reason, r.ackedBy);
      lines + [Entry(e, Head(Mac(seed, PrevAt(lines, |lines|), e)))]
  }

  function ResealedAll(seed: Seed, lines: seq<Line>, rs: seq<Request>): (after: seq<Line>)
    requires AllReadable(lines)
    ensures AllReadable(after) && lines <= after
    decreases |rs|
  {
    if |rs| == 0 then lines else ResealedAll(seed, Resealed(seed, lines, rs[0]), rs[1..])
  }

  /** The breaks no marker acknowledges. */
  ghost function UnackedBreaks(seed: Seed, lines: seq<Line>): set<nat>
    requires AllReadable(lines)
  {
    set i: nat | i < |lines| && !PassesAt(seed, Acks(lines), lines, i)
  }

  /** The recorded values at the unacknowledged breaks; this is what markers are looked up by. */
  ghost function UnackedHeads(seed: Seed, lines: seq<Line>): set<Hex>
    requires AllReadable(lines)
  {
    set i | i in UnackedBreaks(seed, lines) :: lines[i].head
  }

  /** Breaks that share a recorded value expect the same MAC, so that one marker can serve them all. */
  ghost predicate BreaksAgree(seed: Seed, lines: seq<Line>)
    requires AllReadable(lines)
  {
    forall i, j | 0 <= i < j < |lines| && lines[i].head == lines[j].head
                  && !VerifiesAt(seed, lines, i) && !VerifiesAt(seed, lines, j) ::
      ExpectedAt(seed, lines, i) == ExpectedAt(seed, lines, j)
  }

  /** The verifier finds a break exactly when an unacknowledged one exists, and reports the first. */
  lemma WalkFindsFirstUnacked(seed: Seed, lines: seq<Line>)
    requires AllReadable(lines)
    ensures var w := WalkOf(seed, lines);
            && w.error == NoError
            && (w.badIndex == -1 <==> UnackedBreaks(seed, lines) == {})
            && (w.badIndex >= 0 ==>
                  && w.badIndex in UnackedBreaks(seed, lines)
                  && w.observed == lines[w.badIndex].head
                  && w.expected == Head(ExpectedAt(seed, lines, w.badIndex)))
  {
    var stop := StopIndex(seed, Acks(lines), lines, 0);
    if stop == |lines| {
      assert forall i: nat | i < |lines| :: PassesAt(seed, Acks(lines), lines, i);
    } else {
      assert stop in UnackedBreaks(seed, lines);
    }
  }

  /** Lines already there are judged by the lines before them only. */
  lemma ExtensionKeepsVerdicts(seed: Seed, lines: seq<Line>, longer: seq<Line>, i: nat)
    requires AllReadable(lines) && AllReadable(longer) && lines <= longer && i < |lines|
    ensures ExpectedAt(seed, longer, i) == ExpectedAt(seed, lines, i)
    ensures VerifiesAt(seed, longer, i) == VerifiesAt(seed, lines, i)
  {
    assert longer[i] == lines[i];
    assert i > 0 ==> longer[i - 1] == lines[i - 1];
  }

  /**
   One reseal: the log grows by one line, which carries its own MAC; breaks
   whose recorded value is another are untouched; of those that share the
   reported one's value, exactly those expecting the same MAC are acknowledged.
   */
  lemma ResealEffect(seed: Seed, lines: seq<Line>, r: Request)
    requires AllReadable(lines) && WalkOf(seed, lines).badIndex >= 0
    ensures var b := WalkOf(seed, lines).badIndex;
            var after := Resealed(seed, lines, r);
            && b < |lines| && |after| == |lines| + 1 && lines <= after && AllReadable(after)
            && VerifiesAt(seed, after, |lines|)
            && UnackedBreaks(seed, after) ==
               set i: nat | i < |lines| &&
                 if lines[i].head == lines[b].head
                 then !VerifiesAt(seed, lines, i) && ExpectedAt(seed, lines, i) != ExpectedAt(seed, lines, b)
                 else i in UnackedBreaks(seed, lines)
  {
    WalkFindsFirstUnacked(seed, lines);
    var b := WalkOf(seed, lines).badIndex;
    var after := Resealed(seed, lines, r);
    assert after[..|after| - 1] == lines;
    assert Acks(after) == Acks(lines)[lines[b].head := after[|lines|].event.reseal.value];
    assert AllReadable(after);
    assert PrevAt(after, |lines|) == PrevAt(lines, |lines|);
    assert VerifiesAt(seed, after, |lines|);
    assert PassesAt(seed, Acks(after), after, |lines|);
    forall i: nat | i < |lines|
      ensures i in UnackedBreaks(seed, after) <==>
              if lines[i].head == lines[b].head
              then !VerifiesAt(seed, lines, i) && ExpectedAt(seed, lines, i) != ExpectedAt(seed, lines, b)
              else i in UnackedBreaks(seed, lines)
    {
      ExtensionKeepsVerdicts(seed, lines, after, i);
      assert after[i] == lines[i];
    }
  }

  /** Resealing adds no break and changes no existing one, so agreement lasts. */
  lemma ResealKeepsAgreement(seed: Seed, lines: seq<Line>, r: Request)
    requires AllReadable(lines)
    ensures AllReadable(Resealed(seed, lines, r))
    ensures BreaksAgree(seed, Resealed(seed, lines, r)) <==> BreaksAgree(seed, lines)
  {
    if WalkOf(seed, lines).badIndex >= 0 {
      ResealEffect(seed, lines, r);
      var after := Resealed(seed, lines, r);
      forall i: nat | i < |lines|
        ensures after[i] == lines[i]
        ensures ExpectedAt(seed, after, i) == ExpectedAt(seed, lines, i)
        ensures VerifiesAt(seed, after, i) == VerifiesAt(seed, lines, i)
      {
        ExtensionKeepsVerdicts(seed, lines, after, i);
      }
    }
  }

  /** Each reseal removes the reported break, together with those sharing its value, and nothing else. */
  lemma ResealProgress(seed: Seed, lines: seq<Line>, r: Request)
    requires AllReadable(lines) && BreaksAgree(seed, lines) && WalkOf(seed, lines).badIndex >= 0
    ensures var b := WalkOf(seed, lines).badIndex;
            var after := Resealed(seed, lines, r);
            && AllReadable(after) && b < |lines|
            && UnackedBreaks(seed, after) ==
               (set i | i in UnackedBreaks(seed, lines) && lines[i].head != lines[b].head)
            && lines[b].head in UnackedHeads(seed, lines)
            && UnackedHeads(seed, after) == UnackedHeads(seed, lines) - {lines[b].head}
  {
    WalkFindsFirstUnacked(seed, lines);
    ResealEffect(seed, lines, r);
    var b := WalkOf(seed, lines).badIndex;
    var after := Resealed(seed, lines, r);
    forall i: nat | i < |lines| && lines[i].head == lines[b].head && !VerifiesAt(seed, lines, i)
      ensures ExpectedAt(seed, lines, i) == ExpectedAt(seed, lines, b)
    {
      if i < b {
        assert lines[i].head == lines[b].head && !VerifiesAt(seed, lines, b);
      } else if b < i {
        assert lines[b].head == lines[i].head && !VerifiesAt(seed, lines, b);
      }
    }
    assert forall i | i in UnackedBreaks(seed, after) :: after[i] == lines[i];
    assert UnackedHeads(seed, after) == UnackedHeads(seed, lines) - {lines[b].head};
  }

  /** No two unacknowledged breaks share a recorded value. */
  ghost predicate DistinctBreakHeads(seed: Seed, lines: seq<Line>)
    requires AllReadable(lines)
  {
    forall i, j | 0 <= i < j < |lines| && !VerifiesAt(seed, lines, i) && !VerifiesAt(seed, lines, j) ::
      lines[i].head != lines[j].head
  }

  lemma DistinctBreakAt(seed: Seed, lines: seq<Line>, i: nat, j: nat)
    requires AllReadable(lines) && DistinctBreakHeads(seed, lines)
    requires i < |lines| && j < |lines| && i != j
    requires !VerifiesAt(seed, lines, i) && !VerifiesAt(seed, lines, j)
    ensures lines[i].head != lines[j].head
  {
    var first, second := if i < j then i else j, if i < j then j else i;
    assert lines[first].head != lines[second].head;
  }

  lemma ResealKeepsDistinctBreaks(seed: Seed, lines: seq<Line>, r: Request)
    requires AllReadable(lines) && DistinctBreakHeads(seed, lines) && WalkOf(seed, lines).badIndex >= 0
    ensures AllReadable(Resealed(seed, lines, r)) && DistinctBreakHeads(seed, Resealed(seed, lines, r))
  {
    ResealEffect(seed, lines, r);
    var after := Resealed(seed, lines, r);
    forall i, j | 0 <= i < j < |after| && !VerifiesAt(seed, after, i) && !VerifiesAt(seed, after, j)
      ensures after[i].head != after[j].head
    {
      assert j < |lines|;
      ExtensionKeepsVerdicts(seed, lines, after, i);
      ExtensionKeepsVerdicts(seed, lines, after, j);
      DistinctBreakAt(seed, lines, i, j);
    }
  }

  /** With distinct recorded values at the breaks, one reseal acknowledges exactly the reported break. */
  lemma ResealClearsOne(seed: Seed, lines: seq<Line>, r: Request)
    requires AllReadable(lines) && DistinctBreakHeads(seed, lines) && WalkOf(seed, lines).badIndex >= 0
    ensures var after := Resealed(seed, lines, r);
            && AllReadable(after) && DistinctBreakHeads(seed, after)
            && UnackedBreaks(seed, after) == UnackedBreaks(seed, lines) - {WalkOf(seed, lines).badIndex}
            && |UnackedBreaks(seed, after)| == |UnackedBreaks(seed, lines)| - 1
  {
    WalkFindsFirstUnacked(seed, lines);
    ResealKeepsDistinctBreaks(seed, lines, r);
    DistinctBreaksAgree(seed, lines);
    ResealProgress(seed, lines, r);
    var b := WalkOf(seed, lines).badIndex;
    forall i | i in UnackedBreaks(seed, lines) && i != b ensures lines[i].head != lines[b].head {
      DistinctBreakAt(seed, lines, i, b);
    }
    assert UnackedBreaks(seed, Resealed(seed, lines, r)) == UnackedBreaks(seed, lines) - {b};
  }

  lemma DistinctBreaksAgree(seed: Seed, lines: seq<Line>)
    requires AllReadable(lines) && DistinctBreakHeads(seed, lines)
    ensures BreaksAgree(seed, lines)
  {
  }

  /** With distinct recorded values at the breaks, a log needs exactly as many reseals as it has unacknowledged breaks. */
  lemma {:induction false} OneResealPerBreak(seed: Seed, lines: seq<Line>, rs: seq<Request>)
    requires AllReadable(lines) && DistinctBreakHeads(seed, lines)
    ensures var after := ResealedAll(seed, lines, rs);
            WalkOf(seed, after).badIndex == -1 <==> |UnackedBreaks(seed, lines)| <= |rs|
    decreases |rs|
  {
    WalkFindsFirstUnacked(seed, lines);
    if |rs| > 0 {
      if WalkOf(seed, lines).badIndex >= 0 {
        ResealClearsOne(seed, lines, rs[0]);
      }
      OneResealPerBreak(seed, Resealed(seed, lines, rs[0]), rs[1..]);
    }
  }

  /** A sequence of reseals clears one recorded value each, until none is left. */
  lemma {:induction false} ResealsCountDown(seed: Seed, lines: seq<Line>, rs: seq<Request>)
    requires AllReadable(lines) && BreaksAgree(seed, lines)
    ensures var after := ResealedAll(seed, lines, rs);
            && |UnackedHeads(seed, after)| ==
               (if |UnackedHeads(seed, lines)| <= |rs| then 0 else |UnackedHeads(seed, lines)| - |rs|)
            && (WalkOf(seed, after).badIndex == -1 <==> |UnackedHeads(seed, lines)| <= |rs|)
    decreases |rs|
  {
    var after := ResealedAll(seed, lines, rs);
    NoHeadsMeansNoBreaks(seed, lines);
    if |rs| > 0 {
      var next := Resealed(seed, lines, rs[0]);
      ResealKeepsAgreement(seed, lines, rs[0]);
      if WalkOf(seed, lines).badIndex >= 0 {
        ResealProgress(seed, lines, rs[0]);
      }
      ResealsCountDown(seed, next, rs[1..]);
    }
  }

  lemma NoHeadsMeansNoBreaks(seed: Seed, lines: seq<Line>)
    requires AllReadable(lines)
    ensures WalkOf(seed, lines).badIndex == -1 <==> |UnackedHeads(seed, lines)| == 0
    ensures WalkOf(seed, lines).badIndex >= -1
  {
    WalkFindsFirstUnacked(seed, lines);
    var w := WalkOf(seed, lines);
    if w.badIndex >= 0 {
      assert lines[w.badIndex].head in UnackedHeads(seed, lines);
    } else {
      assert UnackedHeads(seed, lines) == {};
    }
  }

  /** Two breaks that share a recorded value but expect different MACs are never both acknowledged. */
  lemma {:induction false} DisagreementNeverClears(seed: Seed, lines: seq<Line>, rs: seq<Request>)
    requires AllReadable(lines) && !BreaksAgree(seed, lines)
    ensures WalkOf(seed, ResealedAll(seed, lines, rs)).badIndex >= 0
    decreases |rs|
  {
    if |rs| == 0 {
      WalkFindsFirstUnacked(seed, lines);
      var i: nat, j: nat :| i < j < |lines| && lines[i].head == lines[j].head
        && !VerifiesAt(seed, lines, i) && !VerifiesAt(seed, lines, j)
        && ExpectedAt(seed, lines, i) != ExpectedAt(seed, lines, j);
      assert i in UnackedBreaks(seed, lines) || j in UnackedBreaks(seed, lines);
      NoHeadsMeansNoBreaks(seed, lines);
    } else {
      ResealKeepsAgreement(seed, lines, rs[0]);
      DisagreementNeverClears(seed, Resealed(seed, lines, rs[0]), rs[1..]);
    }
  }

  /**
   Resealing repeatedly reaches "nothing to reseal" exactly when breaks that share a
   recorded value expect the same MAC; the number of calls it takes is then the
   number of distinct recorded values at unacknowledged breaks.
   */
  lemma ResealTerminatesExactlyWhen(seed: Seed, lines: seq<Line>, r: Request)
    requires AllReadable(lines)
    ensures BreaksAgree(seed, lines) <==> exists rs :: WalkOf(seed, ResealedAll(seed, lines, rs)).badIndex == -1
    ensures BreaksAgree(seed, lines) ==>
              forall rs :: WalkOf(seed, ResealedAll(seed, lines, rs)).badIndex == -1 <==> |UnackedHeads(seed, lines)| <= |rs|
  {
    hide WalkOf;
    hide ResealedAll;
    hide UnackedBreaks;
    hide VerifiesAt;
    hide ExpectedAt;
    if BreaksAgree(seed, lines) {
      forall rs
        ensures WalkOf(seed, ResealedAll(seed, lines, rs)).badIndex == -1 <==> |UnackedHeads(seed, lines)| <= |rs|
      {
        ResealsCountDown(seed, lines, rs);
      }
      var enough := seq(|UnackedHeads(seed, lines)|, _ => r);
      assert WalkOf(seed, ResealedAll(seed, lines, enough)).badIndex == -1;
    } else {
      forall rs ensures WalkOf(seed, ResealedAll(seed, lines, rs)).badIndex != -1 {
        DisagreementNeverClears(seed, lines, rs);
      }
    }
  }

  /** Two altered lines with one recorded value between them: no number of reseals clears this log. */
  lemma ResealCanLoopForever(seed: Seed, f: Fields, g: Fields, rs: seq<Request>)
    requires f != g
    ensures var lines := [Entry(Event(f, None), Head(Junk(0))), Entry(Event(g, None), Head(Junk(0)))];
            AllReadable(lines) && WalkOf(seed, ResealedAll(seed, lines, rs)).badIndex >= 0
  {
    var lines := [Entry(Event(f, None), Head(Junk(0))), Entry(Event(g, None), Head(Junk(0)))];
    assert ExpectedAt(seed, lines, 0) != ExpectedAt(seed, lines, 1);
    assert lines[0].head == lines[1].head;
    assert !VerifiesAt(seed, lines, 0) && !VerifiesAt(seed, lines, 1);
    assert !BreaksAgree(seed, lines);
    DisagreementNeverClears(seed, lines, rs);
  }
}
