/**
 Whole runs of the audit log: restarts, crashes, appends and reseals in any order, with
 every write free to fail before its line is on disk or after it.  Lines cut short are not
 part of these runs; AuditFileRuns has them.
 */
module AuditRuns {
  import opened Wrappers
  import opened AuditChain
  import opened AuditTamper
  import opened AuditReseal

  /** The log's lines, the chain head in the metadata store, and the head a running logger holds in memory. */
  datatype State = State(lines: seq<Line>, stored: Hex, logger: Option<Hex>)

  /** How far a write gets: nothing on disk; the line on disk but the head not stored; both done. */
  datatype Outcome = NotWritten | HeadNotStored | Complete

  datatype Step =
    | Start(storeWorks: bool)
    | Crash
    | Append(event: Event, outcome: Outcome)
    | Reseal(request: Request, outcome: Outcome)

  const Fresh := State([], Empty, None)

  /** The chain value of the last line that has one, skipping torn lines. */
  function DiskHead(lines: seq<Line>): Option<Hex> {
    if |lines| == 0 then None
    else if RecordedHead(lines[|lines| - 1]) != Empty then Some(RecordedHead(lines[|lines| - 1]))
    else DiskHead(lines[..|lines| - 1])
  }

  /** Start-up: the line on disk is the truth; a store that lags is corrected before the logger runs. */
  function Started(s: State, storeWorks: bool): State {
    var disk := DiskHead(s.lines);
    if disk.Some? && disk.value != s.stored then
      if storeWorks then State(s.lines, disk.value, disk) else s.(logger := None)
    else s.(logger := Some(s.stored))
  }

  /** One append by a logger holding head `prev`: first the line, then the store, then the memory. */
  function Appended(seed: Seed, s: State, prev: Hex, e: Event, outcome: Outcome): State {
    if prev.Malformed? || outcome == NotWritten then s
    else
      var head := Head(Mac(seed, Bytes(prev), e));
      var lines := s.lines + [Entry(e, head)];
      if outcome == HeadNotStored then s.(lines := lines) else State(lines, head, Some(head))
  }

  function Next(seed: Seed, s: State, step: Step): State {
    match step
    case Start(works) => Started(s, works)
    case Crash => s.(logger := None)
    case Append(e, outcome) =>
      if s.logger.None? then s else Appended(seed, s, s.logger.value, e, outcome)
    case Reseal(r, outcome) =>
      var w := WalkOf(seed, s.lines);
      if s.logger.None? || w.error != NoError || w.badIndex < 0 then s
      else Appended(seed, s, s.logger.value, ResealEvent(w, r.fields, r.reason, r.ackedBy), outcome)
  }

  function Run(seed: Seed, steps: seq<Step>): State {
    if |steps| == 0 then Fresh
    else Next(seed, Run(seed, steps[..|steps| - 1]), steps[|steps| - 1])
  }

  // ---- Forks: counted on the run, without looking at any MAC ----------------

  /** Step k puts a line on disk. */
  predicate WritesLine(seed: Seed, steps: seq<Step>, k: nat)
    requires k < |steps|
  {
    |Run(seed, steps[..k + 1]).lines| > |Run(seed, steps[..k]).lines|
  }

  predicate LeavesHeadBehind(step: Step) {
    (step.Append? || step.Reseal?) && step.outcome == HeadNotStored
  }

  /** The last line was written without its head being stored, and there has been no start-up since. */
  predicate Lagging(seed: Seed, steps: seq<Step>) {
    var n := |steps|;
    if n == 0 then false
    else
      assert steps[..n] == steps;
      if steps[n - 1].Start? then false
      else if WritesLine(seed, steps, n - 1) then LeavesHeadBehind(steps[n - 1])
      else Lagging(seed, steps[..n - 1])
  }

  /** Step k writes a line while the logger's head lags behind the log. */
  predicate ForksAt(seed: Seed, steps: seq<Step>, k: nat)
    requires k < |steps|
  {
    WritesLine(seed, steps, k) && Lagging(seed, steps[..k])
  }

  function CountForks(seed: Seed, steps: seq<Step>): nat {
    var n := |steps|;
    if n == 0 then 0
    else CountForks(seed, steps[..n - 1]) + (if ForksAt(seed, steps, n - 1) then 1 else 0)
  }

  // ---- What every reachable state satisfies ---------------------------------

  /** All of it but the position of the breaks: whatever was written is readable, and store and memory agree. */
  ghost predicate Reachable(s: State) {
    && AllReadable(s.lines)
    && (forall i | 0 <= i < |s.lines| :: s.lines[i].head.Head?)
    && !s.stored.Malformed?
    && (s.logger.Some? ==> s.logger.value == s.stored)
  }

  lemma DiskHeadIsLast(s: State)
    requires Reachable(s)
    ensures DiskHead(s.lines) == (if |s.lines| == 0 then None else Some(LastHead(s.lines)))
  {
  }

  lemma NextStaysReachable(seed: Seed, s: State, step: Step)
    requires Reachable(s)
    ensures Reachable(Next(seed, s, step))
    ensures s.lines <= Next(seed, s, step).lines
  {
    DiskHeadIsLast(s);
  }

  /** Every state of every run: readable lines, and the store agreeing with a running logger. */
  lemma {:induction false} RunsStayReachable(seed: Seed, steps: seq<Step>)
    ensures Reachable(Run(seed, steps))
  {
    if |steps| > 0 {
      RunsStayReachable(seed, steps[..|steps| - 1]);
      NextStaysReachable(seed, Run(seed, steps[..|steps| - 1]), steps[|steps| - 1]);
    }
  }

  /** While nothing has been written the store is empty. */
  lemma {:induction false} EmptyLogEmptyStore(seed: Seed, steps: seq<Step>)
    ensures |Run(seed, steps).lines| == 0 ==> Run(seed, steps).stored == Empty
  {
    if |steps| > 0 {
      EmptyLogEmptyStore(seed, steps[..|steps| - 1]);
      RunsStayReachable(seed, steps[..|steps| - 1]);
      NextStaysReachable(seed, Run(seed, steps[..|steps| - 1]), steps[|steps| - 1]);
    }
  }

  /** A line written from head `prev` verifies exactly when `prev` is the last recorded head. */
  lemma WrittenLineVerifies(seed: Seed, s: State, prev: Hex, e: Event, outcome: Outcome)
    requires Reachable(s) && !prev.Malformed? && outcome != NotWritten
    ensures var t := Appended(seed, s, prev, e, outcome);
            && t.lines == s.lines + [Entry(e, Head(Mac(seed, Bytes(prev), e)))] && AllReadable(t.lines)
            && (VerifiesAt(seed, t.lines, |s.lines|) <==> prev == LastHead(s.lines))
            && LastHead(t.lines) != prev
  {
    var t := Appended(seed, s, prev, e, outcome);
    assert PrevAt(t.lines, |s.lines|) == Bytes(LastHead(s.lines));
    assert HexSize(LastHead(t.lines)) > HexSize(prev);
  }

  /** The event a step appends. */
  function WrittenEvent(seed: Seed, s: State, step: Step): Event
    requires step.Append? || step.Reseal?
  {
    if step.Append? then step.event
    else ResealEvent(WalkOf(seed, s.lines), step.request.fields, step.request.reason, step.request.ackedBy)
  }

  /** A step that makes the log longer is an append by the logger running then. */
  lemma WritingStepAppends(seed: Seed, s: State, step: Step)
    requires Reachable(s) && |Next(seed, s, step).lines| > |s.lines|
    ensures s.logger.Some? && !s.logger.value.Malformed? && (step.Append? || step.Reseal?) && step.outcome != NotWritten
    ensures Next(seed, s, step) == Appended(seed, s, s.logger.value, WrittenEvent(seed, s, step), step.outcome)
  {
  }

  /** One step's part of the claim below. */
  lemma NextKeepsLag(seed: Seed, s: State, lag: bool, step: Step)
    requires Reachable(s) && (|s.lines| == 0 ==> s.stored == Empty)
    requires s.logger.Some? ==> (lag <==> s.logger.value != LastHead(s.lines))
    ensures var t := Next(seed, s, step);
            var lagAfter := if step.Start? then false else if |t.lines| > |s.lines| then LeavesHeadBehind(step) else lag;
            t.logger.Some? ==> (lagAfter <==> t.logger.value != LastHead(t.lines))
  {
    var t := Next(seed, s, step);
    if |t.lines| > |s.lines| {
      WritingStepAppends(seed, s, step);
      WrittenLineVerifies(seed, s, s.logger.value, WrittenEvent(seed, s, step), step.outcome);
    } else {
      DiskHeadIsLast(s);
    }
  }

  /** A running logger is behind the log exactly when the run says so. */
  lemma {:induction false} LagIsStaleHead(seed: Seed, steps: seq<Step>)
    ensures var s := Run(seed, steps);
            s.logger.Some? ==> (Lagging(seed, steps) <==> s.logger.value != LastHead(s.lines))
  {
    var n := |steps|;
    if n > 0 {
      LagIsStaleHead(seed, steps[..n - 1]);
      RunsStayReachable(seed, steps[..n - 1]);
      EmptyLogEmptyStore(seed, steps[..n - 1]);
      assert steps[..n] == steps;
      NextKeepsLag(seed, Run(seed, steps[..n - 1]), Lagging(seed, steps[..n - 1]), steps[n - 1]);
    }
  }

  // ---- Fork accounting -------------------------------------------------------

  /**
   The breaks of any run's log are exactly its forks: line i fails to verify just
   when the step that wrote it ran while the logger's head lagged.
   */
  lemma {:induction false} BreaksAreForks(seed: Seed, steps: seq<Step>, k: nat)
    requires k < |steps| && WritesLine(seed, steps, k)
    ensures var s := Run(seed, steps);
            var i := |Run(seed, steps[..k]).lines|;
            i < |s.lines| && AllReadable(s.lines) && (VerifiesAt(seed, s.lines, i) <==> !ForksAt(seed, steps, k))
    decreases |steps|
  {
    var n := |steps|;
    RunsStayReachable(seed, steps[..n - 1]);
    NextStaysReachable(seed, Run(seed, steps[..n - 1]), steps[n - 1]);
    if k == n - 1 {
      LastWriteVerifies(seed, steps);
    } else {
      assert steps[..n - 1][..k] == steps[..k] && steps[..n - 1][..k + 1] == steps[..k + 1];
      BreaksAreForks(seed, steps[..n - 1], k);
      ExtensionKeepsVerdicts(seed, Run(seed, steps[..n - 1]).lines, Run(seed, steps).lines, |Run(seed, steps[..k]).lines|);
    }
  }

  /** The same for the last step of a run. */
  lemma LastWriteVerifies(seed: Seed, steps: seq<Step>)
    requires |steps| > 0 && WritesLine(seed, steps, |steps| - 1)
    ensures var k := |steps| - 1;
            var s := Run(seed, steps);
            var i := |Run(seed, steps[..k]).lines|;
            |s.lines| == i + 1 && AllReadable(s.lines) && (VerifiesAt(seed, s.lines, i) <==> !ForksAt(seed, steps, k))
  {
    var k := |steps| - 1;
    var before := Run(seed, steps[..k]);
    assert steps[..k + 1] == steps;
    RunsStayReachable(seed, steps[..k]);
    LagIsStaleHead(seed, steps[..k]);
    WritingStepAppends(seed, before, steps[k]);
    WrittenLineVerifies(seed, before, before.logger.value, WrittenEvent(seed, before, steps[k]), steps[k].outcome);
  }

  lemma {:induction false} PrefixHasSameBreaks(seed: Seed, lines: seq<Line>, longer: seq<Line>, n: nat)
    requires AllReadable(lines) && AllReadable(longer) && lines <= longer && n <= |lines|
    ensures BreaksBefore(seed, longer, n) == BreaksBefore(seed, lines, n)
  {
    if n > 0 {
      PrefixHasSameBreaks(seed, lines, longer, n - 1);
      ExtensionKeepsVerdicts(seed, lines, longer, n - 1);
    }
  }

  /** And there are as many of the one as of the other. */
  lemma {:induction false} AsManyBreaksAsForks(seed: Seed, steps: seq<Step>)
    ensures AllReadable(Run(seed, steps).lines)
    ensures BreaksBefore(seed, Run(seed, steps).lines, |Run(seed, steps).lines|) == CountForks(seed, steps)
  {
    var n := |steps|;
    RunsStayReachable(seed, steps);
    if n > 0 {
      assert steps[..n] == steps;
      var before, after := Run(seed, steps[..n - 1]).lines, Run(seed, steps).lines;
      AsManyBreaksAsForks(seed, steps[..n - 1]);
      RunsStayReachable(seed, steps[..n - 1]);
      NextStaysReachable(seed, Run(seed, steps[..n - 1]), steps[n - 1]);
      PrefixHasSameBreaks(seed, before, after, |before|);
      if WritesLine(seed, steps, n - 1) {
        LastWriteVerifies(seed, steps);
      }
    }
  }

  /** The verifier finds a run's log intact, with nothing acknowledged, exactly when the run never forked. */
  lemma {:induction false} IntactExactlyWithoutForks(seed: Seed, steps: seq<Step>)
    ensures var w := WalkOf(seed, Run(seed, steps).lines);
            (w.badIndex == -1 && w.acked == 0) <==> CountForks(seed, steps) == 0
  {
    var lines := Run(seed, steps).lines;
    AsManyBreaksAsForks(seed, steps);
    NoBreaksMeansVerified(seed, lines, |lines|);
    WalkAcceptsExactlyIntact(seed, lines);
  }

  // ---- Fail-stop runs ---------------------------------------------------------

  /** Whenever a head is left unstored the process dies there and then. */
  predicate FailStop(steps: seq<Step>) {
    forall k | 0 <= k < |steps| - 1 && LeavesHeadBehind(steps[k]) :: steps[k + 1].Crash?
  }

  lemma {:induction false} FailStopNeverLagsAlive(seed: Seed, steps: seq<Step>)
    requires FailStop(steps)
    ensures Lagging(seed, steps) && Run(seed, steps).logger.Some? ==> LeavesHeadBehind(steps[|steps| - 1])
    ensures CountForks(seed, steps) == 0
  {
    var n := |steps|;
    if n > 0 {
      assert steps[..n] == steps;
      assert FailStop(steps[..n - 1]);
      FailStopNeverLagsAlive(seed, steps[..n - 1]);
      assert n > 1 ==> steps[..n - 1][n - 2] == steps[n - 2];
    }
  }

  /**
   The invariant of the design: however starts, crashes, failed writes, appends and
   reseals follow one another, as long as a lost head update ends the process, the
   log verifies with nothing acknowledged; and start-up leaves memory and store at
   the last recorded head.
   */
  lemma FailStopRunsAreIntact(seed: Seed, steps: seq<Step>)
    requires FailStop(steps)
    ensures var s := Run(seed, steps);
            WalkOf(seed, s.lines) == Walk(-1, |s.lines|, 0, Empty, Empty, NoError)
    ensures var t := Started(Run(seed, steps), true);
            t.logger == Some(LastHead(t.lines)) && t.stored == LastHead(t.lines)
  {
    FailStopNeverLagsAlive(seed, steps);
    IntactExactlyWithoutForks(seed, steps);
    StartRestoresHead(seed, steps);
  }

  /** Start-up repairs a lag after any run at all. */
  lemma StartRestoresHead(seed: Seed, steps: seq<Step>)
    ensures var t := Started(Run(seed, steps), true);
            t.logger == Some(LastHead(t.lines)) && t.stored == LastHead(t.lines) && t.lines == Run(seed, steps).lines
  {
    RunsStayReachable(seed, steps);
    EmptyLogEmptyStore(seed, steps);
    DiskHeadIsLast(Run(seed, steps));
  }

  /**
   Start-up takes what is on disk for the truth even when lines have been cut off the end:
   the store then holds the head of what is left, and the verifier finds that intact.  Only
   with nothing left does the store keep the old head.
   */
  lemma StartAdoptsTruncation(seed: Seed, s: State, n: nat)
    requires Reachable(s) && Intact(seed, s.lines) && s.stored == LastHead(s.lines) && n < |s.lines|
    ensures var t := Started(State(s.lines[..n], s.stored, None), true);
            var head := if n == 0 then s.stored else LastHead(s.lines[..n]);
            && t == State(s.lines[..n], head, Some(head))
            && (t.stored == s.stored <==> n == 0)
            && WalkOf(seed, t.lines) == Walk(-1, n, 0, Empty, Empty, NoError)
  {
    TruncationIsInvisible(seed, s.lines, n);
    var left := State(s.lines[..n], s.stored, None);
    assert Reachable(left);
    DiskHeadIsLast(left);
  }

  /** Then the next line written, whatever it holds, is a break at index 0: the truncation shows after all. */
  lemma EmptiedLogBreaksNext(seed: Seed, s: State, e: Event, outcome: Outcome)
    requires Reachable(s) && s.stored != Empty && s.lines == [] && outcome != NotWritten
    ensures var t := Started(s, true);
            && t.logger.Some? && !t.logger.value.Malformed?
            && WalkOf(seed, Appended(seed, t, t.logger.value, e, outcome).lines).badIndex == 0
  {
    hide WalkOf;
    hide Acks;
    var t := Started(s, true);
    var after := Appended(seed, t, t.logger.value, e, outcome).lines;
    assert after == [Entry(e, Head(Mac(seed, Bytes(s.stored), e)))];
    assert ExpectedAt(seed, after, 0) == Mac(seed, None, e);
    assert !VerifiesAt(seed, after, 0);
    ForgedMarkersClearNothing(seed, after);
    OnlyIndexZero(seed, after);
  }

  lemma OnlyIndexZero(seed: Seed, lines: seq<Line>)
    requires |lines| == 1
    ensures WalkOf(seed, lines).badIndex == 0 || WalkOf(seed, lines).badIndex == -1
  {
    hide Acks;
    hide BreaksBefore;
    hide PassesAt;
  }

  /** A start-up right before a write means that write does not fork. */
  lemma StartPreventsFork(seed: Seed, steps: seq<Step>, step: Step)
    ensures !ForksAt(seed, steps + [Start(true), step], |steps| + 1)
  {
    var all := steps + [Start(true), step];
    assert all[..|steps| + 1][|steps|] == Start(true);
  }

  // ---- Any run can be repaired -------------------------------------------------

  function Reseals(rs: seq<Request>): seq<Step> {
    seq(|rs|, i requires 0 <= i < |rs| => Reseal(rs[i], Complete))
  }

  /** No two lines carry the same timestamp. */
  ghost predicate DistinctTimes(lines: seq<Line>) {
    && (forall i | 0 <= i < |lines| :: lines[i].Entry?)
    && forall i, j | 0 <= i < j < |lines| :: lines[i].event.fields.ts != lines[j].event.fields.ts
  }

  /** A logger that holds the last recorded head reseals as `Resealed` says, and keeps holding it. */
  lemma {:induction false} ResealStepsReseal(seed: Seed, steps: seq<Step>, rs: seq<Request>)
    requires var s := Run(seed, steps); s.logger == Some(LastHead(s.lines))
    ensures AllReadable(Run(seed, steps).lines)
    ensures Run(seed, steps + Reseals(rs)).lines == ResealedAll(seed, Run(seed, steps).lines, rs)
    decreases |rs|
  {
    hide WalkOf;
    hide Resealed;
    hide Appended;
    var s := Run(seed, steps);
    RunsStayReachable(seed, steps);
    if |rs| == 0 {
      assert steps + Reseals(rs) == steps;
    } else {
      var more := steps + [Reseal(rs[0], Complete)];
      assert more[..|more| - 1] == steps && more[|more| - 1] == Reseal(rs[0], Complete);
      OneResealStep(seed, s, rs[0]);
      ResealStepsReseal(seed, more, rs[1..]);
      assert steps + Reseals(rs) == more + Reseals(rs[1..]);
    }
  }

  lemma OneResealStep(seed: Seed, s: State, r: Request)
    requires Reachable(s) && s.logger == Some(LastHead(s.lines))
    ensures var t := Next(seed, s, Reseal(r, Complete));
            t.lines == Resealed(seed, s.lines, r) && t.logger == Some(LastHead(t.lines))
  {
    WalkFindsFirstUnacked(seed, s.lines);
    assert PrevAt(s.lines, |s.lines|) == Bytes(LastHead(s.lines));
  }

  lemma {:induction false} RunHeadsAreMacs(seed: Seed, steps: seq<Step>, i: nat)
    requires i < |Run(seed, steps).lines|
    ensures var l := Run(seed, steps).lines[i];
            l.Entry? && l.head.Head? && l.head.digest.Mac? && l.head.digest.event == l.event
  {
    var n := |steps|;
    var before := Run(seed, steps[..n - 1]);
    RunsStayReachable(seed, steps[..n - 1]);
    NextStaysReachable(seed, before, steps[n - 1]);
    if i < |before.lines| {
      RunHeadsAreMacs(seed, steps[..n - 1], i);
      assert Run(seed, steps).lines[i] == before.lines[i];
    }
  }

  /**
   Whatever a run did to its log, restarting and then resealing often enough makes the
   verifier accept it exactly when breaks that share a recorded value expect the same MAC.
   */
  lemma RestartAndResealRepairs(seed: Seed, steps: seq<Step>)
    ensures var lines := Run(seed, steps).lines;
            && AllReadable(lines)
            && (BreaksAgree(seed, lines) <==>
                exists rs :: WalkOf(seed, Run(seed, steps + [Start(true)] + Reseals(rs)).lines).badIndex == -1)
  {
    hide BreaksAgree;
    hide WalkOf;
    var lines := Run(seed, steps).lines;
    RunsStayReachable(seed, steps);
    forall rs ensures Run(seed, steps + [Start(true)] + Reseals(rs)).lines == ResealedAll(seed, lines, rs) {
      RestartThenReseal(seed, steps, rs);
    }
    ResealTerminatesExactlyWhen(seed, lines, AnyRequest());
    if BreaksAgree(seed, lines) {
      var rs :| WalkOf(seed, ResealedAll(seed, lines, rs)).badIndex == -1;
      assert WalkOf(seed, Run(seed, steps + [Start(true)] + Reseals(rs)).lines).badIndex == -1;
    }
    if rs :| WalkOf(seed, Run(seed, steps + [Start(true)] + Reseals(rs)).lines).badIndex == -1 {
      assert WalkOf(seed, ResealedAll(seed, lines, rs)).badIndex == -1;
    }
  }

  function AnyRequest(): Request {
    Request(Fields(0, "", "", "", "", "", "", "", "", "", "", 0, 0, "", "", "", ""), "", "")
  }

  lemma {:induction false} RestartThenReseal(seed: Seed, steps: seq<Step>, rs: seq<Request>)
    ensures AllReadable(Run(seed, steps).lines)
    ensures Run(seed, steps + [Start(true)] + Reseals(rs)).lines == ResealedAll(seed, Run(seed, steps).lines, rs)
  {
    var restarted := steps + [Start(true)];
    assert restarted[..|steps|] == steps;
    StartRestoresHead(seed, steps);
    RunsStayReachable(seed, steps);
    ResealStepsReseal(seed, restarted, rs);
  }

  /** When no two lines carry the same time it takes one reseal per unacknowledged break, and no fewer. */
  lemma {:induction false} DistinctTimesNeedOneResealEach(seed: Seed, steps: seq<Step>, rs: seq<Request>)
    requires DistinctTimes(Run(seed, steps).lines)
    ensures var lines := Run(seed, steps).lines;
            var repaired := Run(seed, steps + [Start(true)] + Reseals(rs)).lines;
            && AllReadable(lines) && lines <= repaired
            && (WalkOf(seed, repaired).badIndex == -1 <==> |UnackedBreaks(seed, lines)| <= |rs|)
  {
    var lines := Run(seed, steps).lines;
    RestartThenReseal(seed, steps, rs);
    forall i, j | 0 <= i < j < |lines| ensures lines[i].head != lines[j].head {
      RunHeadsAreMacs(seed, steps, i);
      RunHeadsAreMacs(seed, steps, j);
    }
    OneResealPerBreak(seed, lines, rs);
  }

  /**
   A run whose log no number of reseals repairs: three head updates are lost in a row, and the
   second and fourth line hold the same event, time included.
   */
  lemma SomeRunsAreBeyondRepair(seed: Seed, x: Event, e: Event, y: Event)
    requires x != y
    ensures var steps := [Start(true), Append(x, HeadNotStored), Append(e, HeadNotStored),
                          Append(y, HeadNotStored), Append(e, Complete)];
            forall rs :: WalkOf(seed, Run(seed, steps + [Start(true)] + Reseals(rs)).lines).badIndex != -1
  {
    hide WalkOf;
    var a, b, c := Start(true), Append(x, HeadNotStored), Append(e, HeadNotStored);
    var d, f := Append(y, HeadNotStored), Append(e, Complete);
    var steps := [a, b, c, d, f];
    var s0 := State([], Empty, Some(Empty));
    RunSnoc(seed, [], a);
    RunSnoc(seed, [a], b);
    RunSnoc(seed, [a, b], c);
    RunSnoc(seed, [a, b, c], d);
    RunSnoc(seed, [a, b, c, d], f);
    assert [] + [a] == [a] && [a] + [b] == [a, b] && [a, b] + [c] == [a, b, c] && [a, b, c] + [d] == [a, b, c, d];
    assert [a, b, c, d] + [f] == steps;
    assert Run(seed, [a]) == s0;
    var lines := Run(seed, steps).lines;
    assert lines == [Unlinked(seed, x), Unlinked(seed, e), Unlinked(seed, y), Unlinked(seed, e)];
    RestartAndResealRepairs(seed, steps);
    assert lines[1].head == lines[3].head && lines[0].head != lines[2].head;
    assert !BreaksAgree(seed, lines) by {
      assert !VerifiesAt(seed, lines, 1) && !VerifiesAt(seed, lines, 3);
      assert ExpectedAt(seed, lines, 1) != ExpectedAt(seed, lines, 3);
    }
  }

  /** A line written as if it were the first. */
  function Unlinked(seed: Seed, e: Event): Line {
    Entry(e, Head(Mac(seed, None, e)))
  }

  lemma RunSnoc(seed: Seed, steps: seq<Step>, step: Step)
    ensures Run(seed, steps + [step]) == Next(seed, Run(seed, steps), step)
  {
    assert (steps + [step])[..|steps|] == steps;
  }
}
