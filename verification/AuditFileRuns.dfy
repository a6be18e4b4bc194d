/**
 Whole runs over the files themselves: what each of the logger's operations does to the
 directory, the stored head and the head in memory, from an empty vault on, while the
 month goes forward; and that this is the run model's run.
 */
module AuditFileRuns {
  import opened Wrappers
  import opened AuditChain
  import opened AuditTamper
  import opened AuditReseal
  import opened AuditRuns
  import opened AuditFiles
  import opened AuditTail
  import opened AuditTears

  // ---- Faults ------------------------------------------------------------------------

  /** Where one append fails: opening the file, part way through the write, syncing it, or storing the head. */
  datatype Fault = NoFault | OpenFails | ShortWrite(written: nat) | SyncFails | StoreFails

  /** How far a fault lets an append get that leaves the log the event or nothing. */
  function OutcomeOf(f: Fault): Outcome {
    match f
    case NoFault => Complete
    case OpenFails => NotWritten
    case ShortWrite(written) => if written == 0 then NotWritten else HeadNotStored
    case SyncFails => HeadNotStored
    case StoreFails => HeadNotStored
  }

  /** What reaches the file of a line. */
  function Put(f: Fault, line: Text): Text {
    if f == OpenFails then [] else if f.ShortWrite? && f.written < |line| then line[..f.written] else line
  }

  /** Of a line of this length all reaches the file, or nothing. */
  predicate AllOrNothing(f: Fault, length: nat) {
    f.ShortWrite? ==> f.written == 0 || f.written >= length
  }

  // ---- A file that takes a line ----------------------------------------------------------

  /** A write to this file lands at the end of the log, on a line of its own. */
  ghost predicate Ready(d: Dir, month: string) {
    WellFormed(d) && Newest(d, month) && Finished(FileText(d, month))
  }

  /** A file ready to take a line stays so, and later months' files are ready as well. */
  lemma ReadyLater(d: Dir, month: string, later: string)
    requires Ready(d, month) && StrLe(month, later)
    ensures Ready(d, later)
  {
    hide StrLe;
    forall n | n in d.names ensures StrLe(n, later) {
      StrLeTransitive(n, month, later);
    }
    if later in d.names {
      StrLeTotal(month, later);
    }
  }

  /** A whole line at the end of a finished newest file is one more entry of the log. */
  lemma WholeLineAppends(c: Codec, d: Dir, month: string, e: Event, h: Hex)
    requires Lawful(c) && Ready(d, month) && h.Head?
    ensures var after := WithAppended(d, month, LineText(c, e, h));
            LogOf(c, after) == LogOf(c, d) + [Entry(e, h)] && Ready(after, month)
  {
    FormIsNonEmpty(c, e, h);
    CutWriteIsHandled(c, d, month, e, h, LineText(c, e, h));
    StrLeTotal(month, month);
    AppendToFinished(d, month, LineText(c, e, h));
  }

  /** A line that lacks its newline is an entry of the log all the same. */
  lemma BareLineAppends(c: Codec, d: Dir, month: string, e: Event, h: Hex)
    requires Lawful(c) && Ready(d, month) && h.Head?
    ensures LogOf(c, WithAppended(d, month, c.marshal(e, h))) == LogOf(c, d) + [Entry(e, h)]
  {
    FormIsNonEmpty(c, e, h);
    CutWriteIsHandled(c, d, month, e, h, c.marshal(e, h));
  }

  lemma NothingAppends(c: Codec, d: Dir, month: string)
    requires WellFormed(d) && Newest(d, month)
    ensures LogOf(c, WithAppended(d, month, [])) == LogOf(c, d)
  {
    var older := AppendToNewest(d, month, []);
    assert FileText(d, month) + [] == FileText(d, month);
  }

  lemma StaysNewest(d: Dir, month: string, bytes: Text)
    requires WellFormed(d) && Newest(d, month)
    ensures WellFormed(WithAppended(d, month, bytes)) && Newest(WithAppended(d, month, bytes), month)
  {
    StrLeTotal(month, month);
    var older := AppendToNewest(d, month, bytes);
  }

  lemma NewestLater(d: Dir, month: string, later: string)
    requires Newest(d, month) && StrLe(month, later)
    ensures Newest(d, later)
  {
    hide StrLe;
    forall n | n in d.names ensures StrLe(n, later) {
      StrLeTransitive(n, month, later);
    }
  }

  // ---- Months ------------------------------------------------------------------------

  datatype Write = Write(month: string, event: Event, head: Hex)

  function WrittenFrom(c: Codec, d: Dir, ws: seq<Write>): Dir {
    if |ws| == 0 then d
    else
      var w := ws[|ws| - 1];
      var before := WrittenFrom(c, d, ws[..|ws| - 1]);
      WithAppended(before, w.month, LineText(c, w.event, w.head))
  }

  function EntriesOf(ws: seq<Write>): seq<Line> {
    seq(|ws|, i requires 0 <= i < |ws| => Entry(ws[i].event, ws[i].head))
  }

  const NO_FILES := Dir([], map[])

  /** While months never go backwards the files, in name order, hold what was written in the order it was. */
  lemma {:induction false} WrittenInOrder(c: Codec, ws: seq<Write>, month: string)
    requires Lawful(c) && forall i | 0 <= i < |ws| :: ws[i].head.Head? && StrLe(ws[i].month, month)
    requires forall i, j | 0 <= i < j < |ws| :: StrLe(ws[i].month, ws[j].month)
    ensures LogOf(c, WrittenFrom(c, NO_FILES, ws)) == EntriesOf(ws)
    ensures Ready(WrittenFrom(c, NO_FILES, ws), month)
  {
    hide StrLe;
    hide LogOf;
    hide Ready;
    hide WithAppended;
    if |ws| == 0 {
      EmptyVault(c, month);
    } else {
      var n := |ws| - 1;
      var w := ws[n];
      WrittenInOrder(c, ws[..n], w.month);
      var before := WrittenFrom(c, NO_FILES, ws[..n]);
      WholeLineAppends(c, before, w.month, w.event, w.head);
      ReadyLater(WithAppended(before, w.month, LineText(c, w.event, w.head)), w.month, month);
      assert EntriesOf(ws) == EntriesOf(ws[..n]) + [Entry(w.event, w.head)];
    }
  }

  lemma EmptyVault(c: Codec, month: string)
    ensures LogOf(c, NO_FILES) == [] && Ready(NO_FILES, month)
  {
  }

  // ---- The logger's operations on files ------------------------------------------------------

  /** The directory, the head in the metadata store, and the head a running logger holds in memory. */
  datatype Files = Files(dir: Dir, stored: Hex, logger: Option<Hex>)

  const EMPTY_VAULT := Files(NO_FILES, Empty, None)

  datatype Call =
    | Open(storeWorks: bool)
    | Die
    | Log(event: Event, month: string, fault: Fault)
    | Acknowledge(request: Request, month: string, fault: Fault)

  function View(c: Codec, s: Files): State {
    State(LogOf(c, s.dir), s.stored, s.logger)
  }

  function HeadAfter(seed: Seed, prev: Hex, e: Event): Hex {
    if prev.Malformed? then Empty else Head(Mac(seed, Bytes(prev), e))
  }

  /** One append by a logger holding prev: some of the line, or all, then the stored head, then the head in memory. */
  function Appending(c: Codec, seed: Seed, s: Files, prev: Hex, e: Event, month: string, fault: Fault): Files {
    if prev.Malformed? || fault == OpenFails then s
    else
      var head := HeadAfter(seed, prev, e);
      var line := LineText(c, e, head);
      var dir := WithAppended(s.dir, month, Put(fault, line));
      if fault == NoFault then Files(dir, head, Some(head)) else s.(dir := dir)
  }

  function Opening(c: Codec, s: Files, storeWorks: bool): Files {
    var t := Started(View(c, s), storeWorks);
    Files(s.dir, t.stored, t.logger)
  }

  /** There is a break, and nothing else wrong, to acknowledge. */
  predicate HasBreak(w: Walk) {
    w.error == NoError && w.badIndex >= 0
  }

  /** The event a call appends, if it gets that far. */
  function CallEvent(c: Codec, seed: Seed, s: Files, call: Call): Option<Event> {
    if call.Log? && s.logger.Some? then Some(call.event)
    else if call.Acknowledge? && s.logger.Some? then
      var w := WalkOf(seed, LogOf(c, s.dir));
      if HasBreak(w) then Some(ResealEvent(w, call.request.fields, call.request.reason, call.request.ackedBy)) else None
    else None
  }

  function After(c: Codec, seed: Seed, s: Files, call: Call): Files {
    match call
    case Open(works) => Opening(c, s, works)
    case Die => s.(logger := None)
    case _ =>
      var e := CallEvent(c, seed, s, call);
      if e.None? then s else Appending(c, seed, s, s.logger.value, e.value, call.month, call.fault)
  }

  /** Acknowledging a break is logging a marker; without one it is nothing. */
  lemma AcknowledgingIsLogging(c: Codec, seed: Seed, s: Files, call: Call)
    requires call.Acknowledge? && s.logger.Some?
    ensures var w := WalkOf(seed, LogOf(c, s.dir));
            var r := call.request;
            After(c, seed, s, call) ==
              if HasBreak(w) then After(c, seed, s, Log(ResealEvent(w, r.fields, r.reason, r.ackedBy), call.month, call.fault))
              else s
  {
    hide WalkOf;
    hide LogOf;
    hide Appending;
  }

  function Called(c: Codec, seed: Seed, calls: seq<Call>): Files {
    if |calls| == 0 then EMPTY_VAULT
    else After(c, seed, Called(c, seed, calls[..|calls| - 1]), calls[|calls| - 1])
  }

  predicate Writes(call: Call) {
    call.Log? || call.Acknowledge?
  }

  /** No call's month sorts before an earlier one's. */
  ghost predicate MonthsForward(calls: seq<Call>) {
    forall i, j | 0 <= i < j < |calls| && Writes(calls[i]) && Writes(calls[j]) :: StrLe(calls[i].month, calls[j].month)
  }

  ghost predicate NoneLaterThan(calls: seq<Call>, month: string) {
    forall i | 0 <= i < |calls| && Writes(calls[i]) :: StrLe(calls[i].month, month)
  }

  /** The call tears a line: it stops inside its own, or writes behind an unfinished one. */
  predicate Tearing(c: Codec, seed: Seed, s: Files, call: Call) {
    var e := CallEvent(c, seed, s, call);
    e.Some? && !s.logger.value.Malformed? && call.fault != OpenFails &&
    var head := HeadAfter(seed, s.logger.value, e.value);
    Tears(c, FileText(s.dir, call.month), e.value, head, Put(call.fault, LineText(c, e.value, head)))
  }

  predicate NoTears(c: Codec, seed: Seed, calls: seq<Call>) {
    |calls| > 0 ==>
      && NoTears(c, seed, calls[..|calls| - 1])
      && !Tearing(c, seed, Called(c, seed, calls[..|calls| - 1]), calls[|calls| - 1])
  }

  /** The run model's step for a call. */
  function StepOf(call: Call): Step {
    match call
    case Open(works) => Start(works)
    case Die => Crash
    case Log(e, _, fault) => Append(e, OutcomeOf(fault))
    case Acknowledge(r, _, fault) => Reseal(r, OutcomeOf(fault))
  }

  function StepsOf(calls: seq<Call>): (steps: seq<Step>)
    ensures |steps| == |calls|
  {
    seq(|calls|, i requires 0 <= i < |calls| => StepOf(calls[i]))
  }

  // ---- A run over files is a run -----------------------------------------------------------

  /** An append that tears nothing is the run model's; when all of its line is written, or nothing, the file stays ready. */
  lemma AppendingIsAppended(c: Codec, seed: Seed, s: Files, prev: Hex, e: Event, month: string, fault: Fault)
    requires Lawful(c) && WellFormed(s.dir) && Newest(s.dir, month) && s.logger == Some(prev)
    requires !prev.Malformed? && fault != OpenFails ==>
               var head := HeadAfter(seed, prev, e);
               !Tears(c, FileText(s.dir, month), e, head, Put(fault, LineText(c, e, head)))
    ensures var t := Appending(c, seed, s, prev, e, month, fault);
            && View(c, t) == Appended(seed, View(c, s), prev, e, OutcomeOf(fault))
            && WellFormed(t.dir) && Newest(t.dir, month)
            && (Ready(s.dir, month) && AllOrNothing(fault, |LineText(c, e, HeadAfter(seed, prev, e))|) ==> Ready(t.dir, month))
  {
    hide LogOf;
    hide WellFormed;
    hide Newest;
    hide WithAppended;
    hide Lawful;
    hide FileText;
    if !prev.Malformed? && fault != OpenFails {
      var head := HeadAfter(seed, prev, e);
      var line, form := LineText(c, e, head), c.marshal(e, head);
      var b := Put(fault, line);
      FormIsNonEmpty(c, e, head);
      StaysNewest(s.dir, month, b);
      if |b| == 0 {
        assert b == [];
        NothingAppends(c, s.dir, month);
        FileAfter(s.dir, month, b);
      } else if |b| == |form| {
        assert b == line[..|b|] == form;
        BareLineAppends(c, s.dir, month, e, head);
      } else {
        assert b == line;
        WholeLineAppends(c, s.dir, month, e, head);
      }
    }
  }

  lemma FileAfter(d: Dir, month: string, b: Text)
    ensures FileText(WithAppended(d, month, b), month) == FileText(d, month) + b
  {
  }

  /** On a file that is ready, writing all of a line or nothing tears none. */
  lemma WholeLinesTearNone(c: Codec, raw: Text, e: Event, h: Hex, fault: Fault)
    requires Finished(raw) && AllOrNothing(fault, |LineText(c, e, h)|)
    ensures !Tears(c, raw, e, h, Put(fault, LineText(c, e, h)))
  {
  }

  lemma AfterIsNext(c: Codec, seed: Seed, s: Files, call: Call)
    requires Lawful(c) && WellFormed(s.dir) && (Writes(call) ==> Newest(s.dir, call.month)) && !Tearing(c, seed, s, call)
    ensures var t := After(c, seed, s, call);
            && View(c, t) == Next(seed, View(c, s), StepOf(call))
            && WellFormed(t.dir) && (t.dir == s.dir || (Writes(call) && Newest(t.dir, call.month)))
  {
    hide LogOf;
    hide WellFormed;
    hide Newest;
    hide WalkOf;
    hide Appending;
    hide Appended;
    hide Ready;
    hide Tears;
    hide Put;
    var e := CallEvent(c, seed, s, call);
    if e.Some? {
      AppendingIsAppended(c, seed, s, s.logger.value, e.value, call.month, call.fault);
    }
  }

  /** The same for a call that finds its file ready and writes all of a line or nothing: the file stays ready. */
  lemma WholeAfterIsNext(c: Codec, seed: Seed, s: Files, call: Call)
    requires Lawful(c) && Writes(call) && Ready(s.dir, call.month) && WholeLine(c, seed, s, call)
    ensures !Tearing(c, seed, s, call)
    ensures View(c, After(c, seed, s, call)) == Next(seed, View(c, s), StepOf(call))
    ensures Ready(After(c, seed, s, call).dir, call.month)
  {
    hide LogOf;
    hide WellFormed;
    hide Newest;
    hide WalkOf;
    hide Appending;
    hide Appended;
    hide Tears;
    hide Put;
    var e := CallEvent(c, seed, s, call);
    if e.Some? {
      var head := HeadAfter(seed, s.logger.value, e.value);
      WholeLinesTearNone(c, FileText(s.dir, call.month), e.value, head, call.fault);
      AppendingIsAppended(c, seed, s, s.logger.value, e.value, call.month, call.fault);
    }
    AfterIsNext(c, seed, s, call);
  }

  /** The call writes all of its line, or nothing. */
  predicate WholeLine(c: Codec, seed: Seed, s: Files, call: Call)
    requires Writes(call)
  {
    var e := CallEvent(c, seed, s, call);
    e.Some? ==> AllOrNothing(call.fault, |LineText(c, e.value, HeadAfter(seed, s.logger.value, e.value))|)
  }

  /**
   Whatever calls follow one another from an empty vault on, as long as months never go
   backwards and no line is torn, the files hold the run model's log.
   */
  lemma {:induction false} FileRunIsRun(c: Codec, seed: Seed, calls: seq<Call>)
    requires Lawful(c) && MonthsForward(calls) && NoTears(c, seed, calls)
    ensures var s := Called(c, seed, calls);
            && View(c, s) == Run(seed, StepsOf(calls)) && WellFormed(s.dir)
            && forall month | NoneLaterThan(calls, month) :: Newest(s.dir, month)
  {
    hide StrLe;
    hide LogOf;
    hide WellFormed;
    hide Newest;
    hide After;
    hide Next;
    hide StepOf;
    hide Tearing;
    hide Ready;
    if |calls| == 0 {
      forall month ensures Newest(NO_FILES, month) && WellFormed(NO_FILES) && LogOf(c, NO_FILES) == [] {
        EmptyVault(c, month);
      }
      EmptyVault(c, "");
    } else {
      var n := |calls| - 1;
      var call, s := calls[n], Called(c, seed, calls[..n]);
      FileRunIsRun(c, seed, calls[..n]);
      assert Writes(call) ==> NoneLaterThan(calls[..n], call.month);
      AfterIsNext(c, seed, s, call);
      var steps := StepsOf(calls);
      assert steps[..n] == StepsOf(calls[..n]) && steps[n] == StepOf(call);
      forall month | NoneLaterThan(calls, month) ensures Newest(After(c, seed, s, call).dir, month) {
        assert NoneLaterThan(calls[..n], month);
        assert Writes(call) ==> StrLe(call.month, month);
        if After(c, seed, s, call).dir != s.dir {
          NewestLater(After(c, seed, s, call).dir, call.month, month);
        }
      }
    }
  }

  /** No write stops part way. */
  predicate NoShortWrites(calls: seq<Call>) {
    forall i | 0 <= i < |calls| && Writes(calls[i]) && calls[i].fault.ShortWrite? :: calls[i].fault.written == 0
  }

  /** Then no line is torn, and the file of any month not yet past takes a line. */
  lemma {:induction false} WithoutShortWritesNoTears(c: Codec, seed: Seed, calls: seq<Call>)
    requires Lawful(c) && MonthsForward(calls) && NoShortWrites(calls)
    ensures NoTears(c, seed, calls)
    ensures forall month | NoneLaterThan(calls, month) :: Ready(Called(c, seed, calls).dir, month)
  {
    hide StrLe;
    hide Ready;
    hide After;
    hide Tearing;
    if |calls| == 0 {
      forall month ensures Ready(NO_FILES, month) {
        EmptyVault(c, month);
      }
    } else {
      var n := |calls| - 1;
      var call, s := calls[n], Called(c, seed, calls[..n]);
      WithoutShortWritesNoTears(c, seed, calls[..n]);
      if Writes(call) {
        assert NoneLaterThan(calls[..n], call.month);
        assert AllOrNothing(call.fault, 0);
        ShortWritesAreNone(c, seed, s, call);
        WholeAfterIsNext(c, seed, s, call);
      } else {
        NoWriteNoTear(c, seed, s, call);
      }
      forall month | NoneLaterThan(calls, month) ensures Ready(After(c, seed, s, call).dir, month) {
        assert NoneLaterThan(calls[..n], month);
        if Writes(call) {
          assert StrLe(call.month, month);
          ReadyLater(After(c, seed, s, call).dir, call.month, month);
        }
      }
    }
  }

  lemma ShortWritesAreNone(c: Codec, seed: Seed, s: Files, call: Call)
    requires Writes(call) && (call.fault.ShortWrite? ==> call.fault.written == 0)
    ensures WholeLine(c, seed, s, call)
  {
  }

  lemma NoWriteNoTear(c: Codec, seed: Seed, s: Files, call: Call)
    requires !Writes(call)
    ensures !Tearing(c, seed, s, call) && After(c, seed, s, call).dir == s.dir
  {
    hide Started;
  }

  // ---- Torn for good ------------------------------------------------------------------------

  lemma AfterKeepsPieces(c: Codec, seed: Seed, s: Files, call: Call)
    requires Lawful(c) && DirPieced(c, s.dir)
    ensures var t := After(c, seed, s, call);
            && DirPieced(c, t.dir)
            && (DirBroken(c, t.dir) <==> DirBroken(c, s.dir) || Tearing(c, seed, s, call))
  {
    hide DirPieced;
    hide DirBroken;
    hide Lawful;
    hide Tears;
    hide WalkOf;
    hide LogOf;
    hide WithAppended;
    hide LineText;
    hide Started;
    var e := CallEvent(c, seed, s, call);
    if e.Some? && !s.logger.value.Malformed? && call.fault != OpenFails {
      var head := HeadAfter(seed, s.logger.value, e.value);
      DirAppendPieces(c, s.dir, call.month, e.value, head, Put(call.fault, LineText(c, e.value, head)));
    }
  }

  /** The files hold a line that was not written in one piece exactly when some call tore one. */
  lemma {:induction false} BrokenExactlyWhenTorn(c: Codec, seed: Seed, calls: seq<Call>)
    requires Lawful(c)
    ensures var d := Called(c, seed, calls).dir;
            DirPieced(c, d) && (DirBroken(c, d) <==> !NoTears(c, seed, calls))
  {
    hide After;
    hide Tearing;
    hide Lawful;
    if |calls| == 0 {
      assert forall name :: FileText(NO_FILES, name) == [];
      SplitNothing();
    } else {
      hide DirPieced;
      hide DirBroken;
      var n := |calls| - 1;
      BrokenExactlyWhenTorn(c, seed, calls[..n]);
      AfterKeepsPieces(c, seed, Called(c, seed, calls[..n]), calls[n]);
    }
  }

  lemma {:induction false} TearsStay(c: Codec, seed: Seed, calls: seq<Call>, n: nat)
    requires n <= |calls| && !NoTears(c, seed, calls[..n])
    ensures !NoTears(c, seed, calls)
    decreases |calls|
  {
    hide Tearing;
    if n == |calls| {
      assert calls[..n] == calls;
    } else {
      var before := calls[..|calls| - 1];
      assert before[..n] == calls[..n];
      TearsStay(c, seed, before, n);
    }
  }

  /** Once a call has torn a line nothing that follows makes the verifier accept the files again. */
  lemma {:induction false} TornRunsNeverVerify(c: Codec, seed: Seed, calls: seq<Call>, n: nat)
    requires Lawful(c) && n <= |calls| && !NoTears(c, seed, calls[..n])
    ensures WalkOf(seed, LogOf(c, Called(c, seed, calls).dir)).badIndex >= 0
  {
    hide LogOf;
    hide WalkOf;
    hide Called;
    hide NoTears;
    hide DirBroken;
    hide Lawful;
    TearsStay(c, seed, calls, n);
    BrokenExactlyWhenTorn(c, seed, calls);
    BrokenIsReported(c, seed, Called(c, seed, calls).dir);
  }

  // ---- When the files verify --------------------------------------------------------------------

  /**
   Whatever the calls and whatever fails in them, while months never go backwards: the
   verifier finds the files intact, with nothing acknowledged, exactly when no call tore a line
   and none wrote behind a lost head.
   */
  lemma {:induction false} FilesIntactExactlyWhen(c: Codec, seed: Seed, calls: seq<Call>)
    requires Lawful(c) && MonthsForward(calls)
    ensures var w := WalkOf(seed, LogOf(c, Called(c, seed, calls).dir));
            (w.badIndex == -1 && w.acked == 0) <==> NoTears(c, seed, calls) && CountForks(seed, StepsOf(calls)) == 0
  {
    hide LogOf;
    hide WalkOf;
    hide CountForks;
    hide Called;
    hide NoTears;
    hide Lawful;
    hide MonthsForward;
    if NoTears(c, seed, calls) {
      FileRunIsRun(c, seed, calls);
      IntactExactlyWithoutForks(seed, StepsOf(calls));
    } else {
      assert calls[..|calls|] == calls;
      TornRunsNeverVerify(c, seed, calls, |calls|);
    }
  }

  /** The call may leave a line whose head is not stored. */
  predicate MayLoseHead(call: Call) {
    Writes(call) && (call.fault.ShortWrite? || call.fault == SyncFails || call.fault == StoreFails)
  }

  /** Whenever a head may be lost the process ends there and then. */
  predicate DiesOnLoss(calls: seq<Call>) {
    forall k | 0 <= k < |calls| - 1 && MayLoseHead(calls[k]) :: calls[k + 1].Die?
  }

  /**
   The invariant of the design, over the files: as long as a lost head ends the process and no
   line is torn, the log verifies with nothing acknowledged, and opening it leaves memory and
   store at the last recorded head.
   */
  lemma FailStopFilesAreIntact(c: Codec, seed: Seed, calls: seq<Call>)
    requires Lawful(c) && MonthsForward(calls) && NoTears(c, seed, calls) && DiesOnLoss(calls)
    ensures var s := Called(c, seed, calls);
            var lines := LogOf(c, s.dir);
            && WalkOf(seed, lines) == Walk(-1, |lines|, 0, Empty, Empty, NoError)
            && Opening(c, s, true) == Files(s.dir, LastHead(lines), Some(LastHead(lines)))
  {
    hide LogOf;
    hide WalkOf;
    hide Started;
    hide Called;
    hide NoTears;
    hide Lawful;
    FileRunIsRun(c, seed, calls);
    var steps := StepsOf(calls);
    forall k | 0 <= k < |steps| - 1 && LeavesHeadBehind(steps[k]) ensures steps[k + 1].Crash? {
      assert MayLoseHead(calls[k]);
    }
    FailStopRunsAreIntact(seed, steps);
    StartRestoresHead(seed, steps);
  }
}
