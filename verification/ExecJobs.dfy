/**
 Which rows of a process table are byn exec jobs, and that stopping all of them with
 everything beneath them reaches every process of the exec service account.
 */
module ExecJobs {
  import opened Wrappers
  import Text
  import opened ProcTree

  datatype PsRow = PsRow(pid: int, ppid: int, uid: int, command: string)

  datatype Job = Job(pid: int, command: string)

  // ---- Wrappers ------------------------------------------------------------------------

  function AfterLastSlash(s: string): (r: string)
    ensures '/' !in r && |r| <= |s| && r == s[|s| - |r|..]
    ensures |r| < |s| ==> s[|s| - |r| - 1] == '/'
  {
    if |s| == 0 || s[|s| - 1] == '/' then ""
    else AfterLastSlash(s[..|s| - 1]) + [s[|s| - 1]]
  }

  /** rest from k on, as a person would type it. */
  function From(rest: seq<string>, k: nat): string
    requires k <= |rest|
  {
    Text.Join(rest[k..], ' ')
  }

  /** What a summary names: what follows the first "--", else everything from the first bare token, else all. */
  predicate Summarizes(rest: seq<string>, r: string) {
    && (forall k | 0 <= k < |rest| && rest[k] == "--" && "--" !in rest[..k] :: r == Text.Join(rest[k + 1..], ' '))
    && ("--" !in rest ==>
          && (forall k | 0 <= k < |rest| && IsBare(rest[k]) && (forall i | 0 <= i < k :: !IsBare(rest[i])) :: r == Text.Join(rest[k..], ' '))
          && ((forall i | 0 <= i < |rest| :: !IsBare(rest[i])) ==> r == Text.Join(rest, ' ')))
  }

  predicate IsBare(a: string) {
    !("-" <= a)
  }

  function Summary(rest: seq<string>): string {
    if "--" in rest then From(rest, FirstDashes(rest) + 1)
    else From(rest, if FirstBare(rest) < |rest| then FirstBare(rest) else 0)
  }

  function FirstDashes(rest: seq<string>): (k: nat)
    requires "--" in rest
    ensures k < |rest| && rest[k] == "--" && "--" !in rest[..k]
  {
    if rest[0] == "--" then 0
    else
      var k := FirstDashes(rest[1..]);
      assert rest[..k + 1] == [rest[0]] + rest[1..][..k];
      k + 1
  }

  function FirstBare(rest: seq<string>): (k: nat)
    ensures k <= |rest| && (k < |rest| ==> IsBare(rest[k])) && forall i | 0 <= i < k :: !IsBare(rest[i])
  {
    if |rest| == 0 || IsBare(rest[0]) then 0 else 1 + FirstBare(rest[1..])
  }

  lemma {:induction false} OnlyFirstDashes(rest: seq<string>, k: nat)
    requires k < |rest| && rest[k] == "--" && "--" !in rest[..k]
    ensures k == FirstDashes(rest)
  {
    if k > 0 {
      assert rest[..k] == [rest[0]] + rest[1..][..k - 1];
      OnlyFirstDashes(rest[1..], k - 1);
    }
  }

  lemma SummaryNamesTheCommand(rest: seq<string>)
    ensures Summarizes(rest, Summary(rest))
  {
    hide Text.Join;
    hide IsBare;
    assert rest[0..] == rest;
    forall k | 0 <= k < |rest| && rest[k] == "--" && "--" !in rest[..k] ensures k == FirstDashes(rest) {
      OnlyFirstDashes(rest, k);
    }
  }

  method SummarizeExecCommand(rest: seq<string>) returns (r: string)
    ensures r == Summary(rest)
  {
    for i := 0 to |rest|
      invariant "--" !in rest[..i]
    {
      assert rest[..i + 1] == rest[..i] + [rest[i]];
      if rest[i] == "--" {
        OnlyFirstDashes(rest, i);
        return From(rest, i + 1);
      }
    }
    assert rest[..|rest|] == rest;
    for i := 0 to |rest|
      invariant forall j | 0 <= j < i :: !IsBare(rest[j])
    {
      if !("-" <= rest[i]) {
        return From(rest, i);
      }
    }
    return From(rest, 0);
  }

  /** The command a live `byn exec` wrapper was asked to run; None for any other command line. */
  function WrapperCommand(command: string): Option<string> {
    var tokens := Text.Fields(command);
    if |tokens| < 2 || tokens[1] != "exec" || AfterLastSlash(tokens[0]) != "byn" then None
    else Some(Summary(tokens[2..]))
  }

  /** The program a token names, by its last path element. */
  predicate Runs(token: string, program: string) {
    token == program || (|token| > |program| && token[|token| - |program| - 1..] == "/" + program)
  }

  lemma {:induction false} NothingAfterLast(lead: string, program: string)
    requires '/' !in program && (lead == "" || lead[|lead| - 1] == '/')
    ensures AfterLastSlash(lead + program) == program
  {
    hide AfterLastSlash;
    var n := |program| - 1;
    if n < 0 {
      assert lead + program == lead;
      EndsInSlash(lead);
    } else {
      var init, last := program[..n], program[n];
      assert last in program;
      NothingAfterLast(lead, init);
      OneMore(lead + init, last);
      assert program == init + [last];
      ConcatAssoc(lead, init, [last]);
    }
  }

  lemma EndsInSlash(s: string)
    requires s == "" || s[|s| - 1] == '/'
    ensures AfterLastSlash(s) == ""
  {
  }

  lemma OneMore(s: string, c: char)
    requires c != '/'
    ensures AfterLastSlash(s + [c]) == AfterLastSlash(s) + [c]
  {
    assert (s + [c])[..|s|] == s;
  }

  lemma LastElement(token: string, program: string)
    requires '/' !in program
    ensures AfterLastSlash(token) == program <==> Runs(token, program)
  {
    hide Runs;
    hide AfterLastSlash;
    if Runs(token, program) {
      RunsIsLast(token, program);
    }
    if AfterLastSlash(token) == program {
      LastRuns(token);
    }
  }

  lemma RunsIsLast(token: string, program: string)
    requires '/' !in program && Runs(token, program)
    ensures AfterLastSlash(token) == program
  {
    hide AfterLastSlash;
    if token == program {
      NothingAfterLast("", program);
      assert "" + program == program;
    } else {
      var n := |token| - |program|;
      var lead, tail := token[..n], token[n - 1..];
      assert tail[0] == '/' && tail[1..] == program && tail[1..] == token[n..];
      Halves(token, n);
      assert lead[n - 1] == tail[0];
      NothingAfterLast(lead, program);
    }
  }

  lemma LastRuns(token: string)
    ensures Runs(token, AfterLastSlash(token))
  {
    var base := AfterLastSlash(token);
    if |base| < |token| {
      var n := |token| - |base|;
      assert token[n - 1..] == [token[n - 1]] + token[n..];
    }
  }

  /**
   A command line is a wrapper's when its first word is byn, on whatever path, and its second
   is exec; what is reported is the command a person would recognise.
   */
  lemma WrappersAreBynExec(command: string)
    ensures var tokens := Text.Fields(command);
            && (WrapperCommand(command).Some? <==> |tokens| >= 2 && Runs(tokens[0], "byn") && tokens[1] == "exec")
            && (WrapperCommand(command).Some? ==> Summarizes(tokens[2..], WrapperCommand(command).value))
  {
    hide Text.Fields;
    hide AfterLastSlash;
    hide Runs;
    hide Summary;
    hide Summarizes;
    var tokens := Text.Fields(command);
    if |tokens| >= 2 {
      LastElement(tokens[0], "byn");
      SummaryNamesTheCommand(tokens[2..]);
    }
  }

  method IsBynExecWrapper(command: string) returns (r: Option<string>)
    ensures var tokens := Text.Fields(command);
            && (r.Some? <==> |tokens| >= 2 && Runs(tokens[0], "byn") && tokens[1] == "exec")
            && (r.Some? ==> Summarizes(tokens[2..], r.value))
    ensures r == WrapperCommand(command)
  {
    hide Text.Fields;
    hide AfterLastSlash;
    hide Runs;
    hide Summary;
    hide Summarizes;
    WrappersAreBynExec(command);
    var tokens := Text.Fields(command);
    if |tokens| < 2 || tokens[1] != "exec" {
      return None;
    }
    if AfterLastSlash(tokens[0]) != "byn" {
      return None;
    }
    var summary := SummarizeExecCommand(tokens[2..]);
    return Some(summary);
  }

  // ---- The classifier -------------------------------------------------------------------

  predicate SystemDaemonCommand(command: string) {
    "/usr/sbin/" <= command || "/usr/libexec/" <= command || "/System/" <= command
  }

  /** The daemons' commands are those under three system directories. */
  lemma DaemonsAreSystemPaths(command: string)
    ensures SystemDaemonCommand(command) <==>
            exists rest :: command == "/usr/sbin/" + rest || command == "/usr/libexec/" + rest || command == "/System/" + rest
  {
    if SystemDaemonCommand(command) {
      var n := if "/usr/sbin/" <= command then 10 else if "/usr/libexec/" <= command then 13 else 8;
      Halves(command, n);
      assert command == "/usr/sbin/" + command[n..] || command == "/usr/libexec/" + command[n..] || command == "/System/" + command[n..];
    }
  }

  predicate IsWrapper(r: PsRow) {
    WrapperCommand(r.command).Some?
  }

  predicate WrapperPid(rows: seq<PsRow>, pid: int) {
    exists i :: 0 <= i < |rows| && rows[i].pid == pid && IsWrapper(rows[i])
  }

  /** The account of pid: that of its last row. */
  function UidOf(rows: seq<PsRow>, pid: int): (u: Option<int>)
    ensures u.Some? ==> exists i :: 0 <= i < |rows| && rows[i].pid == pid && rows[i].uid == u.value
    ensures u.None? ==> forall i | 0 <= i < |rows| :: rows[i].pid != pid
  {
    if |rows| == 0 then None
    else
      var n := |rows| - 1;
      if rows[n].pid == pid then Some(rows[n].uid)
      else
        var u := UidOf(rows[..n], pid);
        assert forall i | 0 <= i < n :: rows[..n][i] == rows[i];
        u
  }

  /** Whether r hangs off neither a wrapper nor another process of the account. */
  predicate TopmostExecProc(rows: seq<PsRow>, r: PsRow, execUID: int) {
    !WrapperPid(rows, r.ppid) && UidOf(rows, r.ppid) != Some(execUID)
  }

  /** Whether a row that is no wrapper is a job. */
  predicate IsJob(rows: seq<PsRow>, r: PsRow, execUID: int, markers: set<int>) {
    || (execUID >= 0 && r.uid == execUID && !SystemDaemonCommand(r.command) && TopmostExecProc(rows, r, execUID))
    || r.pid in markers
  }

  /** The wrappers among the first n rows, in the table's order. */
  function WrapperJobs(rows: seq<PsRow>, n: nat): seq<Job>
    requires n <= |rows|
  {
    if n == 0 then []
    else
      WrapperJobs(rows, n - 1) +
      match WrapperCommand(rows[n - 1].command)
      case Some(cmd) => [Job(rows[n - 1].pid, cmd)]
      case None => []
  }

  predicate Has(jobs: seq<Job>, pid: int) {
    exists i :: 0 <= i < |jobs| && jobs[i].pid == pid
  }

  /** The wrappers, then each further job among the first n rows, by the first row of its pid that is one. */
  function Jobs(rows: seq<PsRow>, execUID: int, markers: set<int>, n: nat): seq<Job>
    requires n <= |rows|
  {
    if n == 0 then WrapperJobs(rows, |rows|)
    else
      var before := Jobs(rows, execUID, markers, n - 1);
      var r := rows[n - 1];
      if !Has(before, r.pid) && IsJob(rows, r, execUID, markers) then before + [Job(r.pid, r.command)] else before
  }

  lemma HasMore(jobs: seq<Job>, j: Job, pid: int)
    ensures Has(jobs + [j], pid) <==> Has(jobs, pid) || j.pid == pid
  {
    var more := jobs + [j];
    assert more[|jobs|] == j;
    if Has(jobs, pid) {
      var i :| 0 <= i < |jobs| && jobs[i].pid == pid;
      assert more[i].pid == pid;
    }
  }

  lemma UidOfNext(rows: seq<PsRow>, n: nat, pid: int)
    requires n < |rows|
    ensures UidOf(rows[..n + 1], pid) == if rows[n].pid == pid then Some(rows[n].uid) else UidOf(rows[..n], pid)
  {
    assert rows[..n + 1][..n] == rows[..n];
  }

  method ClassifyExecProcs(rows: seq<PsRow>, execUID: int, markers: set<int>) returns (out: seq<Job>)
    ensures out == Jobs(rows, execUID, markers, |rows|)
  {
    hide WrapperCommand;
    hide SystemDaemonCommand;
    hide Summarizes;
    hide Runs;
    hide Text.Fields;
    hide Has;
    hide UidOf;
    var wrappers, seen, uidOf := {}, {}, map[];
    EmptyTable(rows);
    for n := 0 to |rows|
      invariant forall pid :: UidOf(rows[..n], pid) == if pid in uidOf then Some(uidOf[pid]) else None
    {
      forall pid { UidOfNext(rows, n, pid); }
      uidOf := uidOf[rows[n].pid := rows[n].uid];
    }
    assert rows[..|rows|] == rows;
    out := [];
    for n := 0 to |rows|
      invariant out == WrapperJobs(rows, n)
      invariant forall pid :: pid in wrappers <==> exists i :: 0 <= i < n && rows[i].pid == pid && IsWrapper(rows[i])
      invariant forall pid :: pid in seen <==> Has(out, pid)
    {
      var cmd := IsBynExecWrapper(rows[n].command);
      if cmd.Some? {
        forall pid { HasMore(out, Job(rows[n].pid, cmd.value), pid); }
        wrappers, seen := wrappers + {rows[n].pid}, seen + {rows[n].pid};
        out := out + [Job(rows[n].pid, cmd.value)];
      }
    }
    assert forall pid :: pid in wrappers <==> WrapperPid(rows, pid);
    out := ClassifyOthers(rows, execUID, markers, wrappers, uidOf, seen, out);
  }

  lemma EmptyTable(rows: seq<PsRow>)
    ensures forall pid :: UidOf(rows[..0], pid) == None && !Has([], pid)
  {
  }

  /** The second loop over the table. */
  method ClassifyOthers(rows: seq<PsRow>, execUID: int, markers: set<int>, wrappers: set<int>, uidOf: map<int, int>,
                        seen0: set<int>, out0: seq<Job>) returns (out: seq<Job>)
    requires forall pid :: pid in wrappers <==> WrapperPid(rows, pid)
    requires forall pid :: UidOf(rows, pid) == if pid in uidOf then Some(uidOf[pid]) else None
    requires out0 == WrapperJobs(rows, |rows|) && forall pid :: pid in seen0 <==> Has(out0, pid)
    ensures out == Jobs(rows, execUID, markers, |rows|)
  {
    hide WrapperCommand;
    hide SystemDaemonCommand;
    hide Has;
    hide UidOf;
    hide WrapperPid;
    out := out0;
    var seen := seen0;
    for n := 0 to |rows|
      invariant out == Jobs(rows, execUID, markers, n)
      invariant forall pid :: pid in seen <==> Has(out, pid)
    {
      var r := rows[n];
      if r.pid in seen {
        continue;
      }
      forall pid { HasMore(out, Job(r.pid, r.command), pid); }
      var topmost := r.ppid !in wrappers && !(r.ppid in uidOf && uidOf[r.ppid] == execUID);
      if execUID >= 0 && r.uid == execUID && !SystemDaemonCommand(r.command) && topmost {
        seen := seen + {r.pid};
        out := out + [Job(r.pid, r.command)];
        continue;
      }
      if r.pid in markers {
        seen := seen + {r.pid};
        out := out + [Job(r.pid, r.command)];
      }
    }
  }

  // ---- Which processes are listed ----------------------------------------------------------

  lemma {:induction false} WrappersAreJobs(rows: seq<PsRow>, n: nat, pid: int)
    requires n <= |rows|
    ensures Has(WrapperJobs(rows, n), pid) <==> exists i :: 0 <= i < n && rows[i].pid == pid && IsWrapper(rows[i])
  {
    hide WrapperCommand;
    hide Has;
    if n == 0 {
      assert !Has([], pid) by { NoneHasNone(pid); }
    } else {
      WrappersAreJobs(rows, n - 1, pid);
      match WrapperCommand(rows[n - 1].command)
      case Some(cmd) => HasMore(WrapperJobs(rows, n - 1), Job(rows[n - 1].pid, cmd), pid);
      case None => assert WrapperJobs(rows, n) == WrapperJobs(rows, n - 1);
    }
  }

  lemma NoneHasNone(pid: int)
    ensures !Has([], pid)
  {
  }

  lemma {:induction false} ListedUpTo(rows: seq<PsRow>, execUID: int, markers: set<int>, n: nat, pid: int)
    requires n <= |rows|
    ensures Has(Jobs(rows, execUID, markers, n), pid) <==>
            WrapperPid(rows, pid) || exists i :: 0 <= i < n && rows[i].pid == pid && IsJob(rows, rows[i], execUID, markers)
  {
    hide WrapperCommand;
    hide Has;
    hide IsJob;
    if n == 0 {
      WrappersAreJobs(rows, |rows|, pid);
    } else {
      ListedUpTo(rows, execUID, markers, n - 1, pid);
      var r := rows[n - 1];
      HasMore(Jobs(rows, execUID, markers, n - 1), Job(r.pid, r.command), pid);
    }
  }

  /** A process is listed exactly when one of its rows is a wrapper's, is marked, or heads a job of the account. */
  lemma ListedExactlyWhen(rows: seq<PsRow>, execUID: int, markers: set<int>, pid: int)
    ensures Has(Jobs(rows, execUID, markers, |rows|), pid) <==>
            WrapperPid(rows, pid) || exists i :: 0 <= i < |rows| && rows[i].pid == pid && IsJob(rows, rows[i], execUID, markers)
  {
    ListedUpTo(rows, execUID, markers, |rows|, pid);
  }

  /** A listed job is named by a row of its pid: a wrapper by the command it was asked to run, another by its own command line. */
  lemma {:induction false} ListedCommand(rows: seq<PsRow>, execUID: int, markers: set<int>, n: nat, k: nat) returns (i: nat)
    requires n <= |rows| && k < |Jobs(rows, execUID, markers, n)|
    ensures i < |rows| && rows[i].pid == Jobs(rows, execUID, markers, n)[k].pid
    ensures var command := Jobs(rows, execUID, markers, n)[k].command;
            if k < |WrapperJobs(rows, |rows|)| then
              IsWrapper(rows[i]) && |Text.Fields(rows[i].command)| >= 2 && Summarizes(Text.Fields(rows[i].command)[2..], command)
            else IsJob(rows, rows[i], execUID, markers) && command == rows[i].command
  {
    hide IsJob;
    hide WrapperCommand;
    hide Summarizes;
    hide Text.Fields;
    hide Has;
    if n == 0 {
      i := WrapperNamed(rows, |rows|, k);
    } else {
      var before := Jobs(rows, execUID, markers, n - 1);
      WrappersComeFirst(rows, execUID, markers, n - 1);
      if k < |before| {
        i := ListedCommand(rows, execUID, markers, n - 1, k);
      } else {
        i := n - 1;
      }
    }
  }

  lemma {:induction false} WrappersComeFirst(rows: seq<PsRow>, execUID: int, markers: set<int>, n: nat)
    requires n <= |rows|
    ensures WrapperJobs(rows, |rows|) <= Jobs(rows, execUID, markers, n)
  {
    hide IsJob;
    hide WrapperCommand;
    hide Has;
    if n > 0 {
      WrappersComeFirst(rows, execUID, markers, n - 1);
    }
  }

  lemma {:induction false} WrapperNamed(rows: seq<PsRow>, n: nat, k: nat) returns (i: nat)
    requires n <= |rows| && k < |WrapperJobs(rows, n)|
    ensures i < n && rows[i].pid == WrapperJobs(rows, n)[k].pid
    ensures IsWrapper(rows[i]) && |Text.Fields(rows[i].command)| >= 2
    ensures Summarizes(Text.Fields(rows[i].command)[2..], WrapperJobs(rows, n)[k].command)
  {
    hide WrapperCommand;
    hide Summarizes;
    hide Text.Fields;
    if k < |WrapperJobs(rows, n - 1)| {
      i := WrapperNamed(rows, n - 1, k);
    } else {
      i := n - 1;
      WrappersAreBynExec(rows[i].command);
    }
  }

  /** No process is listed twice, unless the table itself shows a wrapper twice. */
  lemma {:induction false} ListedOnce(rows: seq<PsRow>, execUID: int, markers: set<int>, n: nat, i: nat, j: nat)
    requires n <= |rows| && i < j < |Jobs(rows, execUID, markers, n)|
    requires j >= |WrapperJobs(rows, |rows|)|
    ensures Jobs(rows, execUID, markers, n)[i].pid != Jobs(rows, execUID, markers, n)[j].pid
  {
    hide IsJob;
    hide Has;
    hide WrapperCommand;
    if n > 0 {
      var before := Jobs(rows, execUID, markers, n - 1);
      if j < |before| {
        ListedOnce(rows, execUID, markers, n - 1, i, j);
      } else if !Has(before, rows[n - 1].pid) {
        HasNoneAt(before, rows[n - 1].pid, i);
      }
    }
  }

  lemma HasNoneAt(jobs: seq<Job>, pid: int, i: nat)
    requires !Has(jobs, pid) && i < |jobs|
    ensures jobs[i].pid != pid
  {
  }

  // ---- Stopping every job reaches every process -----------------------------------------------

  function Procs(rows: seq<PsRow>): (procs: seq<Proc>)
    ensures |procs| == |rows|
    ensures forall i | 0 <= i < |rows| :: procs[i].pid == rows[i].pid && procs[i].ppid == rows[i].ppid
  {
    seq(|rows|, i requires 0 <= i < |rows| => Proc(rows[i].pid, rows[i].ppid, rows[i].uid, 0))
  }

  /** pid lies beneath some listed job: in what the walk from it lists. */
  ghost predicate Reached(rows: seq<PsRow>, execUID: int, markers: set<int>, pid: int) {
    exists job :: Has(Jobs(rows, execUID, markers, |rows|), job) && Beneath(Procs(rows), job, pid)
  }

  lemma ReachedBelow(rows: seq<PsRow>, execUID: int, markers: set<int>, i: nat)
    requires i < |rows| && Reached(rows, execUID, markers, rows[i].ppid)
    ensures Reached(rows, execUID, markers, rows[i].pid)
  {
    hide Has;
    hide Jobs;
    hide Beneath;
    var job :| Has(Jobs(rows, execUID, markers, |rows|), job) && Beneath(Procs(rows), job, rows[i].ppid);
    assert Procs(rows)[i].pid == rows[i].pid && Procs(rows)[i].ppid == rows[i].ppid;
    assert Child(Procs(rows), rows[i].ppid, rows[i].pid);
    ChildIsBeneath(Procs(rows), job, rows[i].ppid, rows[i].pid);
  }

  lemma JobIsReached(rows: seq<PsRow>, execUID: int, markers: set<int>, job: int)
    requires Has(Jobs(rows, execUID, markers, |rows|), job)
    ensures Reached(rows, execUID, markers, job)
  {
    hide Jobs;
    hide Has;
    RootIsWithin(Procs(rows), job, 0);
    assert Beneath(Procs(rows), job, job);
  }

  ghost predicate ExecRow(rows: seq<PsRow>, execUID: int, i: nat) {
    i < |rows| && rows[i].uid == execUID
  }

  /** A row of the account whose parent is of the account too, the parent's pid being b. */
  ghost predicate ExecLink(rows: seq<PsRow>, execUID: int, a: int, b: int) {
    UidOf(rows, b) == Some(execUID) && exists i: nat :: ExecRow(rows, execUID, i) && rows[i].pid == a && rows[i].ppid == b
  }

  /** n links up from a, all within the account, is b. */
  ghost predicate ExecChain(rows: seq<PsRow>, execUID: int, a: int, b: int, n: nat)
    decreases n
  {
    if n == 0 then a == b else exists c :: ExecChain(rows, execUID, a, c, n - 1) && ExecLink(rows, execUID, c, b)
  }

  /** b is above a, reached by links within the account. */
  ghost predicate Above(rows: seq<PsRow>, execUID: int, a: int, b: int) {
    exists n: nat :: n > 0 && ExecChain(rows, execUID, a, b, n)
  }

  /** A head of the account's processes that the classifier passes over: a system daemon's command, and nothing else to list it for. */
  ghost predicate PassedOver(rows: seq<PsRow>, execUID: int, markers: set<int>, i: nat) {
    && ExecRow(rows, execUID, i) && TopmostExecProc(rows, rows[i], execUID) && SystemDaemonCommand(rows[i].command)
    && !WrapperPid(rows, rows[i].pid) && rows[i].pid !in markers
  }

  /** A process of the account that is above itself, with neither a wrapper nor a marked process above it in the account. */
  ghost predicate Circling(rows: seq<PsRow>, execUID: int, markers: set<int>, i: nat) {
    && ExecRow(rows, execUID, i) && Above(rows, execUID, rows[i].pid, rows[i].pid)
    && forall b | Above(rows, execUID, rows[i].pid, b) :: !WrapperPid(rows, b) && b !in markers
  }

  ghost predicate Stuck(rows: seq<PsRow>, execUID: int, markers: set<int>, i: nat) {
    PassedOver(rows, execUID, markers, i) || Circling(rows, execUID, markers, i)
  }

  lemma {:induction false} ExecChainConcat(rows: seq<PsRow>, execUID: int, a: int, b: int, c: int, m: nat, n: nat)
    requires ExecChain(rows, execUID, a, b, m) && ExecChain(rows, execUID, b, c, n)
    ensures ExecChain(rows, execUID, a, c, m + n)
    decreases n
  {
    hide ExecLink;
    if n > 0 {
      var d :| ExecChain(rows, execUID, b, d, n - 1) && ExecLink(rows, execUID, d, c);
      ExecChainConcat(rows, execUID, a, b, d, m, n - 1);
    }
  }

  ghost function RowPids(rows: seq<PsRow>): set<int> {
    set r | r in rows :: r.pid
  }

  /**
   Climbing from a process of the account within the account, past the pids below it, ends at
   a job, or where the classifier is stuck; the process is reached if that is.
   */
  lemma {:induction false} ClimbReaches(rows: seq<PsRow>, execUID: int, markers: set<int>, i: nat, below: set<int>)
    requires execUID >= 0 && ExecRow(rows, execUID, i)
    requires forall k: nat | Stuck(rows, execUID, markers, k) :: Reached(rows, execUID, markers, rows[k].pid)
    requires rows[i].pid !in below
    requires forall x | x in below :: Above(rows, execUID, x, rows[i].pid)
    ensures Reached(rows, execUID, markers, rows[i].pid)
    decreases |RowPids(rows) - below|
  {
    hide Reached;
    hide Stuck;
    hide Above;
    hide Has;
    hide Jobs;
    hide WrapperPid;
    hide UidOf;
    hide ExecChain;
    hide RowPids;
    hide SystemDaemonCommand;
    var r := rows[i];
    if Has(Jobs(rows, execUID, markers, |rows|), r.pid) {
      JobIsReached(rows, execUID, markers, r.pid);
    } else if WrapperPid(rows, r.ppid) {
      ListedExactlyWhen(rows, execUID, markers, r.ppid);
      JobIsReached(rows, execUID, markers, r.ppid);
      ReachedBelow(rows, execUID, markers, i);
    } else if UidOf(rows, r.ppid) == Some(execUID) {
      LinkUp(rows, execUID, i);
      ChainsGrow(rows, execUID, below, r.pid, r.ppid);
      if r.ppid in below + {r.pid} {
        CircleReaches(rows, execUID, markers, i);
      } else {
        var k := AccountRow(rows, execUID, r.ppid);
        FewerLeft(rows, i, below);
        ClimbReaches(rows, execUID, markers, k, below + {r.pid});
        ReachedBelow(rows, execUID, markers, i);
      }
    } else {
      UnlistedHeadIsPassedOver(rows, execUID, markers, i);
    }
  }

  lemma FewerLeft(rows: seq<PsRow>, i: nat, below: set<int>)
    requires i < |rows| && rows[i].pid !in below
    ensures |RowPids(rows) - (below + {rows[i].pid})| < |RowPids(rows) - below|
  {
    assert rows[i] in rows && rows[i].pid in RowPids(rows) - below;
    assert RowPids(rows) - (below + {rows[i].pid}) == (RowPids(rows) - below) - {rows[i].pid};
  }

  lemma AccountRow(rows: seq<PsRow>, execUID: int, pid: int) returns (k: nat)
    requires UidOf(rows, pid) == Some(execUID)
    ensures ExecRow(rows, execUID, k) && rows[k].pid == pid
  {
    k :| 0 <= k < |rows| && rows[k].pid == pid && rows[k].uid == execUID;
  }

  /** A head of the account's processes is unlisted only for its command. */
  lemma UnlistedHeadIsPassedOver(rows: seq<PsRow>, execUID: int, markers: set<int>, i: nat)
    requires execUID >= 0 && ExecRow(rows, execUID, i) && TopmostExecProc(rows, rows[i], execUID)
    requires !Has(Jobs(rows, execUID, markers, |rows|), rows[i].pid)
    ensures PassedOver(rows, execUID, markers, i) && Stuck(rows, execUID, markers, i)
  {
    hide Jobs;
    hide Has;
    hide SystemDaemonCommand;
    hide TopmostExecProc;
    hide WrapperPid;
    ListedExactlyWhen(rows, execUID, markers, rows[i].pid);
  }

  lemma {:induction false} ReachedUpTheChain(rows: seq<PsRow>, execUID: int, markers: set<int>, a: int, b: int, n: nat)
    requires ExecChain(rows, execUID, a, b, n) && Reached(rows, execUID, markers, b)
    ensures Reached(rows, execUID, markers, a)
    decreases n
  {
    hide Reached;
    hide UidOf;
    if n > 0 {
      var c :| ExecChain(rows, execUID, a, c, n - 1) && ExecLink(rows, execUID, c, b);
      var i: nat :| ExecRow(rows, execUID, i) && rows[i].pid == c && rows[i].ppid == b;
      ReachedBelow(rows, execUID, markers, i);
      ReachedUpTheChain(rows, execUID, markers, a, c, n - 1);
    }
  }

  lemma CircleReaches(rows: seq<PsRow>, execUID: int, markers: set<int>, i: nat)
    requires execUID >= 0 && ExecRow(rows, execUID, i) && Above(rows, execUID, rows[i].pid, rows[i].pid)
    requires forall k: nat | Stuck(rows, execUID, markers, k) :: Reached(rows, execUID, markers, rows[k].pid)
    ensures Reached(rows, execUID, markers, rows[i].pid)
  {
    hide Reached;
    hide ExecChain;
    hide WrapperPid;
    hide PassedOver;
    if Circling(rows, execUID, markers, i) {
      assert Stuck(rows, execUID, markers, i);
    } else {
      var b :| Above(rows, execUID, rows[i].pid, b) && (WrapperPid(rows, b) || b in markers);
      AboveIsListed(rows, execUID, markers, rows[i].pid, b);
      JobIsReached(rows, execUID, markers, b);
      var n: nat :| n > 0 && ExecChain(rows, execUID, rows[i].pid, b, n);
      ReachedUpTheChain(rows, execUID, markers, rows[i].pid, b, n);
    }
  }

  lemma AboveIsListed(rows: seq<PsRow>, execUID: int, markers: set<int>, a: int, b: int)
    requires Above(rows, execUID, a, b) && (WrapperPid(rows, b) || b in markers)
    ensures Has(Jobs(rows, execUID, markers, |rows|), b)
  {
    hide Has;
    hide Jobs;
    hide WrapperPid;
    hide UidOf;
    ListedExactlyWhen(rows, execUID, markers, b);
    if b in markers {
      var n: nat :| n > 0 && ExecChain(rows, execUID, a, b, n);
      var c :| ExecChain(rows, execUID, a, c, n - 1) && ExecLink(rows, execUID, c, b);
      var k := AccountRow(rows, execUID, b);
      assert IsJob(rows, rows[k], execUID, markers);
    }
  }

  lemma LinkUp(rows: seq<PsRow>, execUID: int, i: nat)
    requires ExecRow(rows, execUID, i) && UidOf(rows, rows[i].ppid) == Some(execUID)
    ensures ExecChain(rows, execUID, rows[i].pid, rows[i].ppid, 1)
  {
    assert ExecLink(rows, execUID, rows[i].pid, rows[i].ppid);
    assert ExecChain(rows, execUID, rows[i].pid, rows[i].pid, 0);
  }

  lemma ChainsGrow(rows: seq<PsRow>, execUID: int, below: set<int>, pid: int, ppid: int)
    requires ExecChain(rows, execUID, pid, ppid, 1)
    requires forall x | x in below :: Above(rows, execUID, x, pid)
    ensures forall x | x in below + {pid} :: Above(rows, execUID, x, ppid)
    ensures ppid in below + {pid} ==> Above(rows, execUID, pid, pid)
  {
    hide ExecChain;
    forall x | x in below + {pid} ensures Above(rows, execUID, x, ppid) {
      if x in below {
        var n: nat :| n > 0 && ExecChain(rows, execUID, x, pid, n);
        ExecChainConcat(rows, execUID, x, pid, ppid, n, 1);
      }
    }
    if ppid in below {
      var n: nat :| n > 0 && ExecChain(rows, execUID, ppid, pid, n);
      ExecChainConcat(rows, execUID, pid, ppid, pid, 1, n);
    }
  }

  /** Without a stuck row every process of the account is in what some listed job's walk lists; in any table. */
  lemma KillAllReachesEveryProcess(rows: seq<PsRow>, execUID: int, markers: set<int>, i: nat)
    requires execUID >= 0 && ExecRow(rows, execUID, i)
    requires forall k: nat :: !Stuck(rows, execUID, markers, k)
    ensures exists job :: Has(Jobs(rows, execUID, markers, |rows|), job) &&
              forall out, from: seq<nat> | Listed(Procs(rows), job, out, from) && Closed(Procs(rows), out, |out|) :: rows[i].pid in out
  {
    hide Has;
    hide Jobs;
    hide Listed;
    hide Closed;
    hide Stuck;
    ClimbReaches(rows, execUID, markers, i, {});
    var job :| Has(Jobs(rows, execUID, markers, |rows|), job) && Beneath(Procs(rows), job, rows[i].pid);
    forall out, from: seq<nat> | Listed(Procs(rows), job, out, from) && Closed(Procs(rows), out, |out|) ensures rows[i].pid in out {
      WalkIsReachability(Procs(rows), job, out, from, rows[i].pid);
    }
  }

  // ---- Stuck rows are missed -----------------------------------------------------------------

  ghost predicate UniquePids(rows: seq<PsRow>) {
    forall i, j | 0 <= i < j < |rows| :: rows[i].pid != rows[j].pid
  }

  /** A process that is neither of the account nor a wrapper. */
  predicate Outsider(rows: seq<PsRow>, execUID: int, pid: int) {
    UidOf(rows, pid) != Some(execUID) && !WrapperPid(rows, pid)
  }

  /** The processes that are neither of the account nor wrappers have nothing to do with jobs: unmarked, and not started by one that is either. */
  ghost predicate OutsidersApart(rows: seq<PsRow>, execUID: int, markers: set<int>) {
    forall i | 0 <= i < |rows| && Outsider(rows, execUID, rows[i].pid) ::
      rows[i].pid !in markers && Outsider(rows, execUID, rows[i].ppid)
  }

  lemma {:induction false} UidOfRow(rows: seq<PsRow>, i: nat)
    requires UniquePids(rows) && i < |rows|
    ensures UidOf(rows, rows[i].pid) == Some(rows[i].uid)
  {
    var n := |rows| - 1;
    if i < n {
      assert rows[n].pid != rows[i].pid;
      UidOfRow(rows[..n], i);
    }
  }

  lemma OneRow(rows: seq<PsRow>, i: nat, j: nat)
    requires UniquePids(rows) && i < |rows| && j < |rows| && rows[i].pid == rows[j].pid
    ensures i == j
  {
  }

  lemma ChildHasRow(rows: seq<PsRow>, a: int, b: int) returns (i: nat)
    requires Child(Procs(rows), a, b)
    ensures i < |rows| && rows[i].ppid == a && rows[i].pid == b
  {
    i :| 0 <= i < |Procs(rows)| && Procs(rows)[i].ppid == a && Procs(rows)[i].pid == b;
  }

  lemma OutsiderIsUnlisted(rows: seq<PsRow>, execUID: int, markers: set<int>, pid: int)
    requires UniquePids(rows) && OutsidersApart(rows, execUID, markers) && Outsider(rows, execUID, pid)
    ensures !Has(Jobs(rows, execUID, markers, |rows|), pid)
  {
    hide Has;
    hide Jobs;
    hide WrapperPid;
    hide UidOf;
    ListedExactlyWhen(rows, execUID, markers, pid);
    forall k | 0 <= k < |rows| && rows[k].pid == pid ensures !IsJob(rows, rows[k], execUID, markers) {
      UidOfRow(rows, k);
    }
  }

  /** What is above an outsider is an outsider, and no job. */
  lemma {:induction false} NothingAboveOutsider(rows: seq<PsRow>, execUID: int, markers: set<int>, job: int, pid: int, n: nat)
    requires UniquePids(rows) && OutsidersApart(rows, execUID, markers) && Outsider(rows, execUID, pid)
    requires Within(Procs(rows), job, n, pid)
    ensures !Has(Jobs(rows, execUID, markers, |rows|), job)
    decreases n
  {
    hide Has;
    hide Jobs;
    hide Outsider;
    hide Child;
    if n == 0 {
      OutsiderIsUnlisted(rows, execUID, markers, pid);
    } else if Within(Procs(rows), job, n - 1, pid) {
      NothingAboveOutsider(rows, execUID, markers, job, pid, n - 1);
    } else {
      var a :| Within(Procs(rows), job, n - 1, a) && Child(Procs(rows), a, pid);
      var i := ChildHasRow(rows, a, pid);
      NothingAboveOutsider(rows, execUID, markers, job, a, n - 1);
    }
  }

  lemma {:induction false} NothingAbovePassedOver(rows: seq<PsRow>, execUID: int, markers: set<int>, job: int, k: nat, n: nat)
    requires execUID >= 0 && UniquePids(rows) && OutsidersApart(rows, execUID, markers) && PassedOver(rows, execUID, markers, k)
    requires Within(Procs(rows), job, n, rows[k].pid)
    ensures !Has(Jobs(rows, execUID, markers, |rows|), job)
    decreases n
  {
    hide Has;
    hide Jobs;
    hide WrapperPid;
    hide UidOf;
    hide Child;
    hide SystemDaemonCommand;
    hide OutsidersApart;
    if n == 0 {
      ListedExactlyWhen(rows, execUID, markers, rows[k].pid);
    } else if Within(Procs(rows), job, n - 1, rows[k].pid) {
      NothingAbovePassedOver(rows, execUID, markers, job, k, n - 1);
    } else {
      var a :| Within(Procs(rows), job, n - 1, a) && Child(Procs(rows), a, rows[k].pid);
      var i := ChildHasRow(rows, a, rows[k].pid);
      OneRow(rows, i, k);
      NothingAboveOutsider(rows, execUID, markers, job, a, n - 1);
    }
  }

  /** The first link of a chain. */
  lemma {:induction false} FirstLink(rows: seq<PsRow>, execUID: int, a: int, c: int, n: nat) returns (b: int)
    requires n > 0 && ExecChain(rows, execUID, a, c, n)
    ensures ExecLink(rows, execUID, a, b) && ExecChain(rows, execUID, b, c, n - 1)
    decreases n
  {
    hide ExecLink;
    var d :| ExecChain(rows, execUID, a, d, n - 1) && ExecLink(rows, execUID, d, c);
    if n == 1 {
      b := c;
    } else {
      b := FirstLink(rows, execUID, a, d, n - 1);
      assert ExecChain(rows, execUID, b, c, n - 1);
    }
  }

  /** The parent of a process on a circle is on it too. */
  lemma ParentOnCircle(rows: seq<PsRow>, execUID: int, x: int, i: nat)
    requires UniquePids(rows) && i < |rows|
    requires Above(rows, execUID, rows[i].pid, x) && Above(rows, execUID, x, rows[i].pid)
    ensures ExecRow(rows, execUID, i) && UidOf(rows, rows[i].ppid) == Some(execUID)
    ensures Above(rows, execUID, rows[i].ppid, x) && Above(rows, execUID, x, rows[i].ppid)
  {
    hide ExecChain;
    hide UidOf;
    var pid := rows[i].pid;
    var n: nat :| n > 0 && ExecChain(rows, execUID, pid, x, n);
    var m: nat :| m > 0 && ExecChain(rows, execUID, x, pid, m);
    var b := FirstLink(rows, execUID, pid, x, n);
    var k: nat :| ExecRow(rows, execUID, k) && rows[k].pid == pid && rows[k].ppid == b;
    OneRow(rows, i, k);
    LinkUp(rows, execUID, i);
    ExecChainConcat(rows, execUID, x, pid, b, m, 1);
    ExecChainConcat(rows, execUID, b, x, b, n - 1, m + 1);
    ExecChainConcat(rows, execUID, b, b, x, n + m, n - 1);
  }

  lemma {:induction false} NothingAboveCircle(rows: seq<PsRow>, execUID: int, markers: set<int>, job: int, k: nat, pid: int, n: nat)
    requires UniquePids(rows) && Circling(rows, execUID, markers, k)
    requires Above(rows, execUID, pid, rows[k].pid) && Above(rows, execUID, rows[k].pid, pid)
    requires Within(Procs(rows), job, n, pid)
    ensures !Has(Jobs(rows, execUID, markers, |rows|), job)
    decreases n
  {
    hide Has;
    hide Jobs;
    hide WrapperPid;
    hide UidOf;
    hide Above;
    hide Child;
    hide SystemDaemonCommand;
    if n == 0 {
      ListedExactlyWhen(rows, execUID, markers, pid);
      forall i: nat | i < |rows| && rows[i].pid == pid ensures !IsJob(rows, rows[i], execUID, markers) {
        ParentOnCircle(rows, execUID, rows[k].pid, i);
      }
    } else if Within(Procs(rows), job, n - 1, pid) {
      NothingAboveCircle(rows, execUID, markers, job, k, pid, n - 1);
    } else {
      var a :| Within(Procs(rows), job, n - 1, a) && Child(Procs(rows), a, pid);
      var i := ChildHasRow(rows, a, pid);
      ParentOnCircle(rows, execUID, rows[k].pid, i);
      NothingAboveCircle(rows, execUID, markers, job, k, a, n - 1);
    }
  }

  lemma StuckIsMissed(rows: seq<PsRow>, execUID: int, markers: set<int>, k: nat)
    requires execUID >= 0 && UniquePids(rows) && OutsidersApart(rows, execUID, markers) && Stuck(rows, execUID, markers, k)
    ensures !Reached(rows, execUID, markers, rows[k].pid)
  {
    hide Has;
    hide Jobs;
    hide Within;
    hide Above;
    hide WrapperPid;
    hide TopmostExecProc;
    hide SystemDaemonCommand;
    StuckIsOfTheAccount(rows, execUID, markers, k);
    forall job, n: nat | Within(Procs(rows), job, n, rows[k].pid) ensures !Has(Jobs(rows, execUID, markers, |rows|), job) {
      if PassedOver(rows, execUID, markers, k) {
        NothingAbovePassedOver(rows, execUID, markers, job, k, n);
      } else {
        NothingAboveCircle(rows, execUID, markers, job, k, rows[k].pid, n);
      }
    }
  }

  /**
   Stopping every listed job with all beneath it reaches every process of the account exactly
   when the table shows no head that is passed over for its command and no circle without a
   wrapper or a marked process.
   */
  lemma KillAllReachesExactlyWhen(rows: seq<PsRow>, execUID: int, markers: set<int>)
    requires execUID >= 0 && UniquePids(rows) && OutsidersApart(rows, execUID, markers)
    ensures (forall i: nat | ExecRow(rows, execUID, i) :: Reached(rows, execUID, markers, rows[i].pid)) <==>
            (forall k: nat :: !Stuck(rows, execUID, markers, k))
  {
    hide Reached;
    hide Stuck;
    hide Above;
    hide Has;
    hide Jobs;
    hide WrapperPid;
    hide UidOf;
    hide ExecChain;
    hide RowPids;
    hide SystemDaemonCommand;
    hide UniquePids;
    hide OutsidersApart;
    forall k: nat | Stuck(rows, execUID, markers, k) ensures ExecRow(rows, execUID, k) && !Reached(rows, execUID, markers, rows[k].pid) {
      StuckIsOfTheAccount(rows, execUID, markers, k);
      StuckIsMissed(rows, execUID, markers, k);
    }
    if forall k: nat :: !Stuck(rows, execUID, markers, k) {
      forall i: nat | ExecRow(rows, execUID, i) ensures Reached(rows, execUID, markers, rows[i].pid) {
        ClimbReaches(rows, execUID, markers, i, {});
      }
    }
  }

  lemma StuckIsOfTheAccount(rows: seq<PsRow>, execUID: int, markers: set<int>, k: nat)
    requires Stuck(rows, execUID, markers, k)
    ensures ExecRow(rows, execUID, k) && k < |rows|
  {
    hide Above;
    hide TopmostExecProc;
    hide SystemDaemonCommand;
  }

  /** In any table at all: every process of the account is reached exactly when the stuck ones are. */
  lemma KillAllReachesIfStuckAre(rows: seq<PsRow>, execUID: int, markers: set<int>)
    requires execUID >= 0
    ensures (forall i: nat | ExecRow(rows, execUID, i) :: Reached(rows, execUID, markers, rows[i].pid)) <==>
            (forall k: nat | Stuck(rows, execUID, markers, k) :: k < |rows| && Reached(rows, execUID, markers, rows[k].pid))
  {
    hide Reached;
    hide Stuck;
    hide Above;
    hide Has;
    hide Jobs;
    hide WrapperPid;
    hide UidOf;
    hide ExecChain;
    hide RowPids;
    hide SystemDaemonCommand;
    forall k: nat | Stuck(rows, execUID, markers, k) ensures ExecRow(rows, execUID, k) && k < |rows| {
      StuckIsOfTheAccount(rows, execUID, markers, k);
    }
    if forall k: nat | Stuck(rows, execUID, markers, k) :: k < |rows| && Reached(rows, execUID, markers, rows[k].pid) {
      forall i: nat | ExecRow(rows, execUID, i) ensures Reached(rows, execUID, markers, rows[i].pid) {
        ClimbReaches(rows, execUID, markers, i, {});
      }
    }
  }

  /** Two processes of the account that are each other's parent are beneath no job. */
  lemma CycleIsMissed(execUID: int, command: string)
    requires execUID >= 0 && WrapperCommand(command).None?
    ensures var rows := [PsRow(7, 8, execUID, command), PsRow(8, 7, execUID, command)];
            Jobs(rows, execUID, {}, |rows|) == [] && !Reached(rows, execUID, {}, 7)
  {
    hide WrapperCommand;
    hide SystemDaemonCommand;
    hide Beneath;
    var rows := [PsRow(7, 8, execUID, command), PsRow(8, 7, execUID, command)];
    assert UidOf(rows, 8) == Some(execUID);
    assert UidOf(rows[..1], 7) == Some(execUID);
    assert !IsJob(rows, rows[0], execUID, {}) && !IsJob(rows, rows[1], execUID, {});
    assert WrapperJobs(rows, 1) == [] && WrapperJobs(rows, 2) == [];
    assert Jobs(rows, execUID, {}, 1) == [];
  }

  /** A head that runs a system daemon's command is beneath no job either, nor are the jobs beneath it. */
  lemma DaemonHeadIsMissed(execUID: int, daemon: string, command: string)
    requires execUID >= 0 && WrapperCommand(command).None? && WrapperCommand(daemon).None? && SystemDaemonCommand(daemon)
    ensures var rows := [PsRow(7, 1, execUID, daemon), PsRow(8, 7, execUID, command)];
            Jobs(rows, execUID, {}, |rows|) == [] && !Reached(rows, execUID, {}, 8)
  {
    hide WrapperCommand;
    hide SystemDaemonCommand;
    hide Beneath;
    var rows := [PsRow(7, 1, execUID, daemon), PsRow(8, 7, execUID, command)];
    assert UidOf(rows[..1], 7) == Some(execUID);
    assert UidOf(rows, 7) == Some(execUID);
    assert !IsJob(rows, rows[0], execUID, {}) && !IsJob(rows, rows[1], execUID, {});
    assert WrapperJobs(rows, 1) == [] && WrapperJobs(rows, 2) == [];
    assert Jobs(rows, execUID, {}, 1) == [];
  }
}
