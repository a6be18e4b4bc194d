/**
 How runExec goes on from what its passes leave: an alias, a command after the
 separator, or an error.
 */
module ExecDispatch {
  import opened Wrappers
  import opened ExecFlags
  import opened ExecPasses

  datatype Dispatch =
    | Alias(name: string, args: seq<string>)
    | Direct(child: seq<string>)
    | UnknownFlags(flags: seq<string>)
    | Usage
    | NoScope
    | AliasWithVars
    | InspectFailed

  // ---- The separator search ------------------------------------------------------------

  method FindSeparator(args: seq<string>) returns (sep: Option<nat>)
    ensures match sep
            case Some(k) => k < |args| && args[k] == "--" && "--" !in args[..k]
            case None => "--" !in args
  {
    for i := 0 to |args|
      invariant "--" !in args[..i]
    {
      if args[i] == "--" {
        return Some(i);
      }
      assert args[..i + 1] == args[..i] + [args[i]];
    }
    assert args[..|args|] == args;
    return None;
  }

  /** What the remaining tokens ask for, as a relation between them and the answer. */
  ghost predicate Asks(args: seq<string>, inScope: bool, vars: seq<string>, d: Dispatch) {
    if |args| > 0 && !StartsDash(args[0]) then
      d == if !inScope then NoScope else if |vars| > 0 then AliasWithVars else Alias(args[0], args[1..])
    else if "--" !in args then d == Usage
    else if args[0] == "--" then d == if |args| == 1 then Usage else Direct(args[1..])
    else d.UnknownFlags? && "--" !in d.flags && d.flags + ["--"] <= args
  }

  method Choose(args: seq<string>, inScope: bool, vars: seq<string>) returns (d: Dispatch)
    ensures Asks(args, inScope, vars, d)
  {
    if |args| > 0 && args[0] != "--" && !StartsDash(args[0]) {
      if !inScope {
        return NoScope;
      }
      if |vars| > 0 {
        return AliasWithVars;
      }
      return Alias(args[0], args[1..]);
    }
    var sep := FindSeparator(args);
    if sep.None? {
      return Usage;
    }
    var k := sep.value;
    if k > 0 {
      assert args[..k + 1] == args[..k] + ["--"];
      assert args[0] == args[..k][0];
      return UnknownFlags(args[..k]);
    }
    if |args| == 1 {
      return Usage;
    }
    return Direct(args[1..]);
  }

  /** The tokens leave no choice of what they ask for. */
  lemma AsksOnce(args: seq<string>, inScope: bool, vars: seq<string>, d: Dispatch, e: Dispatch)
    requires Asks(args, inScope, vars, d) && Asks(args, inScope, vars, e)
    ensures d == e
  {
    if d.UnknownFlags? && e.UnknownFlags? {
      NoShorter(d.flags, e.flags, args);
      NoShorter(e.flags, d.flags, args);
      assert d.flags == args[..|d.flags|] && e.flags == args[..|e.flags|];
    }
  }

  lemma NoShorter(a: seq<string>, b: seq<string>, args: seq<string>)
    requires a + ["--"] <= args && b + ["--"] <= args && "--" !in b
    ensures |b| <= |a|
  {
    assert args[|a|] == (a + ["--"])[|a|];
    forall i | 0 <= i < |b| ensures args[i] != "--" {
      assert args[i] == (b + ["--"])[i] == b[i];
    }
  }

  // ---- The whole of it ------------------------------------------------------------------

  /** What the passes from the k-th on find and leave. */
  ghost function PassesFrom(dur: Durations, args: seq<string>, k: nat): (map<Pass, Finding>, seq<string>)
    requires k <= 9
  {
    Passes(dur, args, ORDER[k..])
  }

  lemma PassesGoOn(dur: Durations, args: seq<string>, k: nat, p: Pass)
    requires k < 9 && ORDER[k] == p
    ensures var (found, left) := PassesFrom(dur, Strip(dur, p, args), k + 1);
            PassesFrom(dur, args, k) == (found[p := Field(p, FlagsOf(dur, args))], left)
  {
    hide Strip;
    hide FlagsOf;
    hide Field;
    assert ORDER[k..][0] == p && ORDER[k..][1..] == ORDER[k + 1..];
  }

  /** What every pass reports, as one record. */
  ghost predicate Reports(found: map<Pass, Finding>, f: Flags) {
    forall p: Pass :: p in found && found[p] == Field(p, f)
  }

  function Place(p: Pass): nat {
    match p
    case NoPrivsep => 0
    case WaitApproval => 1
    case Json => 2
    case DryRun => 3
    case ForceAsk => 4
    case Reason => 5
    case AskOnce => 6
    case Vars => 7
    case Inspect => 8
  }

  lemma PlaceInOrder(p: Pass)
    ensures Place(p) < 9 && ORDER[Place(p)] == p
  {
  }

  lemma OwnPlace(p: Pass, q: Pass)
    requires Place(p) == Place(q)
    ensures p == q
  {
  }

  /** f with what the pass p is about taken from g. */
  function Noted(p: Pass, f: Flags, g: Flags): Flags {
    match p
    case NoPrivsep => f.(noPrivsep := g.noPrivsep)
    case WaitApproval => f.(wait := g.wait)
    case Json => f.(json := g.json)
    case DryRun => f.(dryRun := g.dryRun)
    case ForceAsk => f.(forceAsk := g.forceAsk)
    case Reason => f.(reason := g.reason)
    case AskOnce => f.(askOnce := g.askOnce)
    case Vars => f.(vars := g.vars)
    case Inspect => f.(inspect := g.inspect)
  }

  lemma NotedFields(p: Pass, f: Flags, g: Flags, q: Pass)
    ensures Field(q, Noted(p, f, g)) == Field(q, if p == q then g else f)
  {
  }

  /** What was found is, for the first k passes, what f holds, and for the others what they find in what is left. */
  ghost predicate Tracks(found: map<Pass, Finding>, rest: map<Pass, Finding>, k: nat, f: Flags) {
    forall p: Pass ::
      if Place(p) < k then p in found && found[p] == Field(p, f)
      else (p in found <==> p in rest) && (p in rest ==> found[p] == rest[p])
  }

  lemma TracksOne(found: map<Pass, Finding>, rest: map<Pass, Finding>, p: Pass, f: Flags, g: Flags)
    requires Tracks(found, rest[p := Field(p, g)], Place(p), f)
    ensures Tracks(found, rest, Place(p) + 1, Noted(p, f, g))
  {
    hide Field;
    hide Noted;
    hide Place;
    forall q: Pass
      ensures if Place(q) < Place(p) + 1 then q in found && found[q] == Field(q, Noted(p, f, g))
              else (q in found <==> q in rest) && (q in rest ==> found[q] == rest[q])
    {
      NotedFields(p, f, g, q);
      if Place(q) == Place(p) {
        OwnPlace(p, q);
      }
    }
  }

  ghost predicate Upto(dur: Durations, argv: seq<string>, args: seq<string>, k: nat, f: Flags) {
    && k <= 9
    && NinePasses(dur, argv).1 == PassesFrom(dur, args, k).1
    && Tracks(NinePasses(dur, argv).0, PassesFrom(dur, args, k).0, k, f)
  }

  lemma UptoStart(dur: Durations, argv: seq<string>, f: Flags)
    ensures Upto(dur, argv, argv, 0, f)
  {
    hide Passes;
    assert ORDER[0..] == ORDER;
  }

  lemma UptoStep(dur: Durations, argv: seq<string>, args: seq<string>, p: Pass, f: Flags)
    requires Upto(dur, argv, args, Place(p), f)
    ensures Upto(dur, argv, Strip(dur, p, args), Place(p) + 1, Noted(p, f, FlagsOf(dur, args)))
  {
    hide *;
    UptoOpen(dur, argv, args, Place(p), f);
    PlaceInOrder(p);
    PassesGoOn(dur, args, Place(p), p);
    TracksOne(NinePasses(dur, argv).0, PassesFrom(dur, Strip(dur, p, args), Place(p) + 1).0, p, f, FlagsOf(dur, args));
    UptoClose(dur, argv, Strip(dur, p, args), Place(p) + 1, Noted(p, f, FlagsOf(dur, args)));
  }

  lemma UptoOpen(dur: Durations, argv: seq<string>, args: seq<string>, k: nat, f: Flags)
    requires Upto(dur, argv, args, k, f)
    ensures k <= 9 && NinePasses(dur, argv).1 == PassesFrom(dur, args, k).1
    ensures Tracks(NinePasses(dur, argv).0, PassesFrom(dur, args, k).0, k, f)
  {
  }

  lemma UptoClose(dur: Durations, argv: seq<string>, args: seq<string>, k: nat, f: Flags)
    requires k <= 9 && NinePasses(dur, argv).1 == PassesFrom(dur, args, k).1
    requires Tracks(NinePasses(dur, argv).0, PassesFrom(dur, args, k).0, k, f)
    ensures Upto(dur, argv, args, k, f)
  {
  }

  lemma UptoEnd(dur: Durations, argv: seq<string>, args: seq<string>, f: Flags)
    requires Upto(dur, argv, args, 9, f)
    ensures args == NinePasses(dur, argv).1 && Reports(NinePasses(dur, argv).0, f)
  {
    hide NinePasses;
    hide Field;
    hide Place;
    assert ORDER[9..] == [];
    forall p: Pass ensures Place(p) < 9 {
      PlaceInOrder(p);
    }
  }

  /** The first five of the passes, in runExec's order. */
  method StripFirstFive(dur: Durations, argv: seq<string>) returns (args: seq<string>, f: Flags)
    ensures Upto(dur, argv, args, 5, f)
  {
    hide Strip;
    hide FlagsOf;
    hide Reports;
    hide Upto;
    hide NinePasses;
    hide ORDER;
    f := NO_FLAGS;
    UptoStart(dur, argv, f);
    UptoStep(dur, argv, argv, NoPrivsep, f);
    var noPrivsep;
    args, noPrivsep := StripExecBoolFlag(dur, NoPrivsep, argv);
    f := f.(noPrivsep := noPrivsep);
    UptoStep(dur, argv, args, WaitApproval, f);
    var wait, hasWait;
    args, wait, hasWait := StripWaitApproval(dur, args);
    f := f.(wait := if hasWait then Some(wait) else None);
    UptoStep(dur, argv, args, Json, f);
    var json;
    args, json := StripExecBoolFlag(dur, Json, args);
    f := f.(json := json);
    UptoStep(dur, argv, args, DryRun, f);
    var dryRun;
    args, dryRun := StripExecBoolFlag(dur, DryRun, args);
    f := f.(dryRun := dryRun);
    UptoStep(dur, argv, args, ForceAsk, f);
    var forceAsk;
    args, forceAsk := StripExecBoolFlag(dur, ForceAsk, args);
    f := f.(forceAsk := forceAsk);
  }

  /** All nine. */
  method StripAll(dur: Durations, argv: seq<string>) returns (args: seq<string>, f: Flags)
    ensures args == NinePasses(dur, argv).1 && Reports(NinePasses(dur, argv).0, f)
  {
    hide Strip;
    hide FlagsOf;
    hide Reports;
    hide Upto;
    hide NinePasses;
    hide ORDER;
    args, f := StripFirstFive(dur, argv);
    UptoStep(dur, argv, args, Reason, f);
    var reason;
    args, reason := StripExecReason(dur, args);
    f := f.(reason := reason);
    UptoStep(dur, argv, args, AskOnce, f);
    var askOnce;
    args, askOnce := StripExecBoolFlag(dur, AskOnce, args);
    f := f.(askOnce := askOnce);
    UptoStep(dur, argv, args, Vars, f);
    var vars;
    args, vars := StripExecVars(dur, args);
    f := f.(vars := vars);
    UptoStep(dur, argv, args, Inspect, f);
    var brk, target, hasInspect;
    args, brk, target, hasInspect := StripInspect(dur, args);
    f := f.(inspect := Inspection(hasInspect, brk, target));
    UptoEnd(dur, argv, args, f);
  }

  /** With no --reason, or an empty one, the reason is what BYN_WHY holds. */
  function Explained(f: Flags, why: string): Flags {
    if f.reason == "" then f.(reason := why) else f
  }

  lemma ReasonOr(f: Flags, why: string)
    ensures Explained(f, why) == f.(reason := if f.reason == "" then why else f.reason)
  {
  }

  /** All of it; setting up the inspector, when it is asked for, may fail. */
  method RunExec(dur: Durations, argv: seq<string>, why: string, inScope: bool, inspectWorks: bool) returns (f: Flags, d: Dispatch)
    ensures exists given: Flags ::
              && Reports(NinePasses(dur, argv).0, given)
              && f == given.(reason := if given.reason == "" then why else given.reason)
              && if given.inspect.found && !inspectWorks then d == InspectFailed
                 else Asks(NinePasses(dur, argv).1, inScope, given.vars, d)
  {
    hide *;
    var args;
    args, f := StripAll(dur, argv);
    var given := f;
    f := Explained(f, why);
    ReasonOr(given, why);
    if given.inspect.found && !inspectWorks {
      return f, InspectFailed;
    }
    d := Choose(args, inScope, given.vars);
  }

  // ---- What that amounts to --------------------------------------------------------------

  lemma ReportsOnce(found: map<Pass, Finding>, f: Flags, g: Flags)
    requires Reports(found, f) && Reports(found, g)
    ensures f == g
  {
    assert Field(NoPrivsep, f) == found[NoPrivsep] == Field(NoPrivsep, g);
    assert Field(WaitApproval, f) == found[WaitApproval] == Field(WaitApproval, g);
    assert Field(Json, f) == found[Json] == Field(Json, g);
    assert Field(DryRun, f) == found[DryRun] == Field(DryRun, g);
    assert Field(ForceAsk, f) == found[ForceAsk] == Field(ForceAsk, g);
    assert Field(Reason, f) == found[Reason] == Field(Reason, g);
    assert Field(AskOnce, f) == found[AskOnce] == Field(AskOnce, g);
    assert Field(Vars, f) == found[Vars] == Field(Vars, g);
    assert Field(Inspect, f) == found[Inspect] == Field(Inspect, g);
  }
}
