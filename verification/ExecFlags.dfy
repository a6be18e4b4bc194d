/**
 The flags of `byn exec`: tokens in front of the child's argv, each stripped by a
 pass of its own.  Parsing a duration is a library call, a parameter here.
 */
module ExecFlags {
  import opened Wrappers

  type Durations = string -> Option<int>

  const DEFAULT_APPROVAL_WAIT: int := 120_000_000_000

  predicate StartsDash(s: string) {
    |s| > 0 && s[0] == '-'
  }

  /** Where byn's own flags end: the separator, or the first bare token (an alias). */
  predicate EndsFlags(s: string) {
    s == "--" || !StartsDash(s)
  }

  function AfterLastColon(s: string): string {
    if |s| == 0 then s
    else if s[|s| - 1] == ':' then ""
    else if ':' in s then AfterLastColon(s[..|s| - 1]) + [s[|s| - 1]]
    else s
  }

  predicate LooksLikePort(s: string) {
    && |s| > 0 && !StartsDash(s)
    && var port := AfterLastColon(s);
       |port| > 0 && forall i | 0 <= i < |port| :: '0' <= port[i] <= '9'
  }

  lemma {:induction false} AfterLastColonIs(s: string)
    ensures var r := AfterLastColon(s);
            && |r| <= |s| && r == s[|s| - |r|..] && ':' !in r && (|r| < |s| ==> s[|s| - |r| - 1] == ':')
  {
    if |s| > 0 && s[|s| - 1] != ':' && ':' in s {
      var init := s[..|s| - 1];
      assert s == init + [s[|s| - 1]];
      AfterLastColonIs(init);
    }
  }

  /** From k on there are digits to the end, and k is the start or behind a colon. */
  ghost predicate PortFrom(s: string, k: nat) {
    k < |s| && (k == 0 || s[k - 1] == ':') && forall i | k <= i < |s| :: '0' <= s[i] <= '9'
  }

  lemma PortIsLast(s: string, k: nat)
    requires PortFrom(s, k)
    ensures k == |s| - |AfterLastColon(s)|
  {
    AfterLastColonIs(s);
    var r := AfterLastColon(s);
    var n := |s| - |r|;
    assert forall i | n <= i < |s| :: s[i] == r[i - n] && s[i] in r;
    assert forall i | k <= i < |s| :: s[i] != ':';
  }

  lemma PortHasStart(s: string)
    requires LooksLikePort(s)
    ensures exists k: nat :: PortFrom(s, k)
  {
    hide PortFrom;
    AfterLastColonIs(s);
    var port := AfterLastColon(s);
    hide AfterLastColon;
    DigitsFrom(s, |s| - |port|);
  }

  lemma DigitsFrom(s: string, n: nat)
    requires n < |s| && (n > 0 ==> s[n - 1] == ':') && forall i | 0 <= i < |s[n..]| :: '0' <= s[n..][i] <= '9'
    ensures PortFrom(s, n)
  {
    forall i | n <= i < |s| ensures '0' <= s[i] <= '9' {
      assert s[i] == s[n..][i - n];
    }
  }

  lemma StartMakesPort(s: string, k: nat)
    requires PortFrom(s, k) && !StartsDash(s)
    ensures LooksLikePort(s)
  {
    PortIsLast(s, k);
    AfterLastColonIs(s);
    hide AfterLastColon;
    var port := AfterLastColon(s);
    assert forall i | 0 <= i < |port| :: port[i] == s[k + i];
  }

  /** A port is a run of digits to the end, from the start or behind a colon; nothing that starts with a dash is one. */
  lemma PortIsDigitsToTheEnd(s: string)
    ensures LooksLikePort(s) <==> !("-" <= s) && exists k: nat :: PortFrom(s, k)
  {
    if LooksLikePort(s) {
      PortHasStart(s);
    }
    hide LooksLikePort;
    hide PortFrom;
    assert "-" <= s <==> StartsDash(s);
    if !("-" <= s) {
      if k: nat :| PortFrom(s, k) {
        StartMakesPort(s, k);
      }
    } else {
      DashedIsNoPort(s);
    }
  }

  lemma DashedIsNoPort(s: string)
    requires StartsDash(s)
    ensures !LooksLikePort(s)
  {
  }

  predicate NeedsValue(a: string) {
    a == "--reason" || a == "--why" || a == "--var"
  }

  /** Whether the flag a takes the token after it as its value. */
  predicate TakesNext(dur: Durations, a: string, next: string) {
    || NeedsValue(a)
    || (a == "--wait-approval" && !StartsDash(next) && dur(next).Some?)
    || ((a == "--inspect" || a == "--inspect-brk") && LooksLikePort(next))
  }

  /** How many tokens after args[i] are its value. */
  function ExecFlagValueLen(dur: Durations, args: seq<string>, i: nat): (n: nat)
    requires i < |args|
    ensures n <= 1 && i + 1 + n <= |args|
  {
    if i + 1 < |args| && TakesNext(dur, args[i], args[i + 1]) then 1 else 0
  }

  // ---- Flags as items --------------------------------------------------------------

  /** A flag with its separate value, if it has one. */
  type Item = seq<string>

  datatype Pass = NoPrivsep | WaitApproval | Json | DryRun | ForceAsk | Reason | AskOnce | Vars | Inspect

  /** The order runExec strips them in. */
  const ORDER: seq<Pass> := [NoPrivsep, WaitApproval, Json, DryRun, ForceAsk, Reason, AskOnce, Vars, Inspect]

  function Flatten(items: seq<Item>): seq<string> {
    if |items| == 0 then [] else items[0] + Flatten(items[1..])
  }

  datatype Parsed = Parsed(items: seq<Item>, tail: seq<string>)

  /** A value flag that is the very last token has no value; every pass leaves it. */
  predicate Valueless(args: seq<string>) {
    |args| == 1 && NeedsValue(args[0])
  }

  predicate NoMoreFlags(args: seq<string>) {
    |args| == 0 || EndsFlags(args[0]) || Valueless(args)
  }

  /** The flags in front, each with its value, and everything from where they end. */
  function Itemize(dur: Durations, args: seq<string>): Parsed {
    if NoMoreFlags(args) then Parsed([], args)
    else
      var n := ExecFlagValueLen(dur, args, 0);
      var rest := Itemize(dur, args[1 + n..]);
      Parsed([args[..1 + n]] + rest.items, rest.tail)
  }

  /** The pass that takes an item; None for a flag byn exec does not know. */
  function KindOf(item: Item): Option<Pass>
    requires |item| > 0
  {
    var a := item[0];
    if a == "--no-privsep" then Some(NoPrivsep)
    else if a == "--wait-approval" || "--wait-approval=" <= a then Some(WaitApproval)
    else if a == "--json" then Some(Json)
    else if a == "--dry-run" then Some(DryRun)
    else if a == "--force-ask" then Some(ForceAsk)
    else if a == "--reason" || a == "--why" || "--reason=" <= a || "--why=" <= a then Some(Reason)
    else if a == "--once" || a == "--ask-once" then Some(AskOnce)
    else if a == "--var" || "--var=" <= a then Some(Vars)
    else if a == "--inspect" || a == "--inspect-brk" || "--inspect=" <= a || "--inspect-brk=" <= a then Some(Inspect)
    else None
  }

  ghost predicate NonEmptyItems(items: seq<Item>) {
    forall i | 0 <= i < |items| :: |items[i]| > 0
  }

  function Without(items: seq<Item>, p: Pass): (r: seq<Item>)
    requires NonEmptyItems(items)
    ensures NonEmptyItems(r)
  {
    if |items| == 0 then []
    else
      assert NonEmptyItems(items[1..]);
      (if KindOf(items[0]) == Some(p) then [] else [items[0]]) + Without(items[1..], p)
  }

  lemma {:induction false} ItemsNonEmpty(dur: Durations, args: seq<string>)
    ensures NonEmptyItems(Itemize(dur, args).items)
    decreases |args|
  {
    if !NoMoreFlags(args) {
      ItemsNonEmpty(dur, args[1 + ExecFlagValueLen(dur, args, 0)..]);
    }
  }

  /** What a pass leaves: the other items, and everything after the flags untouched. */
  function Strip(dur: Durations, p: Pass, args: seq<string>): seq<string> {
    ItemsNonEmpty(dur, args);
    Flatten(Without(Itemize(dur, args).items, p)) + Itemize(dur, args).tail
  }

  // ---- What the flags say -------------------------------------------------------------

  datatype Inspection = Inspection(found: bool, brk: bool, value: string)

  datatype Flags = Flags(
    noPrivsep: bool,
    wait: Option<int>,
    json: bool,
    dryRun: bool,
    forceAsk: bool,
    reason: string,
    askOnce: bool,
    vars: seq<string>,
    inspect: Inspection)

  const NO_FLAGS := Flags(false, None, false, false, false, "", false, [], Inspection(false, false, ""))

  /** The text after the first '='; the whole text when there is none. */
  function AfterEquals(a: string): string {
    if |a| == 0 then a else if a[0] == '=' then a[1..] else if '=' in a then AfterEquals(a[1..]) else a
  }

  function WaitValue(dur: Durations, item: Item): int
    requires |item| > 0
  {
    var text := if |item| > 1 then item[1] else if '=' in item[0] then AfterEquals(item[0]) else "";
    if (|item| > 1 || '=' in item[0]) && dur(text).Some? then dur(text).value else DEFAULT_APPROVAL_WAIT
  }

  function TextValue(item: Item): string
    requires |item| > 0
  {
    if |item| > 1 then item[1] else AfterEquals(item[0])
  }

  predicate IsBrk(a: string) {
    a == "--inspect-brk" || "--inspect-brk=" <= a
  }

  /** An --inspect's target, or what was named before when it names none. */
  function TargetOr(item: Item, before: string): string
    requires |item| > 0
  {
    if '=' in item[0] || |item| > 1 then TextValue(item) else before
  }

  /** What one item adds to the flags; a later item of a kind overrides, but for --var and a bare --inspect's target. */
  function Apply(dur: Durations, f: Flags, item: Item): Flags
    requires |item| > 0
  {
    match KindOf(item)
    case None => f
    case Some(NoPrivsep) => f.(noPrivsep := true)
    case Some(WaitApproval) => f.(wait := Some(WaitValue(dur, item)))
    case Some(Json) => f.(json := true)
    case Some(DryRun) => f.(dryRun := true)
    case Some(ForceAsk) => f.(forceAsk := true)
    case Some(Reason) => f.(reason := TextValue(item))
    case Some(AskOnce) => f.(askOnce := true)
    case Some(Vars) => f.(vars := f.vars + [TextValue(item)])
    case Some(Inspect) =>
      f.(inspect := Inspection(true, IsBrk(item[0]), TargetOr(item, f.inspect.value)))
  }

  function FlagsFrom(dur: Durations, items: seq<Item>, f: Flags): Flags
    requires NonEmptyItems(items)
  {
    if |items| == 0 then f
    else
      assert NonEmptyItems(items[1..]);
      FlagsFrom(dur, items[1..], Apply(dur, f, items[0]))
  }

  function FlagsOf(dur: Durations, args: seq<string>): Flags {
    ItemsNonEmpty(dur, args);
    FlagsFrom(dur, Itemize(dur, args).items, NO_FLAGS)
  }

  /** A --wait-approval that names no duration waits two minutes. */
  lemma LoneWaitIsTwoMinutes(dur: Durations, rest: seq<string>)
    ensures FlagsOf(dur, ["--wait-approval", "--"] + rest).wait == Some(2 * 60 * 1_000_000_000)
  {
    hide KindOf;
    hide WaitValue;
    hide Itemize;
    var items := LoneWaitItems(dur, rest);
    var item := ["--wait-approval"];
    assert items[1..] == [];
    assert FlagsFrom(dur, items, NO_FLAGS) == Apply(dur, NO_FLAGS, item);
    LoneWaitValue(dur);
  }

  lemma LoneWaitItems(dur: Durations, rest: seq<string>) returns (items: seq<Item>)
    ensures items == [["--wait-approval"]] && Itemize(dur, ["--wait-approval", "--"] + rest).items == items
  {
    hide LooksLikePort;
    items := [["--wait-approval"]];
    var args, tail := ["--wait-approval", "--"] + rest, ["--"] + rest;
    assert args[1..] == tail && args[..1] == ["--wait-approval"];
    assert Itemize(dur, tail) == Parsed([], tail);
    assert ExecFlagValueLen(dur, args, 0) == 0;
  }

  lemma LoneWaitValue(dur: Durations)
    ensures KindOf(["--wait-approval"]) == Some(WaitApproval)
    ensures WaitValue(dur, ["--wait-approval"]) == 2 * 60 * 1_000_000_000
  {
    hide AfterEquals;
  }

  // ---- The passes themselves -------------------------------------------------------------

  /** The flags a pass has collected once it has seen what comes before args. */
  function FlagsAfter(dur: Durations, args: seq<string>, f: Flags): Flags {
    ItemsNonEmpty(dur, args);
    FlagsFrom(dur, Itemize(dur, args).items, f)
  }

  /** One step of any pass: the first item is dropped or copied, and the rest is treated alike. */
  lemma StripStep(dur: Durations, p: Pass, args: seq<string>, i: nat, f: Flags)
    requires i < |args| && !NoMoreFlags(args[i..])
    ensures var n := ExecFlagValueLen(dur, args, i);
            var item := args[i..i + 1 + n];
            && Strip(dur, p, args[i..]) == (if KindOf(item) == Some(p) then [] else item) + Strip(dur, p, args[i + 1 + n..])
            && FlagsAfter(dur, args[i..], f) == FlagsAfter(dur, args[i + 1 + n..], Apply(dur, f, item))
  {
    hide KindOf;
    hide Apply;
    hide TakesNext;
    hide NoMoreFlags;
    var n := ExecFlagValueLen(dur, args, i);
    var item, rest := args[i..i + 1 + n], args[i + 1 + n..];
    assert ExecFlagValueLen(dur, args[i..], 0) == n;
    assert args[i..][..1 + n] == item && args[i..][1 + n..] == rest;
    var parsed := Itemize(dur, rest);
    assert Itemize(dur, args[i..]) == Parsed([item] + parsed.items, parsed.tail);
    ItemsNonEmpty(dur, rest);
    StripFirst(p, item, parsed.items, parsed.tail);
    assert ([item] + parsed.items)[1..] == parsed.items;
  }

  lemma {:induction false} StripFirst(p: Pass, item: Item, items: seq<Item>, tail: seq<string>)
    requires |item| > 0 && NonEmptyItems(items)
    ensures NonEmptyItems([item] + items)
    ensures Flatten(Without([item] + items, p)) + tail ==
            (if KindOf(item) == Some(p) then [] else item) + (Flatten(Without(items, p)) + tail)
  {
    hide KindOf;
    assert ([item] + items)[1..] == items;
    if KindOf(item) != Some(p) {
      assert ([item] + Without(items, p))[1..] == Without(items, p);
      ConcatAssoc(item, Flatten(Without(items, p)), tail);
    } else {
      assert [] + Without(items, p) == Without(items, p);
    }
  }

  /** The end of the flags: nothing is stripped from there on. */
  lemma StripEnd(dur: Durations, p: Pass, args: seq<string>, f: Flags)
    requires NoMoreFlags(args)
    ensures Strip(dur, p, args) == args && FlagsAfter(dur, args, f) == f
  {
  }

  /** The names of a pass that looks for a flag without a value. */
  predicate IsBoolPass(p: Pass) {
    p == NoPrivsep || p == Json || p == DryRun || p == ForceAsk || p == AskOnce
  }

  function BoolNames(p: Pass): seq<string>
    requires IsBoolPass(p)
  {
    match p
    case NoPrivsep => ["--no-privsep"]
    case Json => ["--json"]
    case DryRun => ["--dry-run"]
    case ForceAsk => ["--force-ask"]
    case AskOnce => ["--once", "--ask-once"]
  }

  function BoolField(p: Pass, f: Flags): bool
    requires IsBoolPass(p)
  {
    match p
    case NoPrivsep => f.noPrivsep
    case Json => f.json
    case DryRun => f.dryRun
    case ForceAsk => f.forceAsk
    case AskOnce => f.askOnce
  }

  /** What is left of a pass after the flags end, and its loop's bookkeeping there. */
  lemma PassDone(dur: Durations, p: Pass, args: seq<string>, i: nat, out: seq<string>, f: Flags)
    requires i <= |args| && NoMoreFlags(args[i..])
    requires Strip(dur, p, args) == out + Strip(dur, p, args[i..]) && FlagsOf(dur, args) == FlagsAfter(dur, args[i..], f)
    ensures Strip(dur, p, args) == out + args[i..] && FlagsOf(dur, args) == f
  {
    StripEnd(dur, p, args[i..], f);
  }

  method StripExecBoolFlag(dur: Durations, p: Pass, args: seq<string>) returns (out: seq<string>, found: bool)
    requires IsBoolPass(p)
    ensures out == Strip(dur, p, args) && found == BoolField(p, FlagsOf(dur, args))
  {
    hide *;
    var names := BoolNames(p);
    out, found := [], false;
    var i := 0;
    ghost var f := NO_FLAGS;
    PassStart(dur, p, args);
    NoFlagsYet(p);
    while i < |args|
      invariant 0 <= i <= |args| && found == BoolField(p, f)
      invariant Strip(dur, p, args) == out + Strip(dur, p, args[i..]) && FlagsOf(dur, args) == FlagsAfter(dur, args[i..], f)
    {
      var a := args[i];
      if EndsFlags(a) {
        PassDone(dur, p, args, i, out, f);
        return out + args[i..], found;
      }
      if a in names {
        TakeBool(dur, p, args, i, out, f);
        f := Apply(dur, f, [a]);
        found := true;
        i := i + 1;
        continue;
      }
      var n := ExecFlagValueLen(dur, args, i);
      NotMyKind(dur, p, args, i, f);
      f := CopyItem(dur, p, args, i, out, f);
      out := out + args[i..i + 1 + n];
      i := i + 1 + n;
    }
    PassDone(dur, p, args, i, out, f);
  }

  lemma PassStart(dur: Durations, p: Pass, args: seq<string>)
    ensures Strip(dur, p, args) == [] + Strip(dur, p, args[0..])
    ensures FlagsOf(dur, args) == FlagsAfter(dur, args[0..], NO_FLAGS)
  {
    assert args[0..] == args;
  }

  lemma NoFlagsYet(p: Pass)
    ensures IsBoolPass(p) ==> !BoolField(p, NO_FLAGS)
  {
  }

  /** A pass moves past one item. */
  lemma PassStep(dur: Durations, p: Pass, args: seq<string>, i: nat, out: seq<string>, f: Flags)
    requires i < |args| && !NoMoreFlags(args[i..])
    requires Strip(dur, p, args) == out + Strip(dur, p, args[i..]) && FlagsOf(dur, args) == FlagsAfter(dur, args[i..], f)
    ensures var n := ExecFlagValueLen(dur, args, i);
            var item := args[i..i + 1 + n];
            && Strip(dur, p, args) == (if KindOf(item) == Some(p) then out else out + item) + Strip(dur, p, args[i + 1 + n..])
            && FlagsOf(dur, args) == FlagsAfter(dur, args[i + 1 + n..], Apply(dur, f, item))
  {
    hide *;
    StripStep(dur, p, args, i, f);
    var n := ExecFlagValueLen(dur, args, i);
    var item := args[i..i + 1 + n];
    ConcatAssoc(out, item, Strip(dur, p, args[i + 1 + n..]));
  }

  /** A pass copies an item that is not its own, a final flag without its value included. */
  lemma CopyItem(dur: Durations, p: Pass, args: seq<string>, i: nat, out: seq<string>, f: Flags) returns (g: Flags)
    requires i < |args| && !EndsFlags(args[i])
    requires Strip(dur, p, args) == out + Strip(dur, p, args[i..]) && FlagsOf(dur, args) == FlagsAfter(dur, args[i..], f)
    requires Valueless(args[i..]) || KindOf(args[i..i + 1 + ExecFlagValueLen(dur, args, i)]) != Some(p)
    ensures var n := ExecFlagValueLen(dur, args, i);
            var rest := args[i + 1 + n..];
            && Strip(dur, p, args) == (out + args[i..i + 1 + n]) + Strip(dur, p, rest)
            && FlagsOf(dur, args) == FlagsAfter(dur, rest, g)
            && g == if Valueless(args[i..]) then f else Apply(dur, f, args[i..i + 1 + n])
  {
    hide *;
    var n := ExecFlagValueLen(dur, args, i);
    if Valueless(args[i..]) {
      g := f;
      ValuelessEnds(dur, p, args, i, f);
      ConcatAssoc(out, args[i..i + 1 + n], Strip(dur, p, args[i + 1 + n..]));
    } else {
      g := Apply(dur, f, args[i..i + 1 + n]);
      FlagsGoOn(args, i);
      PassStep(dur, p, args, i, out, f);
    }
  }

  lemma FlagsGoOn(args: seq<string>, i: nat)
    requires i < |args| && !EndsFlags(args[i]) && !Valueless(args[i..])
    ensures !NoMoreFlags(args[i..])
  {
    hide EndsFlags;
    hide Valueless;
  }

  lemma ValuelessEnds(dur: Durations, p: Pass, args: seq<string>, i: nat, f: Flags)
    requires i < |args| && Valueless(args[i..])
    ensures var n := ExecFlagValueLen(dur, args, i);
            && Strip(dur, p, args[i..]) == args[i..i + 1 + n] + Strip(dur, p, args[i + 1 + n..])
            && FlagsAfter(dur, args[i + 1 + n..], f) == f == FlagsAfter(dur, args[i..], f)
  {
    hide NeedsValue;
    hide EndsFlags;
    assert args[i..] == args[i..i + 1] && args[i + 1..] == [];
  }

  /** A boolean flag is an item of its own, dropped by its pass. */
  lemma TakeBool(dur: Durations, p: Pass, args: seq<string>, i: nat, out: seq<string>, f: Flags)
    requires IsBoolPass(p) && i < |args| && args[i] in BoolNames(p)
    requires Strip(dur, p, args) == out + Strip(dur, p, args[i..]) && FlagsOf(dur, args) == FlagsAfter(dur, args[i..], f)
    ensures Strip(dur, p, args) == out + Strip(dur, p, args[i + 1..])
    ensures FlagsOf(dur, args) == FlagsAfter(dur, args[i + 1..], Apply(dur, f, [args[i]]))
    ensures BoolField(p, Apply(dur, f, [args[i]]))
  {
    hide *;
    NamedTakesNothing(dur, p, args, i);
    NamedKind(p, args[i]);
    assert args[i..i + 1] == [args[i]];
    PassStep(dur, p, args, i, out, f);
    BoolFieldSet(dur, p, f, [args[i]]);
  }

  lemma BoolFieldSet(dur: Durations, p: Pass, f: Flags, item: Item)
    requires IsBoolPass(p) && |item| > 0
    ensures BoolField(p, Apply(dur, f, item)) == (BoolField(p, f) || KindOf(item) == Some(p))
  {
    hide KindOf;
    hide WaitValue;
    hide TextValue;
    hide IsBrk;
    hide TargetOr;
  }

  lemma NamedKind(p: Pass, a: string)
    requires IsBoolPass(p) && a in BoolNames(p)
    ensures KindOf([a]) == Some(p)
  {
    assert "--no-privsep"[2] == 'n' && "--json"[2] == 'j' && "--dry-run"[2] == 'd';
    assert "--force-ask"[2] == 'f' && "--once"[2] == 'o' && "--ask-once"[2] == 'a';
    assert "--wait-approval="[2] == 'w' && "--reason="[2] == 'r' && "--why="[2] == 'w';
    assert "--wait-approval"[2] == 'w' && "--reason"[2] == 'r' && "--why"[2] == 'w';
  }

  lemma NamedTakesNothing(dur: Durations, p: Pass, args: seq<string>, i: nat)
    requires IsBoolPass(p) && i < |args| && args[i] in BoolNames(p)
    ensures !NoMoreFlags(args[i..]) && ExecFlagValueLen(dur, args, i) == 0
  {
    hide LooksLikePort;
    var a := args[i];
    assert args[i..][0] == a;
    assert |a| > 2 && a[0] == '-' && a[2] != 'r' && a[2] != 'w' && a[2] != 'v' && a[2] != 'i' by {
      assert "--no-privsep"[2] == 'n' && "--json"[2] == 'j' && "--dry-run"[2] == 'd';
      assert "--force-ask"[2] == 'f' && "--once"[2] == 'o' && "--ask-once"[2] == 'a';
    }
    assert "--reason"[2] == 'r' && "--why"[2] == 'w' && "--var"[2] == 'v' && "--wait-approval"[2] == 'w';
    assert "--inspect"[2] == 'i' && "--inspect-brk"[2] == 'i';
  }

  lemma NotMyKind(dur: Durations, p: Pass, args: seq<string>, i: nat, f: Flags)
    requires IsBoolPass(p) && i < |args| && args[i] !in BoolNames(p)
    ensures var item := args[i..i + 1 + ExecFlagValueLen(dur, args, i)];
            KindOf(item) != Some(p) && BoolField(p, Apply(dur, f, item)) == BoolField(p, f)
  {
    hide *;
    var item := args[i..i + 1 + ExecFlagValueLen(dur, args, i)];
    if KindOf(item) == Some(p) {
      BoolKindIsNamed(p, item);
    }
    BoolFieldSet(dur, p, f, item);
  }

  lemma BoolKindIsNamed(p: Pass, item: Item)
    requires IsBoolPass(p) && |item| > 0 && KindOf(item) == Some(p)
    ensures item[0] in BoolNames(p)
  {
  }

  // ---- The passes with values -----------------------------------------------------------

  /** Every item leaves alone the fields of the passes it does not belong to. */
  lemma ApplyTouchesOwn(dur: Durations, f: Flags, item: Item)
    requires |item| > 0
    ensures var g := Apply(dur, f, item);
            && (KindOf(item) != Some(WaitApproval) ==> g.wait == f.wait)
            && (KindOf(item) != Some(Reason) ==> g.reason == f.reason)
            && (KindOf(item) != Some(Vars) ==> g.vars == f.vars)
            && (KindOf(item) != Some(Inspect) ==> g.inspect == f.inspect)
  {
    hide KindOf;
    hide Apply;
    var kind := KindOf(item);
    if kind == None || kind == Some(WaitApproval) || kind == Some(Reason) || kind == Some(Vars) || kind == Some(Inspect) {
      ValueTouchesOwn(dur, f, item);
    } else {
      SwitchTouchesNone(dur, f, item);
    }
  }

  predicate OthersKept(kind: Option<Pass>, f: Flags, g: Flags) {
    && (kind != Some(WaitApproval) ==> g.wait == f.wait)
    && (kind != Some(Reason) ==> g.reason == f.reason)
    && (kind != Some(Vars) ==> g.vars == f.vars)
    && (kind != Some(Inspect) ==> g.inspect == f.inspect)
  }

  lemma ValueTouchesOwn(dur: Durations, f: Flags, item: Item)
    requires |item| > 0
    requires var kind := KindOf(item);
             kind == None || kind == Some(WaitApproval) || kind == Some(Reason) || kind == Some(Vars) || kind == Some(Inspect)
    ensures OthersKept(KindOf(item), f, Apply(dur, f, item))
  {
    hide KindOf;
    hide WaitValue;
    hide TextValue;
    hide IsBrk;
    hide TargetOr;
  }

  lemma SwitchTouchesNone(dur: Durations, f: Flags, item: Item)
    requires |item| > 0 && KindOf(item).Some?
    requires var p := KindOf(item).value; p == NoPrivsep || p == Json || p == DryRun || p == ForceAsk || p == AskOnce
    ensures OthersKept(KindOf(item), f, Apply(dur, f, item))
  {
    hide KindOf;
    hide WaitValue;
    hide TextValue;
    hide IsBrk;
    hide TargetOr;
  }

  /** What an attached value is: the text after the prefix that ends in the first '='. */
  lemma {:induction false} AfterPrefix(prefix: string, a: string)
    requires |prefix| > 0 && prefix[|prefix| - 1] == '=' && '=' !in prefix[..|prefix| - 1] && prefix <= a
    ensures AfterEquals(a) == a[|prefix|..] && '=' in a
  {
    assert a[|prefix| - 1] == '=';
    if |prefix| > 1 {
      assert prefix[0] in prefix[..|prefix| - 1];
      assert a[1..][..|prefix| - 1] == prefix[1..];
      assert prefix[1..][..|prefix| - 2] == prefix[..|prefix| - 1][1..];
      AfterPrefix(prefix[1..], a[1..]);
    }
  }

  /** A pass takes the item at i: everything before is as it was, the item's value goes into the flags. */
  lemma TakeItem(dur: Durations, p: Pass, args: seq<string>, i: nat, n: nat, out: seq<string>, f: Flags)
    requires i < |args| && !EndsFlags(args[i]) && !Valueless(args[i..]) && n == ExecFlagValueLen(dur, args, i)
    requires KindOf(args[i..i + 1 + n]) == Some(p)
    requires Strip(dur, p, args) == out + Strip(dur, p, args[i..]) && FlagsOf(dur, args) == FlagsAfter(dur, args[i..], f)
    ensures Strip(dur, p, args) == out + Strip(dur, p, args[i + 1 + n..])
    ensures FlagsOf(dur, args) == FlagsAfter(dur, args[i + 1 + n..], Apply(dur, f, args[i..i + 1 + n]))
  {
    hide *;
    FlagsGoOn(args, i);
    PassStep(dur, p, args, i, out, f);
  }

  const WAIT := "--wait-approval"
  const WAIT_ATTACHED := "--wait-approval="

  method StripWaitApproval(dur: Durations, args: seq<string>) returns (out: seq<string>, wait: int, found: bool)
    ensures out == Strip(dur, WaitApproval, args)
    ensures FlagsOf(dur, args).wait == (if found then Some(wait) else None) && (!found ==> wait == 0)
  {
    hide *;
    out, wait, found := [], 0, false;
    var i := 0;
    ghost var f := NO_FLAGS;
    PassStart(dur, WaitApproval, args);
    NothingCollected();
    while i < |args|
      invariant 0 <= i <= |args| && f.wait == (if found then Some(wait) else None) && (!found ==> wait == 0)
      invariant Strip(dur, WaitApproval, args) == out + Strip(dur, WaitApproval, args[i..])
      invariant FlagsOf(dur, args) == FlagsAfter(dur, args[i..], f)
    {
      var a := args[i];
      if EndsFlags(a) {
        PassDone(dur, WaitApproval, args, i, out, f);
        return out + args[i..], wait, found;
      }
      if a == WAIT {
        WaitItem(dur, args, i, f);
        ghost var n := ExecFlagValueLen(dur, args, i);
        TakeItem(dur, WaitApproval, args, i, n, out, f);
        f := Apply(dur, f, args[i..i + 1 + n]);
        found, wait := true, DEFAULT_APPROVAL_WAIT;
        if i + 1 < |args| && !StartsDash(args[i + 1]) {
          if dur(args[i + 1]).Some? {
            wait := dur(args[i + 1]).value;
            i := i + 1;
          }
        }
      } else if WAIT_ATTACHED <= a {
        AttachedWaitItem(dur, args, i, f);
        TakeItem(dur, WaitApproval, args, i, 0, out, f);
        f := Apply(dur, f, args[i..i + 1]);
        found := true;
        wait := DEFAULT_APPROVAL_WAIT;
        if dur(a[|WAIT_ATTACHED|..]).Some? {
          wait := dur(a[|WAIT_ATTACHED|..]).value;
        }
      } else {
        var n := ExecFlagValueLen(dur, args, i);
        OtherThanWait(args[i..i + 1 + n]);
        ApplyTouchesOwn(dur, f, args[i..i + 1 + n]);
        f := CopyItem(dur, WaitApproval, args, i, out, f);
        out := out + args[i..i + 1 + n];
        i := i + n;
      }
      i := i + 1;
    }
    PassDone(dur, WaitApproval, args, i, out, f);
  }

  lemma NothingCollected()
    ensures NO_FLAGS.wait == None && NO_FLAGS.reason == "" && NO_FLAGS.vars == []
    ensures NO_FLAGS.inspect == Inspection(false, false, "")
  {
  }

  lemma OtherThanWait(item: Item)
    requires |item| > 0 && item[0] != WAIT && !(WAIT_ATTACHED <= item[0])
    ensures KindOf(item) != Some(WaitApproval)
  {
  }

  lemma WaitItem(dur: Durations, args: seq<string>, i: nat, f: Flags)
    requires i < |args| && args[i] == WAIT
    ensures var n := ExecFlagValueLen(dur, args, i);
            var item := args[i..i + 1 + n];
            var takes := i + 1 < |args| && !StartsDash(args[i + 1]) && dur(args[i + 1]).Some?;
            && !Valueless(args[i..]) && KindOf(item) == Some(WaitApproval)
            && n == (if takes then 1 else 0)
            && Apply(dur, f, item).wait == Some(if takes then dur(args[i + 1]).value else DEFAULT_APPROVAL_WAIT)
  {
    hide LooksLikePort;
    var n := ExecFlagValueLen(dur, args, i);
    var item := args[i..i + 1 + n];
    assert args[i..][0] == WAIT && item[0] == WAIT;
    assert '=' !in WAIT;
    WaitKind(item);
    assert n == 1 ==> item[1] == args[i + 1];
  }

  lemma WaitKind(item: Item)
    requires |item| > 0 && (item[0] == WAIT || WAIT_ATTACHED <= item[0])
    ensures KindOf(item) == Some(WaitApproval)
  {
    assert item[0][2] == 'w';
    assert "--no-privsep"[2] == 'n';
  }

  lemma AttachedWaitItem(dur: Durations, args: seq<string>, i: nat, f: Flags)
    requires i < |args| && WAIT_ATTACHED <= args[i]
    ensures !Valueless(args[i..]) && ExecFlagValueLen(dur, args, i) == 0 && args[i..i + 1] == [args[i]]
    ensures KindOf([args[i]]) == Some(WaitApproval)
    ensures var text := args[i][|WAIT_ATTACHED|..];
            Apply(dur, f, [args[i]]).wait == Some(if dur(text).Some? then dur(text).value else DEFAULT_APPROVAL_WAIT)
  {
    hide LooksLikePort;
    hide AfterEquals;
    var a := args[i];
    assert args[i..][0] == a;
    assert a[..|WAIT_ATTACHED|] == WAIT_ATTACHED && a[|WAIT_ATTACHED| - 1] == '=';
    WaitKind([a]);
    AfterPrefix(WAIT_ATTACHED, a);
  }

  const REASON := "--reason"
  const WHY := "--why"
  const REASON_ATTACHED := "--reason="
  const WHY_ATTACHED := "--why="

  method StripExecReason(dur: Durations, args: seq<string>) returns (out: seq<string>, reason: string)
    ensures out == Strip(dur, Reason, args) && reason == FlagsOf(dur, args).reason
  {
    hide *;
    out, reason := [], "";
    var i := 0;
    ghost var f := NO_FLAGS;
    PassStart(dur, Reason, args);
    NothingCollected();
    while i < |args|
      invariant 0 <= i <= |args| && reason == f.reason
      invariant Strip(dur, Reason, args) == out + Strip(dur, Reason, args[i..])
      invariant FlagsOf(dur, args) == FlagsAfter(dur, args[i..], f)
    {
      var a := args[i];
      if EndsFlags(a) {
        PassDone(dur, Reason, args, i, out, f);
        return out + args[i..], reason;
      }
      if REASON_ATTACHED <= a || WHY_ATTACHED <= a {
        AttachedReasonItem(dur, args, i, f);
        TakeItem(dur, Reason, args, i, 0, out, f);
        f := Apply(dur, f, args[i..i + 1]);
        reason := if REASON_ATTACHED <= a then a[|REASON_ATTACHED|..] else a[|WHY_ATTACHED|..];
        i := i + 1;
        continue;
      }
      if (a == REASON || a == WHY) && i + 1 < |args| {
        ReasonItem(dur, args, i, f);
        TakeItem(dur, Reason, args, i, 1, out, f);
        f := Apply(dur, f, args[i..i + 2]);
        reason := args[i + 1];
        i := i + 2;
        continue;
      }
      var n := ExecFlagValueLen(dur, args, i);
      OtherThanReason(args, i, args[i..i + 1 + n]);
      ApplyTouchesOwn(dur, f, args[i..i + 1 + n]);
      f := CopyItem(dur, Reason, args, i, out, f);
      out := out + args[i..i + 1 + n];
      i := i + 1 + n;
    }
    PassDone(dur, Reason, args, i, out, f);
  }

  lemma ReasonKind(item: Item)
    requires |item| > 0
    requires item[0] == REASON || item[0] == WHY || REASON_ATTACHED <= item[0] || WHY_ATTACHED <= item[0]
    ensures KindOf(item) == Some(Reason)
  {
    var a := item[0];
    assert a[2] == 'r' || (a[2] == 'w' && a[3] == 'h');
    assert "--no-privsep"[2] == 'n' && "--json"[2] == 'j' && "--dry-run"[2] == 'd' && "--force-ask"[2] == 'f';
    assert WAIT[3] == 'a' && WAIT_ATTACHED[3] == 'a' && WAIT[2] == 'w' && WAIT_ATTACHED[2] == 'w';
  }

  lemma ReasonItem(dur: Durations, args: seq<string>, i: nat, f: Flags)
    requires i + 1 < |args| && (args[i] == REASON || args[i] == WHY)
    ensures !Valueless(args[i..]) && ExecFlagValueLen(dur, args, i) == 1
    ensures KindOf(args[i..i + 2]) == Some(Reason) && Apply(dur, f, args[i..i + 2]).reason == args[i + 1]
  {
    hide KindOf;
    hide LooksLikePort;
    ReasonKind(args[i..i + 2]);
  }

  lemma AttachedReasonItem(dur: Durations, args: seq<string>, i: nat, f: Flags)
    requires i < |args| && (REASON_ATTACHED <= args[i] || WHY_ATTACHED <= args[i])
    ensures !Valueless(args[i..]) && ExecFlagValueLen(dur, args, i) == 0 && args[i..i + 1] == [args[i]]
    ensures KindOf([args[i]]) == Some(Reason)
    ensures Apply(dur, f, [args[i]]).reason ==
            if REASON_ATTACHED <= args[i] then args[i][|REASON_ATTACHED|..] else args[i][|WHY_ATTACHED|..]
  {
    hide KindOf;
    hide AfterEquals;
    hide LooksLikePort;
    var a := args[i];
    ReasonKind([a]);
    AfterPrefix(if REASON_ATTACHED <= a then REASON_ATTACHED else WHY_ATTACHED, a);
    NoSeparateValue(dur, args, i);
  }

  /** A flag with an equals sign in it never takes the next token. */
  lemma NoSeparateValue(dur: Durations, args: seq<string>, i: nat)
    requires i < |args| && '=' in args[i]
    ensures !Valueless(args[i..]) && ExecFlagValueLen(dur, args, i) == 0
  {
    hide LooksLikePort;
    assert args[i..][0] == args[i];
    assert '=' !in REASON && '=' !in WHY && '=' !in VAR && '=' !in WAIT && '=' !in INSPECT && '=' !in INSPECT_BRK;
  }

  lemma OtherThanReason(args: seq<string>, i: nat, item: Item)
    requires i < |args| && |item| > 0 && item[0] == args[i]
    requires !(REASON_ATTACHED <= args[i]) && !(WHY_ATTACHED <= args[i])
    requires !((args[i] == REASON || args[i] == WHY) && i + 1 < |args|)
    ensures Valueless(args[i..]) || KindOf(item) != Some(Reason)
  {
    assert i + 1 == |args| ==> args[i..] == [args[i]];
  }

  const VAR := "--var"
  const VAR_ATTACHED := "--var="

  method StripExecVars(dur: Durations, args: seq<string>) returns (out: seq<string>, vars: seq<string>)
    ensures out == Strip(dur, Vars, args) && vars == FlagsOf(dur, args).vars
  {
    hide *;
    out, vars := [], [];
    var i := 0;
    ghost var f := NO_FLAGS;
    PassStart(dur, Vars, args);
    NothingCollected();
    while i < |args|
      invariant 0 <= i <= |args| && vars == f.vars
      invariant Strip(dur, Vars, args) == out + Strip(dur, Vars, args[i..])
      invariant FlagsOf(dur, args) == FlagsAfter(dur, args[i..], f)
    {
      var a := args[i];
      if EndsFlags(a) {
        PassDone(dur, Vars, args, i, out, f);
        return out + args[i..], vars;
      }
      if VAR_ATTACHED <= a {
        AttachedVarItem(dur, args, i, f);
        TakeItem(dur, Vars, args, i, 0, out, f);
        f := Apply(dur, f, args[i..i + 1]);
        vars := vars + [a[|VAR_ATTACHED|..]];
        i := i + 1;
        continue;
      }
      if a == VAR && i + 1 < |args| {
        VarItem(dur, args, i, f);
        TakeItem(dur, Vars, args, i, 1, out, f);
        f := Apply(dur, f, args[i..i + 2]);
        vars := vars + [args[i + 1]];
        i := i + 2;
        continue;
      }
      var n := ExecFlagValueLen(dur, args, i);
      OtherThanVars(args, i, args[i..i + 1 + n]);
      ApplyTouchesOwn(dur, f, args[i..i + 1 + n]);
      f := CopyItem(dur, Vars, args, i, out, f);
      out := out + args[i..i + 1 + n];
      i := i + 1 + n;
    }
    PassDone(dur, Vars, args, i, out, f);
  }

  lemma VarKind(item: Item)
    requires |item| > 0 && (item[0] == VAR || VAR_ATTACHED <= item[0])
    ensures KindOf(item) == Some(Vars)
  {
    assert item[0][2] == 'v';
    assert "--no-privsep"[2] == 'n' && "--json"[2] == 'j' && "--dry-run"[2] == 'd' && "--force-ask"[2] == 'f';
    assert WAIT[2] == 'w' && WAIT_ATTACHED[2] == 'w' && WHY[2] == 'w' && WHY_ATTACHED[2] == 'w';
    assert REASON[2] == 'r' && REASON_ATTACHED[2] == 'r' && "--once"[2] == 'o' && "--ask-once"[2] == 'a';
  }

  lemma VarItem(dur: Durations, args: seq<string>, i: nat, f: Flags)
    requires i + 1 < |args| && args[i] == VAR
    ensures !Valueless(args[i..]) && ExecFlagValueLen(dur, args, i) == 1
    ensures KindOf(args[i..i + 2]) == Some(Vars) && Apply(dur, f, args[i..i + 2]).vars == f.vars + [args[i + 1]]
  {
    hide KindOf;
    hide LooksLikePort;
    VarKind(args[i..i + 2]);
  }

  lemma AttachedVarItem(dur: Durations, args: seq<string>, i: nat, f: Flags)
    requires i < |args| && VAR_ATTACHED <= args[i]
    ensures !Valueless(args[i..]) && ExecFlagValueLen(dur, args, i) == 0 && args[i..i + 1] == [args[i]]
    ensures KindOf([args[i]]) == Some(Vars)
    ensures Apply(dur, f, [args[i]]).vars == f.vars + [args[i][|VAR_ATTACHED|..]]
  {
    hide KindOf;
    hide AfterEquals;
    hide LooksLikePort;
    VarKind([args[i]]);
    AfterPrefix(VAR_ATTACHED, args[i]);
    NoSeparateValue(dur, args, i);
  }

  lemma OtherThanVars(args: seq<string>, i: nat, item: Item)
    requires i < |args| && |item| > 0 && item[0] == args[i]
    requires !(VAR_ATTACHED <= args[i]) && !(args[i] == VAR && i + 1 < |args|)
    ensures Valueless(args[i..]) || KindOf(item) != Some(Vars)
  {
    assert i + 1 == |args| ==> args[i..] == [args[i]];
  }

  const INSPECT := "--inspect"
  const INSPECT_BRK := "--inspect-brk"
  const INSPECT_ATTACHED := "--inspect="
  const INSPECT_BRK_ATTACHED := "--inspect-brk="

  method StripInspect(dur: Durations, args: seq<string>)
    returns (out: seq<string>, brk: bool, value: string, found: bool)
    ensures out == Strip(dur, Inspect, args) && Inspection(found, brk, value) == FlagsOf(dur, args).inspect
  {
    hide *;
    out, brk, value, found := [], false, "", false;
    var i := 0;
    ghost var f := NO_FLAGS;
    PassStart(dur, Inspect, args);
    NothingCollected();
    while i < |args|
      invariant 0 <= i <= |args| && Inspection(found, brk, value) == f.inspect
      invariant Strip(dur, Inspect, args) == out + Strip(dur, Inspect, args[i..])
      invariant FlagsOf(dur, args) == FlagsAfter(dur, args[i..], f)
    {
      var a := args[i];
      if EndsFlags(a) {
        PassDone(dur, Inspect, args, i, out, f);
        return out + args[i..], brk, value, found;
      }
      var isInspect := a == INSPECT || INSPECT_ATTACHED <= a;
      var isBrk := a == INSPECT_BRK || INSPECT_BRK_ATTACHED <= a;
      if !isInspect && !isBrk {
        var n := ExecFlagValueLen(dur, args, i);
        OtherThanInspect(args[i..i + 1 + n]);
        ApplyTouchesOwn(dur, f, args[i..i + 1 + n]);
        f := CopyItem(dur, Inspect, args, i, out, f);
        out := out + args[i..i + 1 + n];
        i := i + n + 1;
        continue;
      }
      InspectItem(dur, args, i, f);
      ghost var n := ExecFlagValueLen(dur, args, i);
      TakeItem(dur, Inspect, args, i, n, out, f);
      f := Apply(dur, f, args[i..i + 1 + n]);
      found, brk := true, isBrk;
      if '=' in a {
        value := AfterEquals(a);
      } else if i + 1 < |args| && LooksLikePort(args[i + 1]) {
        value := args[i + 1];
        i := i + 1;
      }
      i := i + 1;
    }
    PassDone(dur, Inspect, args, i, out, f);
  }

  lemma InspectKind(item: Item)
    requires |item| > 0
    requires item[0] == INSPECT || item[0] == INSPECT_BRK || INSPECT_ATTACHED <= item[0] || INSPECT_BRK_ATTACHED <= item[0]
    ensures KindOf(item) == Some(Inspect)
  {
    assert item[0][2] == 'i';
    assert "--no-privsep"[2] == 'n' && "--json"[2] == 'j' && "--dry-run"[2] == 'd' && "--force-ask"[2] == 'f';
    assert WAIT[2] == 'w' && WAIT_ATTACHED[2] == 'w' && WHY[2] == 'w' && WHY_ATTACHED[2] == 'w';
    assert REASON[2] == 'r' && REASON_ATTACHED[2] == 'r' && "--once"[2] == 'o' && "--ask-once"[2] == 'a';
    assert VAR[2] == 'v' && VAR_ATTACHED[2] == 'v';
  }

  lemma OtherThanInspect(item: Item)
    requires |item| > 0 && item[0] != INSPECT && item[0] != INSPECT_BRK
    requires !(INSPECT_ATTACHED <= item[0]) && !(INSPECT_BRK_ATTACHED <= item[0])
    ensures KindOf(item) != Some(Inspect)
  {
  }

  lemma InspectItem(dur: Durations, args: seq<string>, i: nat, f: Flags)
    requires i < |args|
    requires var a := args[i];
             a == INSPECT || a == INSPECT_BRK || INSPECT_ATTACHED <= a || INSPECT_BRK_ATTACHED <= a
    ensures var a := args[i];
            var n := ExecFlagValueLen(dur, args, i);
            var item := args[i..i + 1 + n];
            var takes := '=' !in a && i + 1 < |args| && LooksLikePort(args[i + 1]);
            && !Valueless(args[i..]) && KindOf(item) == Some(Inspect)
            && n == (if takes then 1 else 0)
            && Apply(dur, f, item).inspect ==
               Inspection(true, a == INSPECT_BRK || INSPECT_BRK_ATTACHED <= a,
                 if '=' in a then AfterEquals(a) else if takes then args[i + 1] else f.inspect.value)
  {
    hide *;
    var n := ExecFlagValueLen(dur, args, i);
    var item := args[i..i + 1 + n];
    InspectKind(item);
    InspectTakes(dur, args, i);
    ApplyInspect(dur, f, item);
    assert n == 1 ==> item[1] == args[i + 1];
  }

  lemma ApplyInspect(dur: Durations, f: Flags, item: Item)
    requires |item| > 0 && KindOf(item) == Some(Inspect)
    ensures Apply(dur, f, item).inspect ==
            Inspection(true, item[0] == INSPECT_BRK || INSPECT_BRK_ATTACHED <= item[0],
              if |item| > 1 then item[1] else if '=' in item[0] then AfterEquals(item[0]) else f.inspect.value)
  {
    hide KindOf;
    hide AfterEquals;
  }

  lemma InspectTakes(dur: Durations, args: seq<string>, i: nat)
    requires i < |args|
    requires var a := args[i];
             a == INSPECT || a == INSPECT_BRK || INSPECT_ATTACHED <= a || INSPECT_BRK_ATTACHED <= a
    ensures !Valueless(args[i..])
    ensures ExecFlagValueLen(dur, args, i) == if '=' !in args[i] && i + 1 < |args| && LooksLikePort(args[i + 1]) then 1 else 0
  {
    hide AfterEquals;
    hide LooksLikePort;
    var a := args[i];
    assert args[i..][0] == a;
    assert a[2] == 'i' && REASON[2] == 'r' && WHY[2] == 'w' && VAR[2] == 'v' && WAIT[2] == 'w';
    if INSPECT_ATTACHED <= a {
      AfterPrefix(INSPECT_ATTACHED, a);
      NoSeparateValue(dur, args, i);
    } else if INSPECT_BRK_ATTACHED <= a {
      AfterPrefix(INSPECT_BRK_ATTACHED, a);
      NoSeparateValue(dur, args, i);
    } else {
      assert '=' !in INSPECT && '=' !in INSPECT_BRK;
    }
  }
}
