/**
 The nine passes of runExec, one after the other, against a single reading of the
 command line from left to right.
 */
module ExecPasses {
  import opened Wrappers
  import opened ExecFlags

  // ---- One reading -----------------------------------------------------------------

  /** Left to right, once: each flag with its value goes into the flags, an unknown one is set aside. */
  function ScanFrom(dur: Durations, args: seq<string>, f: Flags, aside: seq<string>): (Flags, seq<string>)
    decreases |args|
  {
    if NoMoreFlags(args) then (f, aside + args)
    else
      var n := ExecFlagValueLen(dur, args, 0);
      var item := args[..1 + n];
      if KindOf(item).Some? then ScanFrom(dur, args[1 + n..], Apply(dur, f, item), aside)
      else ScanFrom(dur, args[1 + n..], f, aside + item)
  }

  function Scan(dur: Durations, args: seq<string>): (Flags, seq<string>) {
    ScanFrom(dur, args, NO_FLAGS, [])
  }

  function Unknown(items: seq<Item>): seq<Item>
    requires NonEmptyItems(items)
  {
    if |items| == 0 then []
    else
      assert NonEmptyItems(items[1..]);
      (if KindOf(items[0]).Some? then [] else [items[0]]) + Unknown(items[1..])
  }

  lemma {:induction false} ScanIsItems(dur: Durations, args: seq<string>, f: Flags, aside: seq<string>)
    ensures NonEmptyItems(Itemize(dur, args).items)
    ensures ScanFrom(dur, args, f, aside) ==
            (FlagsFrom(dur, Itemize(dur, args).items, f),
             aside + (Flatten(Unknown(Itemize(dur, args).items)) + Itemize(dur, args).tail))
    decreases |args|
  {
    hide KindOf;
    hide Apply;
    hide TakesNext;
    hide NoMoreFlags;
    ItemsNonEmpty(dur, args);
    if !NoMoreFlags(args) {
      var n := ExecFlagValueLen(dur, args, 0);
      var item := args[..1 + n];
      var rest := Itemize(dur, args[1 + n..]);
      ItemsNonEmpty(dur, args[1 + n..]);
      assert Itemize(dur, args) == Parsed([item] + rest.items, rest.tail);
      UnknownFirst(dur, item, rest.items, rest.tail, f, aside);
      if KindOf(item).Some? {
        ScanIsItems(dur, args[1 + n..], Apply(dur, f, item), aside);
      } else {
        ScanIsItems(dur, args[1 + n..], f, aside + item);
      }
    } else {
      assert Flatten(Unknown([])) + args == args;
    }
  }

  lemma {:induction false} UnknownFirst(dur: Durations, item: Item, items: seq<Item>, tail: seq<string>, f: Flags, aside: seq<string>)
    requires |item| > 0 && NonEmptyItems(items)
    ensures var all := [item] + items;
            && NonEmptyItems(all)
            && FlagsFrom(dur, all, f) == FlagsFrom(dur, items, if KindOf(item).Some? then Apply(dur, f, item) else f)
            && aside + (Flatten(Unknown(all)) + tail) ==
               (if KindOf(item).Some? then aside else aside + item) + (Flatten(Unknown(items)) + tail)
  {
    hide KindOf;
    hide Apply;
    var all, unknown := [item] + items, Unknown(items);
    assert all[1..] == items;
    if KindOf(item).Some? {
      assert [] + unknown == unknown;
    } else {
      UnknownChangesNothing(dur, f, item);
      assert ([item] + unknown)[1..] == unknown;
      ConcatAssoc(item, Flatten(unknown), tail);
      ConcatAssoc(aside, item, Flatten(unknown) + tail);
    }
  }

  lemma UnknownChangesNothing(dur: Durations, f: Flags, item: Item)
    requires |item| > 0 && KindOf(item).None?
    ensures Apply(dur, f, item) == f
  {
    hide KindOf;
  }

  // ---- Nine passes -------------------------------------------------------------------

  /** What one pass is about. */
  datatype Finding = Present(found: bool) | Wait(wait: Option<int>) | Text(text: string) | Names(names: seq<string>) | Target(target: Inspection)

  function Field(p: Pass, f: Flags): Finding {
    match p
    case NoPrivsep => Present(f.noPrivsep)
    case WaitApproval => Wait(f.wait)
    case Json => Present(f.json)
    case DryRun => Present(f.dryRun)
    case ForceAsk => Present(f.forceAsk)
    case Reason => Text(f.reason)
    case AskOnce => Present(f.askOnce)
    case Vars => Names(f.vars)
    case Inspect => Target(f.inspect)
  }

  /** The passes ps in turn, each on what the one before left: what each finds, and what is left at the end. */
  function Passes(dur: Durations, args: seq<string>, ps: seq<Pass>): (map<Pass, Finding>, seq<string>)
    decreases |ps|
  {
    if |ps| == 0 then (map[], args)
    else
      var (found, left) := Passes(dur, Strip(dur, ps[0], args), ps[1..]);
      (found[ps[0] := Field(ps[0], FlagsOf(dur, args))], left)
  }

  function NinePasses(dur: Durations, args: seq<string>): (map<Pass, Finding>, seq<string>) {
    Passes(dur, args, ORDER)
  }

  /** The nine passes find what one reading finds, and leave what it leaves. */
  ghost predicate Agree(dur: Durations, args: seq<string>) {
    var (found, left) := NinePasses(dur, args);
    && left == Scan(dur, args).1
    && forall p :: p in found && found[p] == Field(p, Scan(dur, args).0)
  }

  // ---- When an optional value can be picked up by the wrong flag ------------------------

  /** A flag and its value, complete; never a value flag that lacks its value. */
  predicate ItemOk(dur: Durations, item: Item) {
    && 1 <= |item| <= 2 && !EndsFlags(item[0])
    && (|item| == 1 ==> !NeedsValue(item[0]))
    && (|item| == 2 ==> TakesNext(dur, item[0], item[1]))
  }

  ghost predicate ItemsOk(dur: Durations, items: seq<Item>) {
    forall i | 0 <= i < |items| :: ItemOk(dur, items[i])
  }

  /** The last of these flags stands without a value and would take the next token as one. */
  predicate Grabs(dur: Durations, items: seq<Item>, next: seq<string>) {
    && |items| > 0 && |next| > 0
    && var last := items[|items| - 1];
       |last| == 1 && TakesNext(dur, last[0], next[0])
  }

  lemma {:induction false} ItemizeOk(dur: Durations, args: seq<string>)
    ensures var parsed := Itemize(dur, args);
            && ItemsOk(dur, parsed.items) && NoMoreFlags(parsed.tail) && !Grabs(dur, parsed.items, parsed.tail)
            && Flatten(parsed.items) + parsed.tail == args
    decreases |args|
  {
    hide TakesNext;
    hide NeedsValue;
    hide EndsFlags;
    if !NoMoreFlags(args) {
      var n := ExecFlagValueLen(dur, args, 0);
      var rest := Itemize(dur, args[1 + n..]);
      var item := args[..1 + n];
      ItemizeOk(dur, args[1 + n..]);
      FirstItemOk(dur, args);
      var items := [item] + rest.items;
      assert items[1..] == rest.items;
      ConcatAssoc(item, Flatten(rest.items), rest.tail);
      Halves(args, 1 + n);
      if |rest.items| == 0 {
        assert rest.tail == args[1 + n..];
      } else {
        assert items[|items| - 1] == rest.items[|rest.items| - 1];
      }
    }
  }

  lemma FirstItemOk(dur: Durations, args: seq<string>)
    requires !NoMoreFlags(args)
    ensures var n := ExecFlagValueLen(dur, args, 0);
            ItemOk(dur, args[..1 + n]) && !(n == 0 && |args| > 1 && TakesNext(dur, args[0], args[1]))
  {
    hide EndsFlags;
    hide LooksLikePort;
  }

  /** A token that starts with a dash is no optional value. */
  lemma DashIsNoValue(dur: Durations, a: string, next: string)
    requires StartsDash(next) && !NeedsValue(a)
    ensures !TakesNext(dur, a, next)
  {
  }

  /** Items are found again in front of whatever their last flag does not grab. */
  lemma {:induction false} ItemizeFlatten(dur: Durations, items: seq<Item>, y: seq<string>)
    requires ItemsOk(dur, items) && !Grabs(dur, items, y)
    ensures Itemize(dur, Flatten(items) + y) == Parsed(items + Itemize(dur, y).items, Itemize(dur, y).tail)
  {
    if |items| == 0 {
      assert Flatten(items) + y == y;
      assert items + Itemize(dur, y).items == Itemize(dur, y).items;
    } else {
      hide TakesNext;
      hide NeedsValue;
      hide EndsFlags;
      var item, rest := items[0], items[1..];
      assert items == [item] + rest;
      assert |rest| > 0 ==> rest[|rest| - 1] == items[|items| - 1];
      ItemizeFlatten(dur, rest, y);
      var args, after := Flatten(items) + y, Flatten(rest) + y;
      ConcatAssoc(item, Flatten(rest), y);
      assert args[..|item|] == item && args[|item|..] == after;
      assert |rest| > 0 ==> after[0] == rest[0][0];
      FirstItemFound(dur, item, after);
      ConcatAssoc([item], rest, Itemize(dur, y).items);
    }
  }

  lemma FirstItemFound(dur: Durations, item: Item, after: seq<string>)
    requires ItemOk(dur, item)
    requires |after| > 0 && |item| == 1 ==> !TakesNext(dur, item[0], after[0]) || StartsDash(after[0])
    ensures var args := item + after;
            !NoMoreFlags(args) && ExecFlagValueLen(dur, args, 0) == |item| - 1
  {
    hide LooksLikePort;
    var args := item + after;
    assert args[0] == item[0];
    if |item| == 2 {
      assert args[1] == item[1];
    } else if |after| > 0 {
      assert args[1] == after[0];
      if StartsDash(after[0]) {
        DashIsNoValue(dur, item[0], after[0]);
      }
    }
  }

  // ---- The items after some passes --------------------------------------------------------

  function WithoutAll(items: seq<Item>, ps: seq<Pass>): (r: seq<Item>)
    requires NonEmptyItems(items)
    ensures NonEmptyItems(r)
    decreases |ps|
  {
    if |ps| == 0 then items else WithoutAll(Without(items, ps[0]), ps[1..])
  }

  lemma {:induction false} WithoutKeeps(dur: Durations, items: seq<Item>, p: Pass)
    requires ItemsOk(dur, items) && NonEmptyItems(items)
    ensures ItemsOk(dur, Without(items, p))
    ensures forall i | 0 <= i < |Without(items, p)| :: Without(items, p)[i] in items && KindOf(Without(items, p)[i]) != Some(p)
  {
    hide KindOf;
    hide ItemOk;
    if |items| > 0 {
      assert forall i | 1 <= i < |items| :: items[1..][i - 1] == items[i];
      assert NonEmptyItems(items[1..]);
      WithoutKeeps(dur, items[1..], p);
    }
  }

  lemma {:induction false} FlattenConcat(a: seq<Item>, b: seq<Item>)
    ensures Flatten(a + b) == Flatten(a) + Flatten(b)
  {
    if |a| == 0 {
      assert a + b == b;
    } else {
      assert (a + b)[1..] == a[1..] + b;
      FlattenConcat(a[1..], b);
      ConcatAssoc(a[0], Flatten(a[1..]), Flatten(b));
    }
  }

  lemma {:induction false} WithoutConcat(a: seq<Item>, b: seq<Item>, p: Pass)
    requires NonEmptyItems(a) && NonEmptyItems(b)
    ensures NonEmptyItems(a + b)
    ensures Without(a + b, p) == Without(a, p) + Without(b, p)
  {
    hide KindOf;
    if |a| == 0 {
      assert a + b == b;
    } else {
      var first := if KindOf(a[0]) == Some(p) then [] else [a[0]];
      assert NonEmptyItems(a[1..]);
      assert (a + b)[1..] == a[1..] + b && (a + b)[0] == a[0];
      WithoutConcat(a[1..], b, p);
      ConcatAssoc(first, Without(a[1..], p), Without(b, p));
    }
  }

  /** A pass works through the items and goes on with what follows. */
  lemma {:induction false} StripItems(dur: Durations, p: Pass, items: seq<Item>, y: seq<string>)
    requires ItemsOk(dur, items) && NonEmptyItems(items) && !Grabs(dur, items, y)
    ensures Strip(dur, p, Flatten(items) + y) == Flatten(Without(items, p)) + Strip(dur, p, y)
  {
    hide ItemOk;
    hide Grabs;
    hide KindOf;
    ItemizeFlatten(dur, items, y);
    ItemsNonEmpty(dur, y);
    var more := Itemize(dur, y).items;
    WithoutConcat(items, more, p);
    FlattenConcat(Without(items, p), Without(more, p));
    ConcatAssoc(Flatten(Without(items, p)), Flatten(Without(more, p)), Itemize(dur, y).tail);
  }

  /** The end of the flags, as it stays for every pass. */
  lemma TailStays(dur: Durations, p: Pass, y: seq<string>, f: Flags)
    requires NoMoreFlags(y)
    ensures Strip(dur, p, y) == y && Itemize(dur, y) == Parsed([], y)
  {
    StripEnd(dur, p, y, f);
  }

  /** At no pass does the flag then last grab the token the flags end at. */
  ghost predicate NeverGrabs(dur: Durations, items: seq<Item>, y: seq<string>, ps: seq<Pass>)
    requires NonEmptyItems(items)
    decreases |ps|
  {
    |ps| > 0 ==> !Grabs(dur, items, y) && NeverGrabs(dur, Without(items, ps[0]), y, ps[1..])
  }

  // ---- Without grabbing, the passes agree with the scan --------------------------------------

  /** What a pass finds depends on its own items only. */
  lemma {:induction false} FieldWithout(dur: Durations, items: seq<Item>, p: Pass, q: Pass, f: Flags, g: Flags)
    requires NonEmptyItems(items) && q != p && Field(q, f) == Field(q, g)
    ensures Field(q, FlagsFrom(dur, items, f)) == Field(q, FlagsFrom(dur, Without(items, p), g))
  {
    hide KindOf;
    hide Apply;
    hide Field;
    if |items| > 0 {
      assert NonEmptyItems(items[1..]);
      var item, rest := items[0], Without(items[1..], p);
      ApplyField(dur, f, g, item, q);
      if KindOf(item) == Some(p) {
        assert [] + rest == rest;
        FieldWithout(dur, items[1..], p, q, Apply(dur, f, item), g);
      } else {
        assert ([item] + rest)[1..] == rest;
        FieldWithout(dur, items[1..], p, q, Apply(dur, f, item), Apply(dur, g, item));
      }
    }
  }

  lemma ApplyField(dur: Durations, f: Flags, g: Flags, item: Item, q: Pass)
    requires |item| > 0 && Field(q, f) == Field(q, g)
    ensures Field(q, Apply(dur, f, item)) == Field(q, Apply(dur, g, item))
    ensures KindOf(item) != Some(q) ==> Field(q, Apply(dur, f, item)) == Field(q, f)
  {
    hide *;
    if KindOf(item) == Some(q) {
      ApplyOwn(dur, f, g, item, q);
    } else {
      ApplyOther(dur, f, item, q);
      ApplyOther(dur, g, item, q);
    }
  }

  lemma ApplyOther(dur: Durations, f: Flags, item: Item, q: Pass)
    requires |item| > 0 && KindOf(item) != Some(q)
    ensures Field(q, Apply(dur, f, item)) == Field(q, f)
  {
    hide *;
    if KindOf(item).Some? {
      var p := KindOf(item).value;
      assert p != q;
      if p == NoPrivsep || p == WaitApproval || p == Json || p == DryRun || p == ForceAsk {
        ApplyEarlyPass(dur, f, item, q);
      } else {
        ApplyLatePass(dur, f, item, q);
      }
    } else {
      UnknownChangesNothing(dur, f, item);
    }
  }

  lemma ApplyEarlyPass(dur: Durations, f: Flags, item: Item, q: Pass)
    requires |item| > 0 && KindOf(item).Some? && KindOf(item).value != q
    requires var p := KindOf(item).value; p == NoPrivsep || p == WaitApproval || p == Json || p == DryRun || p == ForceAsk
    ensures Field(q, Apply(dur, f, item)) == Field(q, f)
  {
    hide KindOf;
    hide WaitValue;
    hide TextValue;
    hide IsBrk;
    hide TargetOr;
    match KindOf(item).value { case NoPrivsep => case WaitApproval => case Json => case DryRun => case _ => }
  }

  lemma ApplyLatePass(dur: Durations, f: Flags, item: Item, q: Pass)
    requires |item| > 0 && KindOf(item).Some? && KindOf(item).value != q
    requires var p := KindOf(item).value; p == Reason || p == AskOnce || p == Vars || p == Inspect
    ensures Field(q, Apply(dur, f, item)) == Field(q, f)
  {
    hide KindOf;
    hide WaitValue;
    hide TextValue;
    hide IsBrk;
    hide TargetOr;
    match KindOf(item).value { case Reason => case AskOnce => case Vars => case _ => }
  }

  lemma ApplyOwn(dur: Durations, f: Flags, g: Flags, item: Item, q: Pass)
    requires |item| > 0 && KindOf(item) == Some(q) && Field(q, f) == Field(q, g)
    ensures Field(q, Apply(dur, f, item)) == Field(q, Apply(dur, g, item))
  {
    hide KindOf;
    hide WaitValue;
    hide TextValue;
    hide IsBrk;
    hide TargetOr;
    match q { case NoPrivsep => case WaitApproval => case Json => case DryRun => case ForceAsk =>
              case Reason => case AskOnce => case Vars => case Inspect => }
  }

  ghost predicate Distinct(ps: seq<Pass>) {
    forall i, j | 0 <= i < j < |ps| :: ps[i] != ps[j]
  }

  lemma FlagsOfItems(dur: Durations, items: seq<Item>, y: seq<string>)
    requires ItemsOk(dur, items) && NonEmptyItems(items) && NoMoreFlags(y) && !Grabs(dur, items, y)
    ensures FlagsOf(dur, Flatten(items) + y) == FlagsFrom(dur, items, NO_FLAGS)
  {
    hide ItemOk;
    hide Grabs;
    hide NoMoreFlags;
    ItemizeFlatten(dur, items, y);
    TailStays(dur, NoPrivsep, y, NO_FLAGS);
    assert items + [] == items;
  }

  lemma {:induction false} PassesOnItems(dur: Durations, items: seq<Item>, y: seq<string>, ps: seq<Pass>)
    requires ItemsOk(dur, items) && NonEmptyItems(items) && NoMoreFlags(y) && Distinct(ps)
    requires NeverGrabs(dur, items, y, ps)
    ensures var (found, left) := Passes(dur, Flatten(items) + y, ps);
            && left == Flatten(WithoutAll(items, ps)) + y
            && forall q | q in ps :: q in found && found[q] == Field(q, FlagsFrom(dur, items, NO_FLAGS))
    decreases |ps|
  {
    hide KindOf;
    hide ItemOk;
    hide Grabs;
    hide Field;
    hide Strip;
    hide NoMoreFlags;
    hide FlagsOf;
    if |ps| > 0 {
      var p, rest := ps[0], ps[1..];
      WithoutKeeps(dur, items, p);
      StripItems(dur, p, items, y);
      TailStays(dur, p, y, NO_FLAGS);
      FlagsOfItems(dur, items, y);
      PassesOnItems(dur, Without(items, p), y, rest);
      forall q | q in rest
        ensures Field(q, FlagsFrom(dur, Without(items, p), NO_FLAGS)) == Field(q, FlagsFrom(dur, items, NO_FLAGS))
      {
        assert q != p;
        FieldWithout(dur, items, p, q, NO_FLAGS, NO_FLAGS);
      }
    }
  }

  /** What no pass takes is what the scan sets aside. */
  lemma {:induction false} WithoutAllIsUnknown(items: seq<Item>, ps: seq<Pass>)
    requires NonEmptyItems(items)
    requires forall i | 0 <= i < |items| && KindOf(items[i]).Some? :: KindOf(items[i]).value in ps
    ensures WithoutAll(items, ps) == Unknown(items)
    decreases |ps|
  {
    hide KindOf;
    if |ps| == 0 {
      AllUnknown(items);
    } else {
      WithoutFewer(items, ps[0], ps);
      UnknownWithout(items, ps[0]);
      WithoutAllIsUnknown(Without(items, ps[0]), ps[1..]);
    }
  }

  lemma {:induction false} AllUnknown(items: seq<Item>)
    requires NonEmptyItems(items) && forall i | 0 <= i < |items| :: KindOf(items[i]).None?
    ensures Unknown(items) == items
  {
    hide KindOf;
    if |items| > 0 {
      assert NonEmptyItems(items[1..]);
      AllUnknown(items[1..]);
    }
  }

  lemma {:induction false} UnknownWithout(items: seq<Item>, p: Pass)
    requires NonEmptyItems(items)
    ensures Unknown(Without(items, p)) == Unknown(items)
  {
    hide KindOf;
    if |items| > 0 {
      assert NonEmptyItems(items[1..]);
      UnknownWithout(items[1..], p);
      var w := Without(items[1..], p);
      assert ([items[0]] + w)[1..] == w;
      assert [] + w == w;
    }
  }

  /** After a pass, the kinds still present belong to the passes still to come. */
  lemma {:induction false} WithoutFewer(items: seq<Item>, p: Pass, ps: seq<Pass>)
    requires NonEmptyItems(items) && |ps| > 0 && p == ps[0]
    requires forall i | 0 <= i < |items| && KindOf(items[i]).Some? :: KindOf(items[i]).value in ps
    ensures forall i | 0 <= i < |Without(items, p)| && KindOf(Without(items, p)[i]).Some? ::
              KindOf(Without(items, p)[i]).value in ps[1..]
  {
    hide KindOf;
    if |items| > 0 {
      assert NonEmptyItems(items[1..]);
      assert forall i | 1 <= i < |items| :: items[1..][i - 1] == items[i];
      WithoutFewer(items[1..], p, ps);
    }
  }

  lemma OrderHasAll(p: Pass)
    ensures p in ORDER && Distinct(ORDER)
  {
    assert ORDER[0] == NoPrivsep && ORDER[1] == WaitApproval && ORDER[2] == Json && ORDER[3] == DryRun;
    assert ORDER[4] == ForceAsk && ORDER[5] == Reason && ORDER[6] == AskOnce && ORDER[7] == Vars && ORDER[8] == Inspect;
  }

  /** If no flag ever grabs the alias, nine passes read what one reading reads. */
  lemma NeverGrabsMeansAgree(dur: Durations, args: seq<string>)
    requires var parsed := Itemize(dur, args);
             NonEmptyItems(parsed.items) && NeverGrabs(dur, parsed.items, parsed.tail, ORDER)
    ensures Agree(dur, args)
  {
    hide KindOf;
    hide Apply;
    hide ItemOk;
    hide Grabs;
    hide NeverGrabs;
    hide Passes;
    hide Field;
    hide Itemize;
    hide Unknown;
    hide WithoutAll;
    hide Flatten;
    hide FlagsFrom;
    hide ScanFrom;
    hide TakesNext;
    hide NoMoreFlags;
    var parsed := Itemize(dur, args);
    ItemizeOk(dur, args);
    OrderHasAll(NoPrivsep);
    PassesOnItems(dur, parsed.items, parsed.tail, ORDER);
    AllKindsInOrder(parsed.items);
    WithoutAllIsUnknown(parsed.items, ORDER);
    ScanIsItems(dur, args, NO_FLAGS, []);
    var left := Flatten(Unknown(parsed.items)) + parsed.tail;
    assert [] + left == left;
    forall p: Pass ensures p in ORDER { OrderHasAll(p); }
  }

  lemma AllKindsInOrder(items: seq<Item>)
    requires NonEmptyItems(items)
    ensures forall i | 0 <= i < |items| && KindOf(items[i]).Some? :: KindOf(items[i]).value in ORDER
  {
    hide KindOf;
    forall p: Pass ensures p in ORDER { OrderHasAll(p); }
  }

  // ---- When a flag grabs the alias, something is lost -----------------------------------

  lemma {:induction false} WithoutShrinks(items: seq<Item>, p: Pass)
    requires NonEmptyItems(items)
    ensures |Flatten(Without(items, p))| <= |Flatten(items)|
  {
    hide KindOf;
    if |items| > 0 {
      assert NonEmptyItems(items[1..]);
      var w := Without(items[1..], p);
      assert ([items[0]] + w)[1..] == w;
      assert [] + w == w;
      WithoutShrinks(items[1..], p);
    }
  }

  lemma {:induction false} WithoutAllShrinks(items: seq<Item>, ps: seq<Pass>)
    requires NonEmptyItems(items)
    ensures |Flatten(WithoutAll(items, ps))| <= |Flatten(items)|
    decreases |ps|
  {
    hide Without;
    if |ps| > 0 {
      WithoutShrinks(items, ps[0]);
      WithoutAllShrinks(Without(items, ps[0]), ps[1..]);
    }
  }

  lemma {:induction false} WithoutAllConcat(a: seq<Item>, b: seq<Item>, ps: seq<Pass>)
    requires NonEmptyItems(a) && NonEmptyItems(b)
    ensures NonEmptyItems(a + b)
    ensures WithoutAll(a + b, ps) == WithoutAll(a, ps) + WithoutAll(b, ps)
    decreases |ps|
  {
    hide Without;
    if |ps| > 0 {
      WithoutConcat(a, b, ps[0]);
      WithoutAllConcat(Without(a, ps[0]), Without(b, ps[0]), ps[1..]);
    }
  }

  lemma {:induction false} WithoutAllOne(item: Item, ps: seq<Pass>)
    requires |item| > 0
    ensures NonEmptyItems([item])
    ensures WithoutAll([item], ps) == if KindOf(item).Some? && KindOf(item).value in ps then [] else [item]
    decreases |ps|
  {
    hide KindOf;
    assert [item][1..] == [];
    if |ps| > 0 {
      assert Without([item], ps[0]) == if KindOf(item) == Some(ps[0]) then [] else [item];
      if KindOf(item) == Some(ps[0]) {
        WithoutAllEmpty(ps[1..]);
      } else {
        WithoutAllOne(item, ps[1..]);
      }
    }
  }

  lemma {:induction false} WithoutAllEmpty(ps: seq<Pass>)
    ensures WithoutAll([], ps) == []
    decreases |ps|
  {
    if |ps| > 0 {
      WithoutAllEmpty(ps[1..]);
    }
  }

  lemma KindIsFirstToken(a: Item, b: Item)
    requires |a| > 0 && |b| > 0 && a[0] == b[0]
    ensures KindOf(a) == KindOf(b)
  {
  }

  lemma GrabberIsKnown(dur: Durations, item: Item, next: string)
    requires ItemOk(dur, item) && |item| == 1 && TakesNext(dur, item[0], next)
    ensures KindOf(item).Some?
  {
    hide LooksLikePort;
    hide StartsDash;
  }

  /** What is left by the passes ps of a last flag that has taken in the token next. */
  lemma GrabbedLength(item: Item, next: string, before: seq<Item>, ps: seq<Pass>)
    requires |item| > 0 && NonEmptyItems(before)
    ensures NonEmptyItems(before + [item]) && NonEmptyItems(before + [item + [next]])
    ensures var was := |Flatten(WithoutAll(before + [item], ps))|;
            var now := |Flatten(WithoutAll(before + [item + [next]], ps))|;
            now == if KindOf(item).Some? && KindOf(item).value in ps then was else was + 1
  {
    hide KindOf;
    hide WithoutAll;
    var merged := item + [next];
    KindIsFirstToken(item, merged);
    WithoutAllOne(item, ps);
    WithoutAllOne(merged, ps);
    WithoutAllConcat(before, [item], ps);
    WithoutAllConcat(before, [merged], ps);
    FlattenConcat(WithoutAll(before, ps), WithoutAll([item], ps));
    FlattenConcat(WithoutAll(before, ps), WithoutAll([merged], ps));
    assert [item][1..] == [] && [merged][1..] == [];
  }

  ghost predicate KindsIn(items: seq<Item>, ps: seq<Pass>)
    requires NonEmptyItems(items)
  {
    forall i | 0 <= i < |items| && KindOf(items[i]).Some? :: KindOf(items[i]).value in ps
  }

  /** The items once the last of them has grabbed the first token of the tail. */
  lemma {:induction false} GrabbedItems(dur: Durations, items: seq<Item>, y: seq<string>)
    requires ItemsOk(dur, items) && Grabs(dur, items, y)
    ensures var n := |items| - 1;
            var rest := Itemize(dur, y[1..]);
            && Itemize(dur, Flatten(items) + y) == Parsed((items[..n] + [items[n] + [y[0]]]) + rest.items, rest.tail)
            && Flatten(rest.items) + rest.tail == y[1..]
  {
    hide TakesNext;
    hide NeedsValue;
    hide EndsFlags;
    var n := |items| - 1;
    var last, next := items[n], y[0];
    assert ItemOk(dur, last);
    var merged := last + [next];
    var more := items[..n] + [merged];
    forall i | 0 <= i < |more| ensures ItemOk(dur, more[i]) {
      if i < n { assert more[i] == items[i]; } else { assert more[i] == merged; }
    }
    assert more[|more| - 1] == merged;
    ItemizeFlatten(dur, more, y[1..]);
    ItemizeOk(dur, y[1..]);
    assert items == items[..n] + [last];
    FlattenConcat(items[..n], [last]);
    FlattenConcat(items[..n], [merged]);
    assert [last][1..] == [] && [merged][1..] == [];
    assert Flatten([last]) == last && Flatten([merged]) == merged;
    Halves(y, 1);
    assert y[..1] == [next];
    ConcatAssoc(Flatten(items[..n]), last, y);
    ConcatAssoc(last, [next], y[1..]);
    ConcatAssoc(Flatten(items[..n]), merged, y[1..]);
  }

  /** The passes leave at most what the scan leaves, and less once a flag has grabbed the alias. */
  lemma {:induction false} PassesLeaveNoMore(dur: Durations, args: seq<string>, ps: seq<Pass>)
    ensures var parsed := Itemize(dur, args);
            && NonEmptyItems(parsed.items)
            && var least := |Flatten(WithoutAll(parsed.items, ps))| + |parsed.tail|;
            && |Passes(dur, args, ps).1| <= least
            && (KindsIn(parsed.items, ps) && !NeverGrabs(dur, parsed.items, parsed.tail, ps)
                ==> |Passes(dur, args, ps).1| < least)
    decreases |ps|
  {
    hide KindOf;
    hide ItemOk;
    hide Without;
    hide NoMoreFlags;
    hide FlagsOf;
    hide Field;
    ItemizeOk(dur, args);
    ItemsNonEmpty(dur, args);
    var parsed := Itemize(dur, args);
    var items, tail := parsed.items, parsed.tail;
    if |ps| > 0 {
      var left, rest := Without(items, ps[0]), ps[1..];
      WithoutKeeps(dur, items, ps[0]);
      PassesLeaveNoMore(dur, Flatten(left) + tail, rest);
      if Grabs(dur, left, tail) {
        GrabbedLeavesLess(dur, left, tail, rest);
        if KindsIn(items, ps) {
          WithoutFewer(items, ps[0], ps);
        }
      } else {
        ItemizeFlatten(dur, left, tail);
        TailStays(dur, ps[0], tail, NO_FLAGS);
        assert left + [] == left;
        if KindsIn(items, ps) {
          WithoutFewer(items, ps[0], ps);
        }
      }
    }
  }

  lemma GrabbedLeavesLess(dur: Durations, items: seq<Item>, tail: seq<string>, ps: seq<Pass>)
    requires NonEmptyItems(items) && ItemsOk(dur, items) && Grabs(dur, items, tail)
    ensures var after := Itemize(dur, Flatten(items) + tail);
            && NonEmptyItems(after.items)
            && var now := |Flatten(WithoutAll(after.items, ps))| + |after.tail|;
            && var was := |Flatten(WithoutAll(items, ps))| + |tail|;
            && now <= was && (KindsIn(items, ps) ==> now < was)
  {
    hide KindOf;
    hide TakesNext;
    hide WithoutAll;
    var n := |items| - 1;
    var last, rest := items[n], Itemize(dur, tail[1..]);
    GrabbedItems(dur, items, tail);
    assert NonEmptyItems(items[..n]);
    assert items == items[..n] + [last];
    GrabbedLength(last, tail[0], items[..n], ps);
    ItemsNonEmpty(dur, tail[1..]);
    var merged := items[..n] + [last + [tail[0]]];
    WithoutAllConcat(merged, rest.items, ps);
    FlattenConcat(WithoutAll(merged, ps), WithoutAll(rest.items, ps));
    WithoutAllShrinks(rest.items, ps);
    assert ItemOk(dur, last);
    GrabberIsKnown(dur, last, tail[0]);
  }

  /**
   The nine passes read a command line as one left-to-right reading does exactly when
   at no pass a flag with an optional value, freed of the flags between, takes the
   alias name as its value.
   */
  lemma PassesAgreeExactlyWhen(dur: Durations, args: seq<string>)
    ensures var parsed := Itemize(dur, args);
            && NonEmptyItems(parsed.items)
            && (Agree(dur, args) <==> NeverGrabs(dur, parsed.items, parsed.tail, ORDER))
  {
    hide *;
    var parsed := Itemize(dur, args);
    ItemsNonEmpty(dur, args);
    if NeverGrabs(dur, parsed.items, parsed.tail, ORDER) {
      NeverGrabsMeansAgree(dur, args);
    } else {
      GrabMeansDisagree(dur, args);
    }
  }

  lemma GrabMeansDisagree(dur: Durations, args: seq<string>)
    requires var parsed := Itemize(dur, args);
             NonEmptyItems(parsed.items) && !NeverGrabs(dur, parsed.items, parsed.tail, ORDER)
    ensures !Agree(dur, args)
  {
    hide KindOf;
    hide NeverGrabs;
    hide Passes;
    hide Itemize;
    hide WithoutAll;
    hide Unknown;
    hide Flatten;
    var parsed := Itemize(dur, args);
    PassesLeaveNoMore(dur, args, ORDER);
    AllKindsInOrder(parsed.items);
    WithoutAllIsUnknown(parsed.items, ORDER);
    ScanIsItems(dur, args, NO_FLAGS, []);
  }
}
