/**
 When the nine passes and one reading part ways: only in front of an alias name, and
 only when a flag with an optional value is left standing next to it.
 */
module ExecAlias {
  import opened Wrappers
  import opened ExecFlags
  import opened ExecPasses
  import opened ExecDispatch

  /** The pass for a is over before the one for b begins. */
  predicate StrippedBefore(a: Item, b: Item)
    requires |a| > 0 && |b| > 0
  {
    KindOf(a).Some? && KindOf(b).Some? && Place(KindOf(a).value) < Place(KindOf(b).value)
  }

  predicate WouldTake(dur: Durations, item: Item, next: seq<string>) {
    |item| == 1 && |next| > 0 && TakesNext(dur, item[0], next[0])
  }

  /** All that stands between the first of these flags and the alias goes before it does. */
  predicate Cleared(items: seq<Item>)
    requires NonEmptyItems(items) && |items| > 0
  {
    forall j | 1 <= j < |items| :: StrippedBefore(items[j], items[0])
  }

  /** Some flag would take the alias name as its value, and all flags after it are stripped before it is. */
  predicate Bridged(dur: Durations, items: seq<Item>, next: seq<string>)
    requires NonEmptyItems(items)
  {
    |items| > 0 &&
    assert NonEmptyItems(items[1..]);
    (WouldTake(dur, items[0], next) && Cleared(items)) || Bridged(dur, items[1..], next)
  }

  ghost predicate StillToCome(items: seq<Item>, k: nat)
    requires NonEmptyItems(items)
  {
    forall i | 0 <= i < |items| && KindOf(items[i]).Some? :: k <= Place(KindOf(items[i]).value)
  }

  lemma {:induction false} WithoutCovers(items: seq<Item>, p: Pass)
    requires NonEmptyItems(items)
    ensures forall i | 0 <= i < |items| :: items[i] in Without(items, p) || KindOf(items[i]) == Some(p)
    ensures forall x | x in Without(items, p) :: x in items && KindOf(x) != Some(p)
  {
    hide KindOf;
    if |items| > 0 {
      assert NonEmptyItems(items[1..]);
      WithoutCovers(items[1..], p);
      assert forall i | 1 <= i < |items| :: items[i] == items[1..][i - 1];
    }
  }

  lemma StillToComeWithout(items: seq<Item>, p: Pass)
    requires NonEmptyItems(items) && StillToCome(items, Place(p))
    ensures StillToCome(Without(items, p), Place(p) + 1)
  {
    hide KindOf;
    hide Place;
    hide Without;
    WithoutCovers(items, p);
    var left := Without(items, p);
    forall i | 0 <= i < |left| && KindOf(left[i]).Some? ensures Place(p) + 1 <= Place(KindOf(left[i]).value) {
      assert left[i] in left;
      var k :| 0 <= k < |items| && items[k] == left[i];
      if Place(KindOf(items[k]).value) == Place(p) {
        OwnPlace(KindOf(items[k]).value, p);
      }
    }
  }

  /** A flag cleared of the later flags is cleared of those the next pass leaves, and the other way round. */
  lemma ClearedWithout(dur: Durations, head: Item, rest: seq<Item>, p: Pass)
    requires |head| > 0 && NonEmptyItems(rest) && StillToCome([head] + rest, Place(p))
    requires KindOf(head).Some? && KindOf(head) != Some(p)
    ensures NonEmptyItems([head] + rest) && NonEmptyItems([head] + Without(rest, p))
    ensures Cleared([head] + rest) <==> Cleared([head] + Without(rest, p))
  {
    hide KindOf;
    hide Place;
    hide Without;
    WithoutCovers(rest, p);
    var all, left := [head] + rest, [head] + Without(rest, p);
    assert all[0] == left[0] == head;
    if Place(KindOf(head).value) == Place(p) {
      OwnPlace(KindOf(head).value, p);
    }
    if Cleared(all) {
      forall j | 1 <= j < |left| ensures StrippedBefore(left[j], head) {
        assert left[j] in Without(rest, p);
        var k :| 0 <= k < |rest| && rest[k] == left[j];
        assert all[k + 1] == rest[k];
      }
    }
    if Cleared(left) {
      forall j | 1 <= j < |all| ensures StrippedBefore(all[j], head) {
        assert all[j] == rest[j - 1];
        if rest[j - 1] in Without(rest, p) {
          var k :| 0 <= k < |Without(rest, p)| && Without(rest, p)[k] == rest[j - 1];
          assert left[k + 1] == rest[j - 1];
        }
      }
    }
  }

  lemma ClearedFirst(items: seq<Item>)
    requires NonEmptyItems(items) && |items| > 1
    ensures Cleared(items) ==> StrippedBefore(items[1], items[0])
  {
  }

  /** A pass that no flag grabs at leaves bridged what is bridged, and nothing else. */
  lemma {:induction false} BridgedWithout(dur: Durations, items: seq<Item>, y: seq<string>, p: Pass)
    requires NonEmptyItems(items) && ItemsOk(dur, items) && StillToCome(items, Place(p)) && !Grabs(dur, items, y)
    ensures Bridged(dur, items, y) <==> Bridged(dur, Without(items, p), y)
  {
    hide KindOf;
    hide Place;
    hide TakesNext;
    hide Cleared;
    hide NeedsValue;
    hide EndsFlags;
    if |items| > 0 {
      var head, rest := items[0], items[1..];
      var left := Without(rest, p);
      assert NonEmptyItems(rest);
      assert items == [head] + rest;
      assert |rest| > 0 ==> rest[|rest| - 1] == items[|items| - 1];
      assert forall i | 0 <= i < |rest| :: rest[i] == items[i + 1];
      BridgedWithout(dur, rest, y, p);
      assert ItemOk(dur, head);
      if KindOf(head) == Some(p) {
        assert [] + left == left;
        if |rest| > 0 {
          ClearedFirst(items);
        }
      } else {
        assert ([head] + left)[1..] == left;
        if WouldTake(dur, head, y) {
          GrabberIsKnown(dur, head, y[0]);
          ClearedWithout(dur, head, rest, p);
        }
      }
    }
  }

  lemma {:induction false} NoneToTake(dur: Durations, items: seq<Item>, y: seq<string>)
    requires NonEmptyItems(items) && ItemsOk(dur, items) && StillToCome(items, 9)
    ensures !Bridged(dur, items, y)
  {
    hide KindOf;
    hide Place;
    hide TakesNext;
    if |items| > 0 {
      assert NonEmptyItems(items[1..]);
      NoneToTake(dur, items[1..], y);
      assert ItemOk(dur, items[0]);
      if WouldTake(dur, items[0], y) {
        GrabberIsKnown(dur, items[0], y[0]);
        PlaceInOrder(KindOf(items[0]).value);
      }
    }
  }

  lemma {:induction false} LastIsBridged(dur: Durations, items: seq<Item>, y: seq<string>)
    requires NonEmptyItems(items) && Grabs(dur, items, y)
    ensures Bridged(dur, items, y)
  {
    hide KindOf;
    hide TakesNext;
    if |items| > 1 {
      assert NonEmptyItems(items[1..]);
      LastIsBridged(dur, items[1..], y);
    }
  }

  lemma {:induction false} NeverGrabsFrom(dur: Durations, items: seq<Item>, y: seq<string>, k: nat)
    requires k <= 9 && NonEmptyItems(items) && ItemsOk(dur, items) && StillToCome(items, k)
    ensures NeverGrabs(dur, items, y, ORDER[k..]) <==> !Bridged(dur, items, y)
    decreases 9 - k
  {
    hide KindOf;
    hide Place;
    hide ItemOk;
    hide Grabs;
    hide Without;
    hide Bridged;
    if k == 9 {
      NoneToTake(dur, items, y);
    } else if Grabs(dur, items, y) {
      LastIsBridged(dur, items, y);
    } else {
      var p := ORDER[k];
      PlaceOf(k);
      assert ORDER[k..][0] == p && ORDER[k..][1..] == ORDER[k + 1..];
      BridgedWithout(dur, items, y, p);
      StillToComeWithout(items, p);
      WithoutKeeps(dur, items, p);
      NeverGrabsFrom(dur, Without(items, p), y, k + 1);
    }
  }

  lemma PlaceOf(k: nat)
    requires k < 9
    ensures Place(ORDER[k]) == k
  {
    assert k == 0 || k == 1 || k == 2 || k == 3 || k == 4 || k == 5 || k == 6 || k == 7 || k == 8;
  }

  /**
   The nine passes read a command line as one left-to-right reading does exactly when no
   flag is bridged to an alias name.
   */
  lemma ReadsAsOneExactlyWhen(dur: Durations, args: seq<string>)
    ensures var parsed := Itemize(dur, args);
            && NonEmptyItems(parsed.items)
            && (Agree(dur, args) <==> !Bridged(dur, parsed.items, parsed.tail))
  {
    hide *;
    PassesAgreeExactlyWhen(dur, args);
    var parsed := Itemize(dur, args);
    ItemizeOk(dur, args);
    AllStillToCome(parsed.items);
    NeverGrabsFrom(dur, parsed.items, parsed.tail, 0);
    WholeOrder();
  }

  lemma AllStillToCome(items: seq<Item>)
    requires NonEmptyItems(items)
    ensures StillToCome(items, 0)
  {
  }

  lemma WholeOrder()
    ensures ORDER[0..] == ORDER
  {
  }

  // ---- The direct form -----------------------------------------------------------------

  /** The flags end at the separator. */
  predicate DirectForm(dur: Durations, args: seq<string>) {
    var tail := Itemize(dur, args).tail;
    |tail| > 0 && tail[0] == "--"
  }

  /** The flags end at an alias name. */
  predicate AliasForm(dur: Durations, args: seq<string>) {
    var tail := Itemize(dur, args).tail;
    |tail| > 0 && !StartsDash(tail[0])
  }

  lemma {:induction false} NoAliasNoBridge(dur: Durations, items: seq<Item>, y: seq<string>)
    requires NonEmptyItems(items) && ItemsOk(dur, items) && (|y| > 0 ==> StartsDash(y[0]))
    ensures !Bridged(dur, items, y)
  {
    hide KindOf;
    hide TakesNext;
    if |items| > 0 {
      assert NonEmptyItems(items[1..]);
      NoAliasNoBridge(dur, items[1..], y);
      assert ItemOk(dur, items[0]);
      if |items[0]| == 1 && |y| > 0 {
        DashIsNoValue(dur, items[0][0], y[0]);
      }
    }
  }

  /** Without an alias name the nine passes always read as one. */
  lemma WithoutAliasReadsAsOne(dur: Durations, args: seq<string>)
    requires !AliasForm(dur, args)
    ensures Agree(dur, args)
  {
    hide Itemize;
    hide Agree;
    hide ItemOk;
    hide Bridged;
    hide StartsDash;
    ReadsAsOneExactlyWhen(dur, args);
    ItemizeOk(dur, args);
    NoAliasNoBridge(dur, Itemize(dur, args).items, Itemize(dur, args).tail);
  }

  lemma {:induction false} UnknownAreBareFlags(dur: Durations, items: seq<Item>)
    requires NonEmptyItems(items) && ItemsOk(dur, items)
    ensures forall i | 0 <= i < |Flatten(Unknown(items))| :: !EndsFlags(Flatten(Unknown(items))[i])
  {
    hide KindOf;
    hide EndsFlags;
    hide TakesNext;
    if |items| > 0 {
      assert NonEmptyItems(items[1..]);
      UnknownAreBareFlags(dur, items[1..]);
      var head, rest := items[0], Unknown(items[1..]);
      assert ItemOk(dur, head);
      if KindOf(head).None? {
        if |head| == 2 {
          TakerIsKnown(dur, head);
        }
        assert ([head] + rest)[1..] == rest;
      } else {
        assert [] + rest == rest;
      }
    }
  }

  lemma TakerIsKnown(dur: Durations, item: Item)
    requires |item| == 2 && TakesNext(dur, item[0], item[1])
    ensures KindOf(item).Some?
  {
    hide LooksLikePort;
    hide StartsDash;
  }

  /** What the passes leave when they read as one: the unknown flags, then everything from where the flags end. */
  lemma LeftOver(dur: Durations, argv: seq<string>)
    requires Agree(dur, argv)
    ensures var parsed := Itemize(dur, argv);
            && NonEmptyItems(parsed.items)
            && NinePasses(dur, argv).1 == Flatten(Unknown(parsed.items)) + parsed.tail
            && Reports(NinePasses(dur, argv).0, FlagsOf(dur, argv))
            && (forall i | 0 <= i < |Flatten(Unknown(parsed.items))| :: !EndsFlags(Flatten(Unknown(parsed.items))[i]))
            && NoMoreFlags(parsed.tail) && Flatten(parsed.items) + parsed.tail == argv
  {
    hide Itemize;
    hide Unknown;
    hide Flatten;
    hide KindOf;
    hide EndsFlags;
    hide NoMoreFlags;
    hide NinePasses;
    hide Field;
    hide FlagsFrom;
    hide ItemOk;
    ItemizeOk(dur, argv);
    ItemsNonEmpty(dur, argv);
    var parsed := Itemize(dur, argv);
    ScanIsItems(dur, argv, NO_FLAGS, []);
    UnknownAreBareFlags(dur, parsed.items);
    var left := Flatten(Unknown(parsed.items)) + parsed.tail;
    assert [] + left == left;
  }

  /**
   byn runs a command, and exactly the tokens after the separator at which its own flags
   end, when all of these flags are known and a command follows; unknown flags are named,
   all of them and nothing else.  What was asked for is what one reading finds.
   */
  lemma {:induction false} DirectFormRunsWhatFollows(dur: Durations, argv: seq<string>, inScope: bool, f: Flags, d: Dispatch)
    requires DirectForm(dur, argv)
    requires Reports(NinePasses(dur, argv).0, f) && Asks(NinePasses(dur, argv).1, inScope, f.vars, d)
    ensures var parsed := Itemize(dur, argv);
            && NonEmptyItems(parsed.items) && Flatten(parsed.items) + parsed.tail == argv
            && f == FlagsOf(dur, argv)
            && var unknown := Flatten(Unknown(parsed.items));
               d == if |unknown| > 0 then UnknownFlags(unknown)
                    else if |parsed.tail| == 1 then Usage
                    else Direct(parsed.tail[1..])
  {
    hide Itemize;
    hide Unknown;
    hide Flatten;
    hide Agree;
    hide FlagsOf;
    hide NinePasses;
    hide Reports;
    hide NoMoreFlags;
    var parsed := Itemize(dur, argv);
    WithoutAliasReadsAsOne(dur, argv);
    LeftOver(dur, argv);
    ReportsOnce(NinePasses(dur, argv).0, f, FlagsOf(dur, argv));
    var unknown := Flatten(Unknown(parsed.items));
    DirectAsks(unknown, parsed.tail, inScope, f.vars, d);
  }

  lemma DirectAsks(unknown: seq<string>, tail: seq<string>, inScope: bool, vars: seq<string>, d: Dispatch)
    requires |tail| > 0 && tail[0] == "--"
    requires forall i | 0 <= i < |unknown| :: !EndsFlags(unknown[i])
    requires Asks(unknown + tail, inScope, vars, d)
    ensures d == if |unknown| > 0 then UnknownFlags(unknown)
                 else if |tail| == 1 then Usage
                 else Direct(tail[1..])
  {
    var args := unknown + tail;
    if |unknown| > 0 {
      assert args[0] == unknown[0];
      assert args[|unknown|] == "--";
      assert unknown + ["--"] <= args;
      assert "--" !in unknown;
      AsksOnce(args, inScope, vars, d, UnknownFlags(unknown));
    } else {
      assert args == tail;
    }
  }

  /**
   Conversely a command is run only from a command line in direct form, as long as the
   passes read as one.
   */
  lemma {:induction false} OnlyDirectFormRunsACommand(dur: Durations, argv: seq<string>, inScope: bool, f: Flags, d: Dispatch)
    requires Agree(dur, argv)
    requires Reports(NinePasses(dur, argv).0, f) && Asks(NinePasses(dur, argv).1, inScope, f.vars, d)
    ensures d.Direct? ==> DirectForm(dur, argv)
    ensures d.Alias? ==> AliasForm(dur, argv) && d == Alias(Itemize(dur, argv).tail[0], Itemize(dur, argv).tail[1..])
  {
    hide Itemize;
    hide Unknown;
    hide Flatten;
    hide Agree;
    hide FlagsOf;
    hide NinePasses;
    hide Reports;
    var parsed := Itemize(dur, argv);
    LeftOver(dur, argv);
    var unknown := Flatten(Unknown(parsed.items));
    var args := unknown + parsed.tail;
    if |unknown| > 0 {
      assert args[0] == unknown[0];
    } else {
      assert args == parsed.tail;
    }
  }

  /**
   With an alias they can part: in "--wait-approval --no-privsep 5m" the alias 5m becomes
   the wait once --no-privsep is gone.
   */
  lemma AliasTakenAsDuration(dur: Durations, rest: seq<string>)
    requires dur("5m").Some?
    ensures var argv := ["--wait-approval", "--no-privsep", "5m"] + rest;
            AliasForm(dur, argv) && Itemize(dur, argv).tail == ["5m"] + rest && !Agree(dur, argv)
  {
    hide Agree;
    hide LooksLikePort;
    var argv := ["--wait-approval", "--no-privsep", "5m"] + rest;
    var a2, a1 := ["5m"] + rest, ["--no-privsep", "5m"] + rest;
    assert argv[1..] == a1 && a1[1..] == a2 && argv[..1] == ["--wait-approval"] && a1[..1] == ["--no-privsep"];
    assert Itemize(dur, a2) == Parsed([], a2);
    assert Itemize(dur, a1) == Parsed([["--no-privsep"]], a2);
    var items: seq<Item> := [["--wait-approval"], ["--no-privsep"]];
    assert Itemize(dur, argv) == Parsed(items, a2) by {
      assert [["--wait-approval"]] + [["--no-privsep"]] == items;
    }
    ReadsAsOneExactlyWhen(dur, argv);
    assert KindOf(items[0]) == Some(WaitApproval) && KindOf(items[1]) == Some(NoPrivsep);
    assert Cleared(items);
  }
}
