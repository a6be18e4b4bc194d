/**
 Reading the audit log over a connection with a bounded frame: the daemon's page
 and the client's loops, while the log keeps growing between calls.
 */
module AuditPaging {
  import opened Wrappers
  import opened AuditChain
  import opened AuditTail

  const PAGE_BUDGET: nat := 768 * 1024
  const PAGE_MAX: nat := 5000

  /** Events in chain order. */
  ghost predicate Increasing(all: seq<Rec>) {
    forall i, j | 0 <= i < j < |all| :: all[i].index < all[j].index
  }

  /** The library's binary search: how many events have an index below k. */
  function CountBelow(all: seq<Rec>, k: int): (n: nat)
    ensures n <= |all|
    ensures forall i | 0 <= i < n :: all[i].index < k
    ensures n < |all| ==> all[n].index >= k
  {
    if |all| == 0 || all[0].index >= k then 0
    else
      var rest := CountBelow(all[1..], k);
      assert forall i | 1 <= i < rest + 1 :: all[i] == all[1..][i - 1];
      rest + 1
  }

  function TotalSize(events: seq<Rec>, size: Rec -> nat): nat {
    if |events| == 0 then 0 else TotalSize(events[..|events| - 1], size) + size(events[|events| - 1])
  }

  lemma {:induction false} TotalSizeFirst(events: seq<Rec>, size: Rec -> nat)
    requires |events| > 0
    ensures TotalSize(events, size) == size(events[0]) + TotalSize(events[1..], size)
  {
    if |events| > 1 {
      var n := |events| - 1;
      TotalSizeFirst(events[..n], size);
      assert events[..n][1..] == events[1..][..n - 1];
      assert events[1..][n - 1] == events[n];
    }
  }

  lemma NoEventsNoSize(all: seq<Rec>, i: nat, size: Rec -> nat)
    requires i <= |all|
    ensures TotalSize(all[i..i], size) == 0
  {
  }

  lemma PageGrowsRight(all: seq<Rec>, begin: nat, end: nat, size: Rec -> nat)
    requires begin <= end < |all|
    ensures TotalSize(all[begin..end + 1], size) == TotalSize(all[begin..end], size) + size(all[end])
  {
    assert all[begin..end + 1][..end - begin] == all[begin..end];
  }

  lemma PageGrowsLeft(all: seq<Rec>, start: nat, end: nat, size: Rec -> nat)
    requires 0 < start <= end <= |all|
    ensures TotalSize(all[start - 1..end], size) == TotalSize(all[start..end], size) + size(all[start - 1])
  {
    TotalSizeFirst(all[start - 1..end], size);
    assert all[start - 1..end][1..] == all[start..end];
  }

  function LimitOf(lines: int): nat {
    if lines <= 0 || lines > PAGE_MAX then PAGE_MAX else lines
  }

  /** As many events as the limit and the budget let in, but at least one. */
  ghost predicate FullPage(window: seq<Rec>, next: Option<Rec>, limit: nat, size: Rec -> nat) {
    && |window| <= limit
    && (TotalSize(window, size) <= PAGE_BUDGET || |window| == 1)
    && (next.Some? && |window| < limit ==> |window| > 0 && TotalSize(window, size) + size(next.value) > PAGE_BUDGET)
  }

  /**
   One page.  Forward from `since`: the oldest events above it; otherwise backward
   from `before` (from the end when it is not positive): the newest events below it.
   */
  method AuditPage(all: seq<Rec>, lines: int, before: int, since: int, size: Rec -> nat)
    returns (window: seq<Rec>, more: bool)
    ensures since > 0 ==>
              var begin := CountBelow(all, since + 1);
              var end := begin + |window|;
              && end <= |all| && window == all[begin..end] && more == (end < |all|)
              && FullPage(window, if more then Some(all[end]) else None, LimitOf(lines), size)
    ensures since <= 0 ==>
              var end := if before > 0 then CountBelow(all, before) else |all|;
              var start := end - |window|;
              && start >= 0 && window == all[start..end] && more == (start > 0)
              && FullPage(window, if more then Some(all[start - 1]) else None, LimitOf(lines), size)
    ensures |window| == 0 ==> !more
  {
    hide FullPage;
    hide LimitOf;
    LimitIsPositive(lines);
    if since > 0 {
      window, more := PageForward(all, CountBelow(all, since + 1), LimitOf(lines), size);
      return;
    }
    window, more := PageBackward(all, if before > 0 then CountBelow(all, before) else |all|, LimitOf(lines), size);
  }

  /** The forward loop: as many events from begin on as limit and budget let in. */
  method PageForward(all: seq<Rec>, begin: nat, limit: nat, size: Rec -> nat) returns (window: seq<Rec>, more: bool)
    requires begin <= |all|
    ensures var end := begin + |window|;
            && end <= |all| && window == all[begin..end] && more == (end < |all|)
            && FullPage(window, if more then Some(all[end]) else None, limit, size)
    ensures |window| == 0 && limit > 0 ==> !more
  {
    hide TotalSize;
    hide FullPage;
    var end, total := begin, 0;
    NoEventsNoSize(all, begin, size);
    while end < |all| && end - begin < limit
      invariant begin <= end <= |all| && end - begin <= limit
      invariant total == TotalSize(all[begin..end], size)
      invariant total <= PAGE_BUDGET || end - begin == 1
    {
      var s := size(all[end]);
      if end > begin && total + s > PAGE_BUDGET {
        break;
      }
      PageGrowsRight(all, begin, end, size);
      total := total + s;
      end := end + 1;
    }
    window, more := all[begin..end], end < |all|;
    PageIsFull(window, if more then Some(all[end]) else None, limit, size, total);
  }

  /** The backward loop: as many events before end. */
  method PageBackward(all: seq<Rec>, end: nat, limit: nat, size: Rec -> nat) returns (window: seq<Rec>, more: bool)
    requires end <= |all|
    ensures var start := end - |window|;
            && start >= 0 && window == all[start..end] && more == (start > 0)
            && FullPage(window, if more then Some(all[start - 1]) else None, limit, size)
    ensures |window| == 0 && limit > 0 ==> !more
  {
    hide TotalSize;
    hide FullPage;
    var start, total := end, 0;
    NoEventsNoSize(all, end, size);
    while start > 0 && end - start < limit
      invariant 0 <= start <= end && end - start <= limit
      invariant total == TotalSize(all[start..end], size)
      invariant total <= PAGE_BUDGET || end - start == 1
    {
      var s := size(all[start - 1]);
      if start < end && total + s > PAGE_BUDGET {
        break;
      }
      PageGrowsLeft(all, start, end, size);
      total := total + s;
      start := start - 1;
    }
    window, more := all[start..end], start > 0;
    PageIsFull(window, if more then Some(all[start - 1]) else None, limit, size, total);
  }

  lemma PageIsFull(window: seq<Rec>, next: Option<Rec>, limit: nat, size: Rec -> nat, total: nat)
    requires |window| <= limit && total == TotalSize(window, size) && (total <= PAGE_BUDGET || |window| == 1)
    requires next.Some? && |window| < limit ==> |window| > 0 && total + size(next.value) > PAGE_BUDGET
    ensures FullPage(window, next, limit, size)
  {
    hide TotalSize;
  }

  // ---- The client ----------------------------------------------------------------

  /**
   A log that only grows: `all` is what it comes to hold, and held(t) says how many of
   those events it holds when call t is served.
   */
  ghost predicate Growing(all: seq<Rec>, held: nat -> nat) {
    && Increasing(all)
    && (forall t :: held(t) <= |all|)
    && forall t, u | t <= u :: held(t) <= held(u)
  }

  /** The daemon's log is such a log: events are appended, and the filter keeps them in order. */
  lemma {:induction false} FilteredLogGrows(all: seq<Rec>, wanted: Event -> bool, n: nat)
    requires n <= |all| && forall i | 0 <= i < |all| :: all[i].index == i
    ensures Matching(all[..n], wanted) <= Matching(all, wanted)
    ensures Increasing(Matching(all, wanted))
  {
    MatchingIsExact(all, wanted);
    if n < |all| {
      var m := |all| - 1;
      assert all[..m][..n] == all[..n];
      FilteredLogGrows(all[..m], wanted, n);
    } else {
      assert all[..n] == all;
    }
  }

  /** The binary search's answer is the only place that splits the log at k. */
  lemma CountIs(all: seq<Rec>, k: int, n: nat)
    requires Increasing(all) && n <= |all|
    requires n > 0 ==> all[n - 1].index < k
    requires n < |all| ==> all[n].index >= k
    ensures CountBelow(all, k) == n
  {
    assert forall i | 0 <= i < n :: all[i].index <= all[n - 1].index;
    assert forall i | n <= i < |all| :: all[n].index <= all[i].index;
  }

  /** Later growth does not move a cursor that points into the log, nor anything before it. */
  lemma CountInPrefix(all: seq<Rec>, h: nat, k: int)
    requires Increasing(all) && h <= |all|
    ensures CountBelow(all[..h], k) == if CountBelow(all, k) <= h then CountBelow(all, k) else h
  {
    var m := CountBelow(all, k);
    CountIs(all[..h], k, if m <= h then m else h);
  }

  lemma SliceOfPrefix(all: seq<Rec>, h: nat, a: nat, b: nat)
    requires a <= b <= h <= |all|
    ensures all[..h][a..b] == all[a..b]
  {
  }

  /** One page backward from a cursor that stands at event `start`, whatever the log has grown to. */
  method PageBefore(all: seq<Rec>, h: nat, lines: int, before: int, size: Rec -> nat, ghost start: nat)
    returns (window: seq<Rec>, more: bool)
    requires Increasing(all) && start <= h <= |all|
    requires (before <= 0 && start == h) || (before > 0 && start < h && before == all[start].index)
    ensures |window| <= start && window == all[start - |window|..start]
    ensures more == (start > |window|) && (|window| == 0 ==> start == 0)
  {
    hide FullPage;
    hide CountBelow;
    if before > 0 {
      CountIs(all[..h], before, start);
    }
    window, more := AuditPage(all[..h], lines, before, 0, size);
    SliceOfPrefix(all, h, start - |window|, start);
  }

  /** Backward until there is nothing older or enough has been collected. */
  method CollectBack(all: seq<Rec>, held: nat -> nat, works: nat -> bool, lines: int, size: Rec -> nat)
    returns (r: Result<seq<Rec>, nat>, ghost start: nat)
    requires Growing(all, held)
    ensures r.Err? ==> !works(r.error)
    ensures r.Ok? ==> start <= held(0) && r.value == all[start..held(0)] && (start == 0 || 0 < lines <= |r.value|)
  {
    var out: seq<Rec> := [];
    var beforeCur := 0;
    var call: nat := 0;
    start := held(0);
    while true
      invariant 0 <= start <= held(0) && out == all[start..held(0)]
      invariant call == 0 ==> start == held(0) && beforeCur == 0
      invariant call > 0 ==> 0 < start < held(0) && 0 < beforeCur == all[start].index
      decreases start
    {
      if !works(call) {
        return Err(call), start;
      }
      var window, more := PageBefore(all, held(call), lines, beforeCur, size, start);
      if |window| == 0 {
        break;
      }
      assert window + all[start..held(0)] == all[start - |window|..held(0)];
      out := window + out;
      start := start - |window|;
      beforeCur := window[0].index;
      if !more || (lines > 0 && |out| >= lines) {
        break;
      }
      assert all[0].index < all[start].index;
      call := call + 1;
    }
    r := Ok(out);
  }

  /** Paging backward: exactly the newest `lines` events of the log as it was at the first call, all when lines <= 0. */
  method FetchBack(all: seq<Rec>, held: nat -> nat, works: nat -> bool, lines: int, size: Rec -> nat)
    returns (r: Result<seq<Rec>, nat>)
    requires Growing(all, held)
    ensures r.Err? ==> !works(r.error)
    ensures r.Ok? ==> r.value == LastOf(all[..held(0)], lines)
  {
    ghost var start: nat;
    r, start := CollectBack(all, held, works, lines, size);
    if r.Err? {
      return;
    }
    var out := r.value;
    assert out == all[..held(0)][start..];
    if lines > 0 && |out| > lines {
      out := out[|out| - lines..];
    }
    return Ok(out);
  }

  /** One page forward from a cursor below which the log has `from` events. */
  method PageAfter(all: seq<Rec>, h: nat, cursor: int, size: Rec -> nat, ghost from: nat)
    returns (window: seq<Rec>, more: bool)
    requires Increasing(all) && h <= |all| && cursor > 0 && from == CountBelow(all, cursor + 1)
    ensures from + |window| <= |all| && window == all[from..from + |window|]
    ensures |window| > 0 ==> from + |window| <= h && more == (from + |window| < h)
    ensures |window| == 0 ==> h <= from
  {
    hide FullPage;
    hide CountBelow;
    CountInPrefix(all, h, cursor + 1);
    window, more := AuditPage(all[..h], 0, 0, cursor, size);
    if |window| > 0 {
      SliceOfPrefix(all, h, from, from + |window|);
    } else {
      assert |all[..h]| == h;
    }
  }

  lemma HeldGrows(all: seq<Rec>, held: nat -> nat, t: nat)
    requires Growing(all, held)
    ensures Increasing(all) && held(t) <= held(t + 1) && held(t) <= |all|
  {
    hide Increasing;
  }

  /** The cursor moves to the last event of the page. */
  lemma CursorMoves(all: seq<Rec>, cursor: int, from: nat, to: nat)
    requires Increasing(all) && from == CountBelow(all, cursor + 1) && from < to <= |all|
    ensures all[to - 1].index > cursor && CountBelow(all, all[to - 1].index + 1) == to
  {
    assert all[from].index <= all[to - 1].index;
    CountIs(all, all[to - 1].index + 1, to);
  }

  lemma SliceGrows(all: seq<Rec>, from: nat, to: nat, window: seq<Rec>)
    requires from <= to && to + |window| <= |all| && window == all[to..to + |window|]
    ensures all[from..to] + window == all[from..to + |window|]
  {
  }

  /** Nothing beyond what was collected is held. */
  lemma AllSince(all: seq<Rec>, h: nat, from: nat, to: nat)
    requires h <= |all| && from <= to <= |all| && (to == h || (from == to && h <= to))
    ensures all[from..to] == all[..h][if from <= h then from else h..]
  {
  }

  /** Paging forward: every event above `since` that the log held at the last call, each once, in order. */
  method FetchSince(all: seq<Rec>, held: nat -> nat, works: nat -> bool, since: int, size: Rec -> nat)
    returns (r: Result<seq<Rec>, nat>, call: nat)
    requires Growing(all, held) && since > 0
    ensures r.Err? ==> !works(r.error)
    ensures r.Ok? ==> r.value == all[..held(call)][CountBelow(all[..held(call)], since + 1)..]
  {
    hide CountBelow;
    hide Increasing;
    hide Growing;
    HeldGrows(all, held, 0);
    var out: seq<Rec> := [];
    var cursor := since;
    call := 0;
    ghost var from: nat := CountBelow(all, since + 1);
    ghost var to: nat := from;
    while true
      invariant cursor > 0 && from <= to == CountBelow(all, cursor + 1)
      invariant out == all[from..to]
      invariant call == 0 ==> to == from
      invariant call > 0 ==> to <= held(call)
      decreases |all| - to
    {
      if !works(call) {
        return Err(call), call;
      }
      HeldGrows(all, held, call);
      CountInPrefix(all, held(call), since + 1);
      var window, more := PageAfter(all, held(call), cursor, size, to);
      if |window| == 0 {
        AllSince(all, held(call), from, to);
        break;
      }
      SliceGrows(all, from, to, window);
      out := out + window;
      CursorMoves(all, cursor, to, to + |window|);
      to := to + |window|;
      cursor := window[|window| - 1].index;
      if !more {
        AllSince(all, held(call), from, to);
        break;
      }
      call := call + 1;
    }
    r := Ok(out);
  }

  lemma LimitIsPositive(lines: int)
    ensures LimitOf(lines) > 0
  {
  }

  lemma PageIsBounded(window: seq<Rec>, next: Option<Rec>, limit: nat, size: Rec -> nat)
    requires FullPage(window, next, limit, size)
    ensures |window| <= limit && (next.Some? && limit > 0 ==> |window| > 0)
  {
    hide TotalSize;
  }

  lemma {:induction false} LaterIsSmaller(all: seq<Rec>, from: nat, later: nat, end: nat, size: Rec -> nat)
    requires from <= later <= end <= |all|
    ensures TotalSize(all[later..end], size) <= TotalSize(all[from..end], size)
    decreases later - from
  {
    hide TotalSize;
    if from < later {
      PageGrowsLeft(all, from + 1, end, size);
      LaterIsSmaller(all, from + 1, later, end, size);
    }
  }

  /** A page that could hold the newest n events within the budget, and is not limited to fewer, holds them. */
  lemma PageHoldsAsked(all: seq<Rec>, lines: int, end: nat, window: seq<Rec>, size: Rec -> nat)
    requires |window| <= end <= |all| && window == all[end - |window|..end]
    requires FullPage(window, if |window| < end then Some(all[end - |window| - 1]) else None, LimitOf(lines), size)
    ensures var asked := if 0 < lines <= 5000 then lines else 5000;
            var n := if asked <= end then asked else end;
            TotalSize(all[end - n..end], size) <= 768 * 1024 ==> |window| == n
  {
    hide TotalSize;
    var asked := if 0 < lines <= 5000 then lines else 5000;
    var n := if asked <= end then asked else end;
    var start := end - |window|;
    if |window| < n {
      PageGrowsLeft(all, start, end, size);
      LaterIsSmaller(all, end - n, start - 1, end, size);
    }
  }

  /** The window a user asks for: one explicit older page, everything since an event, or the newest events. */
  method FetchAuditWindow(all: seq<Rec>, held: nat -> nat, works: nat -> bool,
                          lines: int, before: int, since: int, size: Rec -> nat)
    returns (r: Result<seq<Rec>, nat>, call: nat)
    requires Growing(all, held)
    ensures r.Err? ==> !works(r.error)
    ensures r.Ok? && before > 0 ==>
              var end := CountBelow(all[..held(0)], before);
              && |r.value| <= LimitOf(lines) && |r.value| <= end && r.value == all[end - |r.value|..end]
              && (end > 0 ==> |r.value| > 0)
              && FullPage(r.value, if |r.value| < end then Some(all[end - |r.value| - 1]) else None, LimitOf(lines), size)
              && var asked := if 0 < lines <= 5000 then lines else 5000;
                 var n := if asked <= end then asked else end;
                 (TotalSize(all[end - n..end], size) <= 768 * 1024 ==> |r.value| == n)
    ensures r.Ok? && before <= 0 && since > 0 ==>
              r.value == all[..held(call)][CountBelow(all[..held(call)], since + 1)..]
    ensures r.Ok? && before <= 0 && since <= 0 ==> r.value == LastOf(all[..held(0)], lines)
  {
    hide FullPage;
    hide TotalSize;
    hide LimitOf;
    hide CountBelow;
    hide Increasing;
    hide LastOf;
    call := 0;
    if before > 0 {
      if !works(0) {
        return Err(0), 0;
      }
      var window, more := AuditPage(all[..held(0)], lines, before, 0, size);
      ghost var end := CountBelow(all[..held(0)], before);
      LimitIsPositive(lines);
      PageIsBounded(window, if more then Some(all[..held(0)][end - |window| - 1]) else None, LimitOf(lines), size);
      SliceOfPrefix(all, held(0), end - |window|, end);
      PageHoldsAsked(all, lines, end, window, size);
      return Ok(window), 0;
    }
    if since > 0 {
      r, call := FetchSince(all, held, works, since, size);
      return;
    }
    r := FetchBack(all, held, works, lines, size);
  }
}
