/**
 The walk over a process table that finds everything beneath a process.  The table is
 a snapshot taken while pids are reused: it may hold cycles, self-parents and
 duplicate rows.
 */
module ProcTree {
  datatype Proc = Proc(pid: int, ppid: int, uid: int, pgid: int)

  predicate Child(procs: seq<Proc>, a: int, b: int) {
    exists i :: 0 <= i < |procs| && procs[i].ppid == a && procs[i].pid == b
  }

  /** The pids at most n links beneath root. */
  ghost predicate Within(procs: seq<Proc>, root: int, n: nat, pid: int) {
    if n == 0 then pid == root
    else Within(procs, root, n - 1, pid) || exists a :: Within(procs, root, n - 1, a) && Child(procs, a, pid)
  }

  ghost predicate Beneath(procs: seq<Proc>, root: int, pid: int) {
    exists n: nat :: Within(procs, root, n, pid)
  }

  lemma RootIsWithin(procs: seq<Proc>, root: int, n: nat)
    ensures Within(procs, root, n, root)
  {
  }

  lemma ChildIsBeneath(procs: seq<Proc>, root: int, a: int, b: int)
    requires Beneath(procs, root, a) && Child(procs, a, b)
    ensures Beneath(procs, root, b)
  {
    var n: nat :| Within(procs, root, n, a);
    assert Within(procs, root, n + 1, b);
  }

  // ---- Sorted children ------------------------------------------------------------------

  function KidsOf(procs: seq<Proc>, a: int): seq<int> {
    if |procs| == 0 then []
    else
      var n := |procs| - 1;
      KidsOf(procs[..n], a) + if procs[n].ppid == a then [procs[n].pid] else []
  }

  lemma {:induction false} KidsAreChildren(procs: seq<Proc>, a: int, b: int)
    ensures b in KidsOf(procs, a) <==> Child(procs, a, b)
  {
    if |procs| > 0 {
      var n := |procs| - 1;
      KidsAreChildren(procs[..n], a, b);
      assert forall i | 0 <= i < n :: procs[..n][i] == procs[i];
    }
  }

  ghost predicate Ascending(s: seq<int>) {
    forall i, j | 0 <= i < j < |s| :: s[i] <= s[j]
  }

  function Insert(x: int, s: seq<int>): (r: seq<int>)
    requires Ascending(s)
    ensures Ascending(r) && forall y :: y in r <==> y == x || y in s
  {
    if |s| == 0 || x <= s[0] then [x] + s
    else
      var rest := Insert(x, s[1..]);
      assert forall y | y in s[1..] :: s[0] <= y;
      assert forall i | 0 <= i < |rest| :: rest[i] in rest;
      [s[0]] + rest
  }

  function Sorted(s: seq<int>): (r: seq<int>)
    ensures Ascending(r) && forall y :: y in r <==> y in s
  {
    if |s| == 0 then [] else Insert(s[0], Sorted(s[1..]))
  }

  // ---- The walk -------------------------------------------------------------------------

  ghost predicate NoRepeats(out: seq<int>) {
    forall i, j | 0 <= i < j < |out| :: out[i] != out[j]
  }

  /** out[j] was listed as a child of out[from[j]], the first entry of which it is a child. */
  ghost predicate ListedFor(procs: seq<Proc>, out: seq<int>, from: seq<nat>, j: nat)
    requires j < |out| && |from| == |out|
  {
    from[j] < j && Child(procs, out[from[j]], out[j]) && forall q | 0 <= q < from[j] :: !Child(procs, out[q], out[j])
  }

  /** Children of an earlier entry come first, and children of one entry in ascending order. */
  predicate InTurn(out: seq<int>, from: seq<nat>, i: nat, j: nat)
    requires i < |out| && j < |out| && |from| == |out|
  {
    from[i] < from[j] || (from[i] == from[j] && out[i] < out[j])
  }

  /** A breadth-first list: each entry with the one it was listed for. */
  ghost predicate Listed(procs: seq<Proc>, root: int, out: seq<int>, from: seq<nat>) {
    && |from| == |out| > 0 && out[0] == root && NoRepeats(out)
    && (forall j | 1 <= j < |out| :: ListedFor(procs, out, from, j))
    && (forall i, j | 1 <= i < j < |out| :: InTurn(out, from, i, j))
  }

  /** The children of the first done entries are all listed. */
  ghost predicate Closed(procs: seq<Proc>, out: seq<int>, done: nat) {
    done <= |out| && forall q, b | 0 <= q < done && Child(procs, out[q], b) :: b in out
  }

  /** One more child, found at the entry now visited. */
  lemma ListOne(procs: seq<Proc>, root: int, out: seq<int>, from: seq<nat>, i: nat, k: int)
    requires Listed(procs, root, out, from) && Closed(procs, out, i) && i < |out|
    requires Child(procs, out[i], k) && k !in out
    requires forall j | 1 <= j < |out| :: from[j] < i || (from[j] == i && out[j] < k)
    ensures Listed(procs, root, out + [k], from + [i]) && Closed(procs, out + [k], i)
  {
    hide Child;
    var o, f := out + [k], from + [i];
    forall j | 1 <= j < |o| ensures ListedFor(procs, o, f, j) {
      if j < |out| {
        assert ListedFor(procs, out, from, j);
      }
    }
    forall a, b | 1 <= a < b < |o| ensures InTurn(o, f, a, b) {
      if b < |out| {
        assert InTurn(out, from, a, b);
      }
    }
  }

  lemma {:induction false} PidsBound(out: seq<int>, s: set<int>)
    requires NoRepeats(out) && forall x | x in out :: x in s
    ensures |out| <= |s|
  {
    if |out| > 0 {
      var n := |out| - 1;
      var last := out[n];
      assert last in out;
      forall x | x in out[..n] ensures x in s - {last} {
        assert x in out;
      }
      PidsBound(out[..n], s - {last});
      assert |s - {last}| == |s| - 1;
    }
  }

  /** Where the walk stands before it visits out[i]. */
  ghost predicate Standing(procs: seq<Proc>, root: int, out: seq<int>, from: seq<nat>, visited: set<int>, i: nat) {
    && Listed(procs, root, out, from) && Closed(procs, out, i)
    && (forall j | 1 <= j < |out| :: from[j] < i)
    && (forall x :: x in visited <==> x in out)
    && (forall x | x in out :: x in Pids(procs, root))
  }

  ghost function Pids(procs: seq<Proc>, root: int): set<int> {
    {root} + set p | p in procs :: p.pid
  }

  method ChildrenOf(procs: seq<Proc>) returns (children: map<int, seq<int>>)
    ensures forall a :: (if a in children then children[a] else []) == KidsOf(procs, a)
  {
    children := map[];
    for n := 0 to |procs|
      invariant forall a :: (if a in children then children[a] else []) == KidsOf(procs[..n], a)
    {
      var p := procs[n];
      assert procs[..n + 1][..n] == procs[..n];
      children := children[p.ppid := (if p.ppid in children then children[p.ppid] else []) + [p.pid]];
    }
    assert procs[..|procs|] == procs;
  }

  /** root first, then every pid beneath it, once, in the order of the walk. */
  method DescendantsOf(root: int, procs: seq<Proc>) returns (out: seq<int>, ghost from: seq<nat>)
    ensures Listed(procs, root, out, from) && Closed(procs, out, |out|)
    ensures |out| > 0 && out[0] == root && NoRepeats(out)
    ensures forall pid :: pid in out <==> Beneath(procs, root, pid)
    ensures forall i, j, n: nat | 0 <= i < j < |out| && Within(procs, root, n, out[j]) :: Within(procs, root, n, out[i])
  {
    hide *;
    var children := ChildrenOf(procs);
    var visited := {root};
    out, from := [root], [0];
    var i := 0;
    StandingStart(procs, root);
    while i < |out|
      invariant 0 <= i <= |out| <= |Pids(procs, root)| && Standing(procs, root, out, from, visited, i)
      decreases |Pids(procs, root)| - i
    {
      var kids := Sorted(if out[i] in children then children[out[i]] else []);
      forall b ensures b in kids <==> Child(procs, out[i], b) {
        KidsAreChildren(procs, out[i], b);
      }
      out, from, visited := VisitKids(root, procs, out, from, visited, i, kids);
      StandingBound(procs, root, out, from, visited, i + 1);
      i := i + 1;
    }
    StandingBound(procs, root, out, from, visited, i);
    ListedLength(procs, root, out, from);
    forall pid ensures pid in out <==> Beneath(procs, root, pid) {
      WalkIsReachability(procs, root, out, from, pid);
    }
    forall a, b, n: nat | 0 <= a < b < |out| && Within(procs, root, n, out[b]) ensures Within(procs, root, n, out[a]) {
      NearestFirst(procs, root, out, from, a, b, n);
    }
  }

  lemma StandingStart(procs: seq<Proc>, root: int)
    ensures Standing(procs, root, [root], [0], {root}, 0) && |Pids(procs, root)| >= 1
  {
    PidsBound([root], Pids(procs, root));
  }

  lemma StandingBound(procs: seq<Proc>, root: int, out: seq<int>, from: seq<nat>, visited: set<int>, i: nat)
    requires Standing(procs, root, out, from, visited, i)
    ensures i <= |out| <= |Pids(procs, root)| && Listed(procs, root, out, from) && Closed(procs, out, i)
  {
    hide ListedFor;
    hide Pids;
    PidsBound(out, Pids(procs, root));
  }

  /** The inner loop: the children of out[i], in ascending order, that are not listed yet. */
  method VisitKids(root: int, procs: seq<Proc>, out0: seq<int>, ghost from0: seq<nat>, visited0: set<int>, i: nat, kids: seq<int>)
    returns (out: seq<int>, ghost from: seq<nat>, visited: set<int>)
    requires i < |out0| && Standing(procs, root, out0, from0, visited0, i)
    requires Ascending(kids) && forall b :: b in kids <==> Child(procs, out0[i], b)
    ensures Standing(procs, root, out, from, visited, i + 1)
    ensures out0 <= out && forall x :: x in out <==> x in out0 || Child(procs, out0[i], x)
  {
    hide Listed;
    hide Child;
    out, from, visited := out0, from0, visited0;
    ListedLength(procs, root, out, from);
    for n := 0 to |kids|
      invariant |from| == |out| >= |out0| && out[..|out0|] == out0
      invariant Listed(procs, root, out, from) && Closed(procs, out, i)
      invariant forall j | 1 <= j < |out| :: from[j] < i || (from[j] == i && out[j] in kids[..n])
      invariant forall x :: x in visited <==> x in out
      invariant forall x | x in out :: x in Pids(procs, root)
      invariant forall m | 0 <= m < n :: kids[m] in out
      invariant forall x | x in out :: x in out0 || x in kids
    {
      var k := kids[n];
      assert out[i] == out[..|out0|][i] == out0[i];
      assert kids[..n + 1] == kids[..n] + [k];
      if k in visited {
        continue;
      }
      BelowNext(kids, n, out);
      assert Child(procs, out[i], k);
      ChildIsPid(procs, root, out[i], k);
      ListOne(procs, root, out, from, i, k);
      out, from, visited := out + [k], from + [i], visited + {k};
    }
    assert kids[..|kids|] == kids;
    assert out[i] == out[..|out0|][i] == out0[i];
    assert Closed(procs, out, i + 1);
  }

  lemma ListedLength(procs: seq<Proc>, root: int, out: seq<int>, from: seq<nat>)
    requires Listed(procs, root, out, from)
    ensures |from| == |out| > 0 && out[0] == root && NoRepeats(out)
  {
    hide ListedFor;
  }

  lemma ChildIsPid(procs: seq<Proc>, root: int, a: int, b: int)
    requires Child(procs, a, b)
    ensures b in Pids(procs, root)
  {
  }

  lemma BelowNext(kids: seq<int>, n: nat, out: seq<int>)
    requires Ascending(kids) && n < |kids| && kids[n] !in out
    ensures forall x | x in kids[..n] && x in out :: x < kids[n]
  {
  }

  // ---- What the walk lists ----------------------------------------------------------------

  lemma {:induction false} ListedIsBeneath(procs: seq<Proc>, root: int, out: seq<int>, from: seq<nat>, j: nat)
    requires Listed(procs, root, out, from) && j < |out|
    ensures Beneath(procs, root, out[j])
  {
    if j == 0 {
      RootIsWithin(procs, root, 0);
    } else {
      assert ListedFor(procs, out, from, j);
      ListedIsBeneath(procs, root, out, from, from[j]);
      ChildIsBeneath(procs, root, out[from[j]], out[j]);
    }
  }

  lemma {:induction false} BeneathIsListed(procs: seq<Proc>, root: int, out: seq<int>, n: nat, pid: int)
    requires |out| > 0 && out[0] == root && Closed(procs, out, |out|) && Within(procs, root, n, pid)
    ensures pid in out
  {
    if n > 0 {
      if Within(procs, root, n - 1, pid) {
        BeneathIsListed(procs, root, out, n - 1, pid);
      } else {
        var a :| Within(procs, root, n - 1, a) && Child(procs, a, pid);
        BeneathIsListed(procs, root, out, n - 1, a);
      }
    }
  }

  /** The walk lists root, everything beneath it, and nothing else. */
  lemma WalkIsReachability(procs: seq<Proc>, root: int, out: seq<int>, from: seq<nat>, pid: int)
    requires Listed(procs, root, out, from) && Closed(procs, out, |out|)
    ensures out[0] == root && (pid in out <==> Beneath(procs, root, pid))
  {
    if pid in out {
      var j: nat :| j < |out| && out[j] == pid;
      ListedIsBeneath(procs, root, out, from, j);
    }
    if Beneath(procs, root, pid) {
      var n: nat :| Within(procs, root, n, pid);
      BeneathIsListed(procs, root, out, n, pid);
    }
  }

  /** What is listed earlier is no further from root. */
  lemma {:induction false} NearestFirst(procs: seq<Proc>, root: int, out: seq<int>, from: seq<nat>, i: nat, j: nat, n: nat)
    requires Listed(procs, root, out, from) && Closed(procs, out, |out|)
    requires i < j < |out| && Within(procs, root, n, out[j])
    ensures Within(procs, root, n, out[i])
    decreases n
  {
    if i == 0 {
      RootIsWithin(procs, root, n);
    } else if Within(procs, root, n - 1, out[j]) {
      NearestFirst(procs, root, out, from, i, j, n - 1);
    } else {
      var a :| Within(procs, root, n - 1, a) && Child(procs, a, out[j]);
      BeneathIsListed(procs, root, out, n - 1, a);
      var q: nat :| q < |out| && out[q] == a;
      assert InTurn(out, from, i, j) && ListedFor(procs, out, from, j) && ListedFor(procs, out, from, i);
      if from[i] < q {
        NearestFirst(procs, root, out, from, from[i], q, n - 1);
      }
    }
  }

  /** The table leaves no choice of what a walk lists, nor of the order. */
  lemma {:induction false} WalksAgree(procs: seq<Proc>, root: int, a: seq<int>, ab: seq<nat>, b: seq<int>, bb: seq<nat>, n: nat)
    requires Listed(procs, root, a, ab) && Closed(procs, a, |a|)
    requires Listed(procs, root, b, bb) && Closed(procs, b, |b|)
    requires n <= |a|
    ensures n <= |b| && a[..n] == b[..n]
  {
    if n > 0 {
      WalksAgree(procs, root, a, ab, b, bb, n - 1);
      if n > 1 {
        NextAgrees(procs, root, a, ab, b, bb, n - 1);
        NextAgrees(procs, root, b, bb, a, ab, n - 1);
        SameNext(procs, root, a, ab, b, bb, n - 1);
      }
    }
  }

  /** The entry after a common start is listed in the other walk as well, not before that start's end. */
  lemma NextAgrees(procs: seq<Proc>, root: int, a: seq<int>, ab: seq<nat>, b: seq<int>, bb: seq<nat>, n: nat)
    requires Listed(procs, root, a, ab) && Listed(procs, root, b, bb) && Closed(procs, b, |b|)
    requires 1 <= n <= |b| && n <= |a| && a[..n] == b[..n]
    ensures n < |a| ==> exists j :: n <= j < |b| && b[j] == a[n] && bb[j] == ab[n]
  {
    hide Child;
    if n < |a| {
      forall m | 0 <= m < n ensures a[m] == b[m] {
        assert a[..n][m] == b[..n][m];
      }
      assert ListedFor(procs, a, ab, n);
      var q := ab[n];
      assert Child(procs, b[q], a[n]);
      assert a[n] in b;
      var j :| 0 <= j < |b| && b[j] == a[n];
      assert j >= n;
      assert ListedFor(procs, b, bb, j);
      assert bb[j] >= q;
    }
  }

  lemma Ahead(procs: seq<Proc>, root: int, out: seq<int>, from: seq<nat>, i: nat, j: nat)
    requires Listed(procs, root, out, from) && 1 <= i <= j < |out|
    ensures from[i] < from[j] || (from[i] == from[j] && out[i] <= out[j])
  {
    if i < j {
      assert InTurn(out, from, i, j);
    }
  }

  lemma SameNext(procs: seq<Proc>, root: int, a: seq<int>, ab: seq<nat>, b: seq<int>, bb: seq<nat>, n: nat)
    requires Listed(procs, root, a, ab) && Listed(procs, root, b, bb)
    requires 1 <= n < |a| && n <= |b| && a[..n] == b[..n]
    requires exists j :: n <= j < |b| && b[j] == a[n] && bb[j] == ab[n]
    requires n < |b| ==> exists j :: n <= j < |a| && a[j] == b[n] && ab[j] == bb[n]
    ensures n < |b| && a[..n + 1] == b[..n + 1]
  {
    hide Child;
    hide ListedFor;
    var j :| n <= j < |b| && b[j] == a[n] && bb[j] == ab[n];
    var k :| n <= k < |a| && a[k] == b[n] && ab[k] == bb[n];
    Ahead(procs, root, b, bb, n, j);
    Ahead(procs, root, a, ab, n, k);
    assert a[n] == b[n];
    assert a[..n + 1] == a[..n] + [a[n]] && b[..n + 1] == b[..n] + [b[n]];
  }

  // ---- Group leaders ----------------------------------------------------------------------

  /** Whether the first row of pid says that it leads the group of its own number; false without such a row. */
  method IsGroupLeader(pid: int, procs: seq<Proc>) returns (leads: bool)
    ensures leads <==> exists i :: 0 <= i < |procs| && procs[i].pid == pid && procs[i].pgid == pid
                                   && forall k | 0 <= k < i :: procs[k].pid != pid
  {
    for i := 0 to |procs|
      invariant forall k | 0 <= k < i :: procs[k].pid != pid
    {
      if procs[i].pid == pid {
        return procs[i].pgid == pid;
      }
    }
    return false;
  }
}
