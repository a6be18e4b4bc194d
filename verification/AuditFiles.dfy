/**
 The log on disk: monthly files of bytes, cut into lines, in file-name order.
 JSON is a library; a codec says what the model relies on it for.
 */
module AuditFiles {
  import opened Wrappers
  import opened AuditChain
  import opened AuditRuns

  newtype Byte = b: int | 0 <= b < 256

  const NEWLINE: Byte := 10

  type Text = seq<Byte>

  // ---- Lines of one file ------------------------------------------------------

  function IndexOfNewline(raw: Text): (k: nat)
    requires NEWLINE in raw
    ensures k < |raw| && raw[k] == NEWLINE && NEWLINE !in raw[..k]
  {
    if raw[0] == NEWLINE then 0
    else
      assert raw == [raw[0]] + raw[1..];
      var k := IndexOfNewline(raw[1..]);
      assert raw[..k + 1] == [raw[0]] + raw[1..][..k];
      k + 1
  }

  /** The lines of a file without their newlines; an unfinished last line counts when it is not empty. */
  function Split(raw: Text): seq<Text> {
    if |raw| == 0 then []
    else if NEWLINE !in raw then [raw]
    else
      var k := IndexOfNewline(raw);
      [raw[..k]] + Split(raw[k + 1..])
  }

  /** Nothing is half-written: the file is empty or its last byte is a newline. */
  predicate Finished(raw: Text) {
    |raw| == 0 || raw[|raw| - 1] == NEWLINE
  }

  /** The line splitter's loop. */
  method SplitLines(raw: Text) returns (out: seq<Text>)
    ensures out == Split(raw)
  {
    out := [];
    var start := 0;
    assert raw[start..] == raw;
    for i := 0 to |raw|
      invariant 0 <= start <= i
      invariant NEWLINE !in raw[start..i]
      invariant out + Split(raw[start..]) == Split(raw)
    {
      if raw[i] == NEWLINE {
        SplitFrom(raw, start, i);
        ConcatAssoc(out, [raw[start..i]], Split(raw[i + 1..]));
        out := out + [raw[start..i]];
        start := i + 1;
      } else {
        assert raw[start..i + 1] == raw[start..i] + [raw[i]];
      }
    }
    assert raw[start..|raw|] == raw[start..];
    if start < |raw| {
      out := out + [raw[start..]];
    }
  }

  lemma SplitAtNewline(line: Text, rest: Text)
    requires NEWLINE !in line
    ensures Split(line + [NEWLINE] + rest) == [line] + Split(rest)
  {
    var raw := line + [NEWLINE] + rest;
    assert raw[|line|] == NEWLINE;
    var k := IndexOfNewline(raw);
    assert forall j | 0 <= j < |line| :: raw[j] == line[j] && raw[j] in line;
    assert forall j | 0 <= j < k :: raw[j] in raw[..k];
    assert raw[..k] == line && raw[k + 1..] == rest;
  }

  lemma SplitNothing()
    ensures Split([]) == [] && NonEmpty([]) == []
  {
  }

  lemma SplitFrom(raw: Text, start: nat, i: nat)
    requires start <= i < |raw| && NEWLINE !in raw[start..i] && raw[i] == NEWLINE
    ensures Split(raw[start..]) == [raw[start..i]] + Split(raw[i + 1..])
  {
    hide Split;
    SplitAtNewline(raw[start..i], raw[i + 1..]);
    assert raw[start..] == raw[start..i] + [NEWLINE] + raw[i + 1..];
  }

  /** What follows a finished file starts a line of its own. */
  lemma {:induction false} SplitConcat(raw: Text, more: Text)
    requires Finished(raw)
    ensures Split(raw + more) == Split(raw) + Split(more)
    decreases |raw|
  {
    if |raw| == 0 {
      assert raw + more == more;
    } else {
      var k := IndexOfNewline(raw);
      SplitFrom(raw, 0, k);
      assert raw[0..] == raw && raw[0..k] == raw[..k];
      SplitConcat(raw[k + 1..], more);
      SplitPrefixed(raw, more, k);
      ConcatAssoc([raw[..k]], Split(raw[k + 1..]), Split(more));
    }
  }

  lemma SplitPrefixed(raw: Text, more: Text, k: nat)
    requires k < |raw| && NEWLINE !in raw[..k] && raw[k] == NEWLINE
    ensures Split(raw + more) == [raw[..k]] + Split(raw[k + 1..] + more)
  {
    hide Split;
    var line, rest := raw[..k], raw[k + 1..];
    SplitAtNewline(line, rest + more);
    Halves(raw, k + 1);
    assert raw[..k + 1] == line + [NEWLINE];
    ConcatAssoc(line + [NEWLINE], rest, more);
  }

  /** The splitter loses nothing: putting the newlines back gives the bytes of a finished file. */
  function Joined(lines: seq<Text>): Text {
    if |lines| == 0 then [] else lines[0] + [NEWLINE] + Joined(lines[1..])
  }

  lemma {:induction false} SplitIsInvertible(raw: Text)
    ensures Joined(Split(raw)) == if Finished(raw) then raw else raw + [NEWLINE]
    decreases |raw|
  {
    if |raw| > 0 && NEWLINE in raw {
      var k := IndexOfNewline(raw);
      SplitIsInvertible(raw[k + 1..]);
      JoinedFirst(raw[..k], Split(raw[k + 1..]));
      NewlineBack(raw, k);
    } else if |raw| > 0 {
      JoinedFirst(raw, []);
      assert raw[|raw| - 1] in raw;
    }
  }

  lemma NewlineBack(raw: Text, k: nat)
    requires k < |raw| && raw[k] == NEWLINE
    ensures var line, rest := raw[..k], raw[k + 1..];
            && line + [NEWLINE] + rest == raw
            && line + [NEWLINE] + (rest + [NEWLINE]) == raw + [NEWLINE]
            && (Finished(raw) <==> Finished(rest))
  {
    var line, rest := raw[..k], raw[k + 1..];
    assert line + [NEWLINE] + rest == raw;
    ConcatAssoc(line + [NEWLINE], rest, [NEWLINE]);
  }

  lemma {:induction false} SplitLinesHoldNoNewline(raw: Text)
    ensures forall l | l in Split(raw) :: NEWLINE !in l
    decreases |raw|
  {
    if |raw| > 0 && NEWLINE in raw {
      SplitLinesHoldNoNewline(raw[IndexOfNewline(raw) + 1..]);
    }
  }

  lemma JoinedFirst(line: Text, rest: seq<Text>)
    ensures Joined([line] + rest) == line + [NEWLINE] + Joined(rest)
  {
    assert ([line] + rest)[1..] == rest;
  }

  function NonEmpty(lines: seq<Text>): seq<Text> {
    if |lines| == 0 then []
    else (if |lines[0]| > 0 then [lines[0]] else []) + NonEmpty(lines[1..])
  }

  lemma {:induction false} NonEmptyConcat(a: seq<Text>, b: seq<Text>)
    ensures NonEmpty(a + b) == NonEmpty(a) + NonEmpty(b)
  {
    if |a| == 0 {
      assert a + b == b;
    } else {
      assert (a + b)[1..] == a[1..] + b;
      NonEmptyConcat(a[1..], b);
    }
  }

  // ---- The order of files -------------------------------------------------------

  /** The order of Go strings: by first difference, a prefix first. */
  predicate StrLe(a: string, b: string) {
    |a| == 0 || (|b| > 0 && (a[0] < b[0] || (a[0] == b[0] && StrLe(a[1..], b[1..]))))
  }

  lemma {:induction false} StrLeTotal(a: string, b: string)
    ensures StrLe(a, b) || StrLe(b, a)
    ensures StrLe(a, b) && StrLe(b, a) ==> a == b
  {
    if |a| > 0 && |b| > 0 {
      StrLeTotal(a[1..], b[1..]);
      assert a == [a[0]] + a[1..] && b == [b[0]] + b[1..];
    }
  }

  lemma {:induction false} StrLeTransitive(a: string, b: string, c: string)
    requires StrLe(a, b) && StrLe(b, c)
    ensures StrLe(a, c)
  {
    if |a| > 0 && a[0] == b[0] && b[0] == c[0] {
      StrLeTransitive(a[1..], b[1..], c[1..]);
    }
  }

  function InsertName(s: seq<string>, x: string): (r: seq<string>)
    ensures |r| == |s| + 1
  {
    var n := |s|;
    if n == 0 || StrLe(s[n - 1], x) then s + [x] else InsertName(s[..n - 1], x) + [s[n - 1]]
  }

  function SortNames(s: seq<string>): (r: seq<string>)
    ensures |r| == |s|
  {
    if |s| == 0 then [] else InsertName(SortNames(s[..|s| - 1]), s[|s| - 1])
  }

  ghost predicate Ordered(s: seq<string>) {
    forall i, j | 0 <= i < j < |s| :: StrLe(s[i], s[j])
  }

  lemma {:induction false} InsertNameOrders(s: seq<string>, x: string)
    requires Ordered(s)
    ensures Ordered(InsertName(s, x)) && multiset(InsertName(s, x)) == multiset(s) + multiset{x}
  {
    hide StrLe;
    var n := |s|;
    if n > 0 && !StrLe(s[n - 1], x) {
      InsertNameOrders(s[..n - 1], x);
      StrLeTotal(s[n - 1], x);
      assert s == s[..n - 1] + [s[n - 1]];
      var r := InsertName(s[..n - 1], x);
      forall i | 0 <= i < |r| ensures StrLe(r[i], s[n - 1]) {
        assert r[i] in multiset(s[..n - 1]) + multiset{x};
        if r[i] != x {
          assert r[i] in s[..n - 1];
        }
      }
    } else if n > 0 {
      forall i | 0 <= i < n ensures StrLe(s[i], x) {
        if i < n - 1 {
          StrLeTransitive(s[i], s[n - 1], x);
        }
      }
    }
  }

  /** Sorting orders the names and keeps each as often as it occurs. */
  lemma {:induction false} SortNamesSorts(s: seq<string>)
    ensures Ordered(SortNames(s)) && multiset(SortNames(s)) == multiset(s)
  {
    if |s| > 0 {
      SortNamesSorts(s[..|s| - 1]);
      InsertNameOrders(SortNames(s[..|s| - 1]), s[|s| - 1]);
      assert s == s[..|s| - 1] + [s[|s| - 1]];
    }
  }

  lemma {:induction false} InsertNameAt(s: seq<string>, x: string, j: nat)
    requires j <= |s| && (j == 0 || StrLe(s[j - 1], x))
    requires forall q | j <= q < |s| :: !StrLe(s[q], x)
    ensures InsertName(s, x) == s[..j] + [x] + s[j..]
    decreases |s|
  {
    if j < |s| {
      var m := |s| - 1;
      InsertNameAt(s[..m], x, j);
      assert s[..m][..j] == s[..j] && s[j..] == s[..m][j..] + [s[m]];
    } else {
      assert s[..j] == s;
    }
  }

  /** The array while x travels left through the sorted part. */
  ghost function Layout(sorted: seq<string>, x: string, j: nat, rest: seq<string>): seq<string>
    requires j <= |sorted|
  {
    sorted[..j] + [x] + sorted[j..] + rest
  }

  lemma LayoutSwap(sorted: seq<string>, x: string, j: nat, rest: seq<string>)
    requires 0 < j <= |sorted|
    ensures var was := Layout(sorted, x, j, rest);
            was[j - 1] == sorted[j - 1] && was[j] == x
            && Layout(sorted, x, j - 1, rest) == was[j - 1 := x][j := sorted[j - 1]]
  {
  }

  /** The inner loop of the sort: element i travels left past every larger one. */
  method SinkLeft(a: array<string>, i: nat)
    requires i < a.Length
    modifies a
    ensures a[..] == InsertName(old(a[..i]), old(a[i])) + old(a[i + 1..])
  {
    ghost var sorted, x, rest := a[..i], a[i], a[i + 1..];
    var j := i;
    assert a[..] == Layout(sorted, x, i, rest);
    while j > 0 && !StrLe(a[j - 1], a[j])
      invariant 0 <= j <= i
      invariant a[..] == Layout(sorted, x, j, rest)
      invariant forall q | j <= q < i :: !StrLe(sorted[q], x)
    {
      LayoutSwap(sorted, x, j, rest);
      a[j - 1], a[j] := a[j], a[j - 1];
      j := j - 1;
    }
    if j > 0 {
      LayoutSwap(sorted, x, j, rest);
    }
    InsertNameAt(sorted, x, j);
  }

  /** The in-place sort of the file names. */
  method SortStrings(a: array<string>)
    modifies a
    ensures a[..] == SortNames(old(a[..]))
  {
    ghost var was := a[..];
    var i := 1;
    if a.Length > 0 {
      assert was[..1][..0] == [] && was == [was[0]] + was[1..];
    }
    while i < a.Length
      invariant 1 <= i
      invariant i <= a.Length ==> a[..] == SortNames(was[..i]) + was[i..]
      invariant i > a.Length ==> a[..] == was == []
    {
      assert was[..i + 1][..i] == was[..i];
      assert a[..i] == SortNames(was[..i]) && a[i] == was[i];
      assert a[i + 1..] == a[..][i + 1..] == was[i..][1..] == was[i + 1..];
      SinkLeft(a, i);
      i := i + 1;
    }
    if i == a.Length {
      assert was[..i] == was && a[..] == SortNames(was) + [];
    }
  }

  // ---- A directory of files -------------------------------------------------------

  /** A directory: its listing in whatever order, and the bytes of each file. */
  datatype Dir = Dir(names: seq<string>, files: map<string, Text>)

  ghost predicate WellFormed(d: Dir) {
    && (forall i, j | 0 <= i < j < |d.names| :: d.names[i] != d.names[j])
    && (forall n :: n in d.names <==> n in d.files)
  }

  function FileText(d: Dir, name: string): Text {
    if name in d.files then d.files[name] else []
  }

  /** Appending to a file, which creates it when it is missing. */
  function WithAppended(d: Dir, name: string, bytes: Text): Dir {
    Dir(if name in d.names then d.names else d.names + [name],
        d.files[name := FileText(d, name) + bytes])
  }

  /** The non-empty lines of some files, one file after another. */
  function RawOf(d: Dir, names: seq<string>): seq<Text> {
    if |names| == 0 then []
    else RawOf(d, names[..|names| - 1]) + NonEmpty(Split(FileText(d, names[|names| - 1])))
  }

  function RawLines(d: Dir): seq<Text> {
    RawOf(d, SortNames(d.names))
  }

  // ---- JSON --------------------------------------------------------------------------

  datatype Codec = Codec(marshal: (Event, Hex) -> Text, parse: Text -> Line)

  /** A piece of a form, followed by n more pieces of forms; none of them empty. */
  ghost predicate Pieced(c: Codec, t: Text, n: nat)
    decreases n
  {
    if n == 0 then |t| > 0 && exists e, h :: t <= c.marshal(e, h)
    else exists k :: 0 < k < |t| && Pieced(c, t[..k], n - 1) && Pieced(c, t[k..], 0)
  }

  /**
   What is relied on: an event has a one-line, non-empty form that parses back to it; no
   proper prefix of such a form parses; and neither does a text pieced together from two or
   more pieces of forms.

   An encoding of events as JSON objects whose first key follows the opening brace is such a
   form.  A proper prefix of one leaves its outermost brace open.  What is glued to it starts
   with a brace and a quote: inside a string the brace is text, the quote ends the string, and
   the key's first letter is then no JSON; outside a string a nested object may begin, but after
   it the next piece's brace is no JSON either, and nothing closes the outermost brace.  After a
   whole form any further byte is an error.
   */
  ghost predicate Lawful(c: Codec) {
    && (forall e, h {:trigger c.marshal(e, h)} ::
          |c.marshal(e, h)| > 0 && NEWLINE !in c.marshal(e, h) && c.parse(c.marshal(e, h)) == Entry(e, h))
    && (forall e, h, p {:trigger c.marshal(e, h), c.parse(p)} :: p < c.marshal(e, h) ==> c.parse(p) == Torn)
    && (forall t, n {:trigger Pieced(c, t, n)} :: n > 0 && Pieced(c, t, n) ==> c.parse(t) == Torn)
  }

  function ParseAll(c: Codec, raw: seq<Text>): (lines: seq<Line>)
    ensures |lines| == |raw| && forall i | 0 <= i < |raw| :: lines[i] == c.parse(raw[i])
  {
    seq(|raw|, i requires 0 <= i < |raw| => c.parse(raw[i]))
  }

  /** The log a directory holds: every non-empty line, files in name order. */
  function LogOf(c: Codec, d: Dir): seq<Line> {
    ParseAll(c, RawLines(d))
  }

  /** No file name sorts after this one: the month has not gone backwards. */
  ghost predicate Newest(d: Dir, name: string) {
    forall n | n in d.names :: StrLe(n, name)
  }

  lemma {:induction false} RawOfUnchanged(d: Dir, d2: Dir, names: seq<string>)
    requires forall n | n in names :: FileText(d, n) == FileText(d2, n)
    ensures RawOf(d, names) == RawOf(d2, names)
  {
    if |names| > 0 {
      RawOfUnchanged(d, d2, names[..|names| - 1]);
    }
  }

  /** A name that no other exceeds goes to the end. */
  lemma SortNamesAppend(s: seq<string>, x: string)
    requires forall n | n in s :: StrLe(n, x)
    ensures SortNames(s + [x]) == SortNames(s) + [x]
  {
    hide StrLe;
    var sorted := SortNames(s);
    SortNamesSorts(s);
    assert (s + [x])[..|s|] == s;
    if |sorted| > 0 {
      assert sorted[|sorted| - 1] in multiset(s);
    }
  }

  /** The newest file is the last in order: what precedes it, and itself. */
  lemma NewestSortsLast(d: Dir, name: string) returns (older: seq<string>)
    requires WellFormed(d) && Newest(d, name)
    ensures name !in older && (forall n | n in older :: n in d.names)
    ensures SortNames(d.names) == if name in d.names then older + [name] else older
    ensures forall bytes :: SortNames(WithAppended(d, name, bytes).names) == older + [name]
  {
    hide StrLe;
    hide SortNames;
    hide Ordered;
    var sorted := SortNames(d.names);
    SameNames(d.names);
    if name in d.names {
      var n := |sorted| - 1;
      LastIsNewest(d, name, sorted);
      older := sorted[..n];
      assert sorted == older + [name];
      NoDuplicates(d.names);
      assert multiset(sorted) == multiset(older) + multiset{name};
    } else {
      older := sorted;
      SortNamesAppend(d.names, name);
    }
  }

  lemma SameNames(s: seq<string>)
    ensures Ordered(SortNames(s)) && multiset(SortNames(s)) == multiset(s)
    ensures forall n :: n in SortNames(s) <==> n in s
  {
    hide StrLe;
    SortNamesSorts(s);
    forall n ensures n in SortNames(s) <==> n in s {
      assert n in multiset(SortNames(s)) <==> n in multiset(s);
    }
  }

  lemma LastIsNewest(d: Dir, name: string, sorted: seq<string>)
    requires Ordered(sorted) && name in sorted && forall n | n in sorted :: StrLe(n, name)
    ensures sorted[|sorted| - 1] == name
  {
    var n := |sorted| - 1;
    var k :| 0 <= k < |sorted| && sorted[k] == name;
    assert sorted[n] in sorted;
    if k < n {
      assert StrLe(sorted[k], sorted[n]);
      StrLeTotal(name, sorted[n]);
    }
  }

  lemma {:induction false} NoDuplicates(s: seq<string>)
    requires forall i, j | 0 <= i < j < |s| :: s[i] != s[j]
    ensures forall x | x in s :: multiset(s)[x] == 1
  {
    if |s| > 0 {
      var n := |s| - 1;
      NoDuplicates(s[..n]);
      assert s == s[..n] + [s[n]];
      forall x | x in s ensures multiset(s)[x] == 1 {
        assert multiset(s) == multiset(s[..n]) + multiset{s[n]};
        if x == s[n] {
          assert x !in s[..n];
        }
      }
    }
  }

  /** Appending to the newest file changes the log only from that file on. */
  lemma AppendToNewest(d: Dir, name: string, bytes: Text) returns (older: seq<Text>)
    requires WellFormed(d) && Newest(d, name)
    ensures WellFormed(WithAppended(d, name, bytes))
    ensures RawLines(d) == older + NonEmpty(Split(FileText(d, name)))
    ensures RawLines(WithAppended(d, name, bytes)) == older + NonEmpty(Split(FileText(d, name) + bytes))
  {
    var names := NewestSortsLast(d, name);
    var d2 := WithAppended(d, name, bytes);
    older := RawOf(d, names);
    RawOfUnchanged(d, d2, names);
    RawOfOneMore(d, names, name);
    RawOfOneMore(d2, names, name);
    if name !in d.names {
      assert FileText(d, name) == [];
      assert older == older + [];
    }
  }

  lemma RawOfOneMore(d: Dir, names: seq<string>, name: string)
    ensures RawOf(d, names + [name]) == RawOf(d, names) + NonEmpty(Split(FileText(d, name)))
  {
    assert (names + [name])[..|names|] == names;
  }

  /** When the newest file is finished, appended bytes add exactly their own lines. */
  lemma AppendToFinished(d: Dir, name: string, bytes: Text)
    requires WellFormed(d) && Newest(d, name) && Finished(FileText(d, name))
    ensures WellFormed(WithAppended(d, name, bytes))
    ensures RawLines(WithAppended(d, name, bytes)) == RawLines(d) + NonEmpty(Split(bytes))
  {
    var older := AppendToNewest(d, name, bytes);
    SplitConcat(FileText(d, name), bytes);
    NonEmptyConcat(Split(FileText(d, name)), Split(bytes));
    ConcatAssoc(older, NonEmpty(Split(FileText(d, name))), NonEmpty(Split(bytes)));
  }
}
