/** The string operations the .env code is written in, and the laws it relies on. */
module Text {
  import opened Wrappers

  // ---- Classes of characters and trimming --------------------------------------

  /** The cut sets in use: Unicode white space, blank and tab, newline, '#', and the regular expressions' white space. */
  datatype CharClass = Spaces | Blanks | Newlines | Hashes | PatternSpaces {
    predicate Has(c: char) {
      var n := c as int;
      match this
      case Spaces =>
        9 <= n <= 13 || n == 0x20 || n == 0x85 || n == 0xA0 || n == 0x1680 || 0x2000 <= n <= 0x200A
        || n == 0x2028 || n == 0x2029 || n == 0x202F || n == 0x205F || n == 0x3000
      case Blanks => c == ' ' || c == '\t'
      case Newlines => c == '\n'
      case Hashes => c == '#'
      case PatternSpaces => c == ' ' || c == '\t' || c == '\n' || c == '\r' || n == 12
    }
  }

  /** The classes, character by character. */
  lemma ClassesAre(c: char)
    ensures Spaces.Has(c) <==>
            c in {'\t', '\n', '\U{000B}', '\U{000C}', '\r', ' ', '\U{0085}', '\U{00A0}', '\U{1680}',
                  '\U{2000}', '\U{2001}', '\U{2002}', '\U{2003}', '\U{2004}', '\U{2005}', '\U{2006}', '\U{2007}', '\U{2008}',
                  '\U{2009}', '\U{200A}', '\U{2028}', '\U{2029}', '\U{202F}', '\U{205F}', '\U{3000}'}
    ensures Blanks.Has(c) <==> c in {' ', '\t'}
    ensures Newlines.Has(c) <==> c in {'\n'}
    ensures Hashes.Has(c) <==> c in {'#'}
    ensures PatternSpaces.Has(c) <==> c in {'\t', '\n', '\U{000C}', '\r', ' '}
  {
    var n := c as int;
    assert c == n as char;
  }

  ghost predicate AllIn(s: string, k: CharClass) {
    forall i | 0 <= i < |s| :: k.Has(s[i])
  }

  function TrimLeft(s: string, k: CharClass): (r: string)
    ensures |r| <= |s| && r == s[|s| - |r|..] && AllIn(s[..|s| - |r|], k)
    ensures |r| > 0 ==> !k.Has(r[0])
  {
    if |s| > 0 && k.Has(s[0]) then
      var r := TrimLeft(s[1..], k);
      assert forall i | 1 <= i < |s| - |r| :: s[i] == s[1..][..|s| - 1 - |r|][i - 1];
      r
    else s
  }

  function TrimRight(s: string, k: CharClass): (r: string)
    ensures |r| <= |s| && r == s[..|r|] && AllIn(s[|r|..], k)
    ensures |r| > 0 ==> !k.Has(r[|r| - 1])
  {
    var n := |s|;
    if n > 0 && k.Has(s[n - 1]) then TrimRight(s[..n - 1], k) else s
  }

  function Trim(s: string, k: CharClass): string {
    TrimRight(TrimLeft(s, k), k)
  }

  function TrimSpace(s: string): string {
    Trim(s, Spaces)
  }

  /** Neither end is in the class: trimming changes nothing. */
  predicate Bare(s: string, k: CharClass) {
    |s| > 0 ==> !k.Has(s[0]) && !k.Has(s[|s| - 1])
  }

  lemma TrimIsBare(s: string, k: CharClass)
    ensures Bare(Trim(s, k), k)
    ensures Trim(s, k) == s <==> Bare(s, k)
  {
    var l := TrimLeft(s, k);
    var r := TrimRight(l, k);
    if |r| > 0 {
      assert r[0] == l[0];
    }
    if r == s {
      assert l == s;
    }
    if Bare(s, k) && |s| > 0 {
      assert l == s;
    }
  }

  /** Characters of the class at the right end make no difference to a right trim. */
  lemma {:induction false} TrimRightIgnores(s: string, tail: string, k: CharClass)
    requires AllIn(tail, k)
    ensures TrimRight(s + tail, k) == TrimRight(s, k)
  {
    var n := |tail|;
    if n == 0 {
      assert s + tail == s;
    } else {
      assert (s + tail)[..|s + tail| - 1] == s + tail[..n - 1];
      TrimRightIgnores(s, tail[..n - 1], k);
    }
  }

  /** A string that ends in a character outside the class keeps all of it. */
  lemma TrimRightKeeps(s: string, tail: string, k: CharClass)
    requires |s| > 0 && !k.Has(s[|s| - 1])
    ensures TrimRight(s + tail, k) == s + TrimRight(tail, k)
  {
    var r := TrimRight(tail, k);
    assert s + tail == (s + r) + tail[|r|..];
    TrimRightIgnores(s + r, tail[|r|..], k);
    TrimRightStops(s + r, k);
  }

  lemma TrimRightStops(s: string, k: CharClass)
    requires |s| > 0 ==> !k.Has(s[|s| - 1])
    ensures TrimRight(s, k) == s
  {
  }

  lemma TrimLeftStops(s: string, k: CharClass)
    requires |s| > 0 ==> !k.Has(s[0])
    ensures TrimLeft(s, k) == s
  {
  }

  lemma {:induction false} TrimLeftSkips(lead: string, s: string, k: CharClass)
    requires AllIn(lead, k) && (|s| > 0 ==> !k.Has(s[0]))
    ensures TrimLeft(lead + s, k) == s
  {
    if |lead| == 0 {
      assert lead + s == s;
    } else {
      assert (lead + s)[1..] == lead[1..] + s;
      TrimLeftSkips(lead[1..], s, k);
    }
  }

  // ---- Searching ------------------------------------------------------------------

  function IndexOf(s: string, c: char): (k: Option<nat>)
    ensures k.None? <==> c !in s
    ensures k.Some? ==> k.value < |s| && s[k.value] == c && c !in s[..k.value]
  {
    if |s| == 0 then None
    else if s[0] == c then Some(0)
    else
      assert s == [s[0]] + s[1..];
      match IndexOf(s[1..], c)
      case None => None
      case Some(k) =>
        assert s[..k + 1] == [s[0]] + s[1..][..k];
        Some(k + 1)
  }

  /** The first place where a is directly followed by b. */
  function IndexOfPair(s: string, a: char, b: char): (k: Option<nat>)
    ensures k.Some? ==> k.value + 1 < |s| && s[k.value] == a && s[k.value + 1] == b
    ensures a !in s ==> k.None?
  {
    if |s| < 2 then None
    else if s[0] == a && s[1] == b then Some(0)
    else
      match IndexOfPair(s[1..], a, b)
      case None => None
      case Some(k) => Some(k + 1)
  }

  lemma IndexOfAt(s: string, c: char, k: nat)
    requires k < |s| && s[k] == c && c !in s[..k]
    ensures IndexOf(s, c) == Some(k)
  {
    var j := IndexOf(s, c).value;
    assert forall i | 0 <= i < k :: s[i] in s[..k];
    assert forall i | 0 <= i < j :: s[i] in s[..j];
  }

  // ---- Replacing ------------------------------------------------------------------

  /** Every c replaced by a string. */
  function ReplaceChar(s: string, c: char, repl: string): string {
    if |s| == 0 then "" else (if s[0] == c then repl else [s[0]]) + ReplaceChar(s[1..], c, repl)
  }

  /** Every "ab" replaced by c, scanning left to right without overlap. */
  function ReplacePair(s: string, a: char, b: char, c: char): string {
    if |s| < 2 then s
    else if s[0] == a && s[1] == b then [c] + ReplacePair(s[2..], a, b, c)
    else [s[0]] + ReplacePair(s[1..], a, b, c)
  }

  lemma {:induction false} ReplaceCharConcat(s: string, t: string, c: char, repl: string)
    ensures ReplaceChar(s + t, c, repl) == ReplaceChar(s, c, repl) + ReplaceChar(t, c, repl)
  {
    if |s| == 0 {
      assert s + t == t;
    } else {
      assert (s + t)[1..] == s[1..] + t;
      ReplaceCharConcat(s[1..], t, c, repl);
    }
  }

  lemma {:induction false} ReplacePairAbsent(s: string, a: char, b: char, c: char)
    requires a !in s || b !in s
    ensures ReplacePair(s, a, b, c) == s
  {
    if |s| >= 2 {
      ReplacePairAbsent(s[1..], a, b, c);
    }
  }

  /** A character that takes no part in the replacement is neither made nor lost. */
  lemma {:induction false} ReplacePairKeepsCount(s: string, a: char, b: char, c: char, x: char)
    requires x != a && x != b && x != c
    ensures Count(ReplacePair(s, a, b, c), x) == Count(s, x)
  {
    if |s| >= 2 {
      if s[0] == a && s[1] == b {
        ReplacePairKeepsCount(s[2..], a, b, c, x);
        assert s[1..][1..] == s[2..];
        assert ([c] + ReplacePair(s[2..], a, b, c))[1..] == ReplacePair(s[2..], a, b, c);
      } else {
        ReplacePairKeepsCount(s[1..], a, b, c, x);
        assert ([s[0]] + ReplacePair(s[1..], a, b, c))[1..] == ReplacePair(s[1..], a, b, c);
      }
    }
  }

  function Count(s: string, x: char): nat {
    if |s| == 0 then 0 else (if s[0] == x then 1 else 0) + Count(s[1..], x)
  }

  lemma {:induction false} CountZero(s: string, x: char)
    ensures Count(s, x) == 0 <==> x !in s
  {
    if |s| > 0 {
      CountZero(s[1..], x);
      assert s == [s[0]] + s[1..];
    }
  }

  // ---- Lines ----------------------------------------------------------------------

  /** Cutting at every newline; there is always at least one piece. */
  function SplitLines(s: string): (r: seq<string>)
    ensures |r| > 0
    ensures forall i | 0 <= i < |r| :: '\n' !in r[i]
  {
    match IndexOf(s, '\n')
    case None => [s]
    case Some(k) => [s[..k]] + SplitLines(s[k + 1..])
  }

  function Join(lines: seq<string>, sep: char): string {
    if |lines| == 0 then ""
    else if |lines| == 1 then lines[0]
    else lines[0] + [sep] + Join(lines[1..], sep)
  }

  lemma {:induction false} SplitJoin(lines: seq<string>)
    requires |lines| > 0 && forall i | 0 <= i < |lines| :: '\n' !in lines[i]
    ensures SplitLines(Join(lines, '\n')) == lines
  {
    hide IndexOf;
    if |lines| == 1 {
      assert Join(lines, '\n') == lines[0];
    } else {
      SplitFirst(lines[0], Join(lines[1..], '\n'));
      SplitJoin(lines[1..]);
    }
  }

  lemma {:induction false} SplitFirst(line: string, rest: string)
    requires '\n' !in line
    ensures SplitLines(line + ['\n'] + rest) == [line] + SplitLines(rest)
  {
    hide IndexOf;
    var s := line + ['\n'] + rest;
    assert s[|line|] == '\n' && s[..|line|] == line && s[|line| + 1..] == rest;
    IndexOfAt(s, '\n', |line|);
  }

  function DropCR(line: string): string {
    if |line| > 0 && line[|line| - 1] == '\r' then line[..|line| - 1] else line
  }

  /** A line scanner: newline-terminated lines, and an unfinished last one when it is not empty; a final '\r' goes. */
  function ScanLines(s: string): (r: seq<string>)
    ensures forall i | 0 <= i < |r| :: '\n' !in r[i]
  {
    match IndexOf(s, '\n')
    case None => if |s| == 0 then [] else [DropCR(s)]
    case Some(k) => [DropCR(s[..k])] + ScanLines(s[k + 1..])
  }

  /** Each line with its newline. */
  function Unlines(lines: seq<string>): string {
    if |lines| == 0 then "" else Unlines(lines[..|lines| - 1]) + lines[|lines| - 1] + "\n"
  }

  lemma {:induction false} UnlinesConcat(a: seq<string>, b: seq<string>)
    ensures Unlines(a + b) == Unlines(a) + Unlines(b)
  {
    if |b| == 0 {
      assert a + b == a && Unlines(a) + "" == Unlines(a);
    } else {
      var n := |b| - 1;
      assert (a + b)[..|a + b| - 1] == a + b[..n];
      UnlinesConcat(a, b[..n]);
      assert Unlines(a) + (Unlines(b[..n]) + b[n] + "\n") == Unlines(a) + Unlines(b[..n]) + b[n] + "\n";
    }
  }

  function DropCRs(lines: seq<string>): (r: seq<string>)
    ensures |r| == |lines| && forall i | 0 <= i < |lines| :: r[i] == DropCR(lines[i])
  {
    seq(|lines|, i requires 0 <= i < |lines| => DropCR(lines[i]))
  }

  lemma ScanFirst(line: string, rest: string)
    requires '\n' !in line
    ensures ScanLines(line + "\n" + rest) == [DropCR(line)] + ScanLines(rest)
  {
    hide IndexOf;
    hide DropCR;
    var s := line + "\n" + rest;
    assert s[|line|] == '\n' && s[..|line|] == line && s[|line| + 1..] == rest;
    IndexOfAt(s, '\n', |line|);
  }

  lemma {:induction false} ScanUnlines(lines: seq<string>)
    requires forall i | 0 <= i < |lines| :: '\n' !in lines[i]
    ensures ScanLines(Unlines(lines)) == DropCRs(lines)
  {
    hide DropCR;
    hide DropCRs;
    hide ScanLines;
    hide Unlines;
    if |lines| == 0 {
      ScanNothing();
    } else {
      var first, rest := lines[0], lines[1..];
      assert lines == [first] + rest;
      UnlinesConcat([first], rest);
      UnlinesOne(first);
      DropCRsFirst(first, rest);
      ScanFirst(first, Unlines(rest));
      ScanUnlines(rest);
    }
  }

  lemma ScanNothing()
    ensures ScanLines(Unlines([])) == DropCRs([])
  {
  }

  lemma DropCRsFirst(line: string, rest: seq<string>)
    ensures DropCRs([line] + rest) == [DropCR(line)] + DropCRs(rest)
  {
    hide DropCR;
  }

  lemma UnlinesOne(line: string)
    ensures Unlines([line]) == line + "\n"
  {
    assert [line][..0] == [];
    assert "" + line == line;
  }

  // ---- Words ----------------------------------------------------------------------

  ghost predicate IsWord(w: string) {
    |w| > 0 && forall j | 0 <= j < |w| :: !Spaces.Has(w[j])
  }

  /** The maximal runs of characters that are not white space. */
  function Fields(s: string): (r: seq<string>)
    decreases |s|
  {
    var t := TrimLeft(s, Spaces);
    if |t| == 0 then []
    else
      var n := WordLength(t);
      [t[..n]] + Fields(t[n..])
  }

  lemma FieldsFirst(s: string)
    ensures var t := TrimLeft(s, Spaces);
            Fields(s) == if |t| == 0 then [] else [t[..WordLength(t)]] + Fields(t[WordLength(t)..])
  {
  }

  lemma FirstIsWord(t: string)
    requires |t| > 0 && !Spaces.Has(t[0])
    ensures WordLength(t) > 0 && IsWord(t[..WordLength(t)])
  {
    hide CharClass.Has;
  }

  lemma {:induction false} FieldsAreWords(s: string)
    ensures forall i | 0 <= i < |Fields(s)| :: IsWord(Fields(s)[i])
    decreases |s|
  {
    hide CharClass.Has;
    hide Fields;
    hide IsWord;
    hide WordLength;
    var t := TrimLeft(s, Spaces);
    FieldsFirst(s);
    if |t| > 0 {
      FirstIsWord(t);
      FieldsAreWords(t[WordLength(t)..]);
    }
  }

  function WordLength(s: string): (n: nat)
    ensures n <= |s| && forall j | 0 <= j < n :: !Spaces.Has(s[j])
    ensures n < |s| ==> Spaces.Has(s[n])
    ensures |s| > 0 && !Spaces.Has(s[0]) ==> n > 0
  {
    if |s| == 0 || Spaces.Has(s[0]) then 0 else 1 + WordLength(s[1..])
  }

  /** Words joined by single blanks have bare ends and no other white space. */
  lemma {:induction false} JoinedWordsBare(words: seq<string>)
    requires forall i | 0 <= i < |words| :: IsWord(words[i])
    ensures var s := Join(words, ' ');
            Bare(s, Spaces) && '\n' !in s && (|s| == 0 <==> |words| == 0)
  {
    if |words| > 0 {
      WordIsBare(words[0]);
    }
    if |words| > 1 {
      hide CharClass.Has;
      JoinedWordsBare(words[1..]);
      var rest := Join(words[1..], ' ');
      var s := Join(words, ' ');
      assert s == words[0] + [' '] + rest;
      assert s[|s| - 1] == rest[|rest| - 1];
    }
  }

  lemma WordIsBare(w: string)
    requires IsWord(w)
    ensures Bare(w, Spaces) && '\n' !in w
  {
  }

  lemma NoWords()
    ensures Fields("") == [] && Spaces.Has(' ')
  {
  }

  lemma LeadingSpace(t: string)
    ensures Fields(" " + t) == Fields(t)
  {
    assert (" " + t)[1..] == t;
    assert TrimLeft(" " + t, Spaces) == TrimLeft(t, Spaces);
  }

  lemma {:induction false} WordEnds(w: string, rest: string)
    requires forall j | 0 <= j < |w| :: !Spaces.Has(w[j])
    requires |rest| > 0 ==> Spaces.Has(rest[0])
    ensures WordLength(w + rest) == |w|
  {
    assert forall j | 0 <= j < |w| :: (w + rest)[j] == w[j];
    assert |rest| > 0 ==> (w + rest)[|w|] == rest[0];
  }

  lemma FirstWord(w: string, rest: string)
    requires IsWord(w) && (|rest| > 0 ==> Spaces.Has(rest[0]))
    ensures Fields(w + rest) == [w] + Fields(rest)
  {
    hide CharClass.Has;
    TrimLeftStops(w + rest, Spaces);
    WordEnds(w, rest);
    assert (w + rest)[..|w|] == w && (w + rest)[|w|..] == rest;
  }

  lemma {:induction false} JoinedReadBack(words: seq<string>)
    requires forall i | 0 <= i < |words| :: IsWord(words[i])
    ensures Fields(Join(words, ' ')) == words
  {
    hide Fields;
    hide IsWord;
    NoWords();
    if |words| == 1 {
      FirstWord(words[0], "");
      assert words[0] + "" == words[0];
    } else if |words| > 1 {
      var rest := Join(words[1..], ' ');
      JoinedReadBack(words[1..]);
      FirstWord(words[0], " " + rest);
      LeadingSpace(rest);
      assert Join(words, ' ') == words[0] + (" " + rest);
    }
  }
}
