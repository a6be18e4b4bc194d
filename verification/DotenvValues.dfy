/** One value of a .env file: how it is written, how it is read, and exactly which values survive. */
module DotenvValues {
  import opened Wrappers
  import opened Text

  const BACKSLASH := '\\'
  const QUOTE := '"'
  const APOSTROPHE := '\''

  predicate NeedsQuote(v: string) {
    ' ' in v || '\t' in v || '\n' in v || QUOTE in v || '#' in v || '=' in v
  }

  /** The three replacements, one after the other. */
  function Escape(v: string): string {
    ReplaceChar(ReplaceChar(ReplaceChar(v, BACKSLASH, "\\\\"), QUOTE, "\\\""), '\n', "\\n")
  }

  /** The four replacements, one after the other. */
  function Unescape(v: string): string {
    ReplacePair(ReplacePair(ReplacePair(ReplacePair(v,
      BACKSLASH, 'n', '\n'), BACKSLASH, 't', '\t'), BACKSLASH, QUOTE, QUOTE), BACKSLASH, BACKSLASH, BACKSLASH)
  }

  function WriteValue(v: string): string {
    if NeedsQuote(v) then [QUOTE] + Escape(v) + [QUOTE] else v
  }

  /** The text after the equals sign; None is an unterminated quoted value. */
  function ReadValue(v: string): Option<string> {
    if |v| > 0 && (v[0] == QUOTE || v[0] == APOSTROPHE) then
      match IndexOf(v[1..], v[0])
      case None => None
      case Some(end) => Some(if v[0] == QUOTE then Unescape(v[1..][..end]) else v[1..][..end])
    else
      match IndexOfPair(v, ' ', '#')
      case None => Some(TrimSpace(v))
      case Some(hash) => Some(TrimSpace(v[..hash]))
  }

  /** The values that are read back as they were written. */
  predicate ValueOk(v: string) {
    if NeedsQuote(v) then QUOTE !in v && Adjacent(v, BACKSLASH, 'n') == 0 && Adjacent(v, BACKSLASH, 't') == 0
    else Bare(v, Spaces) && !(|v| > 0 && v[0] == APOSTROPHE)
  }

  /** How often a is directly followed by b. */
  function Adjacent(s: string, a: char, b: char): nat {
    if |s| < 2 then 0 else (if s[0] == a && s[1] == b then 1 else 0) + Adjacent(s[1..], a, b)
  }

  // ---- Escaping, character by character ---------------------------------------------

  function EscapeOne(c: char): (r: string)
    ensures |r| > 0
    ensures r[0] == if c == BACKSLASH || c == QUOTE || c == '\n' then BACKSLASH else c
  {
    if c == BACKSLASH then [BACKSLASH, BACKSLASH]
    else if c == QUOTE then [BACKSLASH, QUOTE]
    else if c == '\n' then [BACKSLASH, 'n']
    else [c]
  }

  lemma EscapeFirst(v: string)
    requires |v| > 0
    ensures Escape(v) == EscapeOne(v[0]) + Escape(v[1..])
  {
    var c, rest := v[0], v[1..];
    assert v == [c] + rest;
    ReplaceCharConcat([c], rest, BACKSLASH, "\\\\");
    var one := ReplaceChar([c], BACKSLASH, "\\\\");
    var rest1 := ReplaceChar(rest, BACKSLASH, "\\\\");
    ReplaceCharConcat(one, rest1, QUOTE, "\\\"");
    var two := ReplaceChar(one, QUOTE, "\\\"");
    ReplaceCharConcat(two, ReplaceChar(rest1, QUOTE, "\\\""), '\n', "\\n");
    EscapeSingle(c);
  }

  lemma EscapeSingle(c: char)
    ensures Escape([c]) == EscapeOne(c)
  {
    ReplaceOne(c, BACKSLASH, "\\\\");
    if c == BACKSLASH {
      ReplaceNeither(BACKSLASH, BACKSLASH, QUOTE, "\\\"");
      ReplaceNeither(BACKSLASH, BACKSLASH, '\n', "\\n");
    } else {
      ReplaceOne(c, QUOTE, "\\\"");
      if c == QUOTE {
        ReplaceNeither(BACKSLASH, QUOTE, '\n', "\\n");
      } else {
        ReplaceOne(c, '\n', "\\n");
      }
    }
  }

  lemma ReplaceOne(c: char, x: char, repl: string)
    ensures ReplaceChar([c], x, repl) == if c == x then repl else [c]
  {
    assert ReplaceChar([c][1..], x, repl) == "";
  }

  lemma ReplaceNeither(a: char, b: char, x: char, repl: string)
    requires a != x && b != x
    ensures ReplaceChar([a, b], x, repl) == [a, b]
  {
    assert [a, b][1..] == [b];
    ReplaceOne(b, x, repl);
  }

  /** The escaped form has quotes only where the value has. */
  lemma {:induction false} EscapeKeepsQuotes(v: string)
    ensures QUOTE in Escape(v) <==> QUOTE in v
    ensures '\n' !in Escape(v)
  {
    if |v| > 0 {
      EscapeFirst(v);
      EscapeKeepsQuotes(v[1..]);
      assert v == [v[0]] + v[1..];
    }
  }

  /** The value with its backslashes doubled and nothing else. */
  function Doubled(v: string): string {
    if |v| == 0 then "" else (if v[0] == BACKSLASH then [BACKSLASH, BACKSLASH] else [v[0]]) + Doubled(v[1..])
  }

  // ---- Unescaping undoes it, on the right values --------------------------------------

  lemma PairStep(a: char, b: char, c: char, x: char, s: string)
    requires |s| > 0 && !(x == a && s[0] == b)
    ensures ReplacePair([x] + s, a, b, c) == [x] + ReplacePair(s, a, b, c)
  {
    assert ([x] + s)[1..] == s;
  }

  lemma PairHit(a: char, b: char, c: char, s: string)
    ensures ReplacePair([a, b] + s, a, b, c) == [c] + ReplacePair(s, a, b, c)
  {
    assert ([a, b] + s)[2..] == s;
  }

  lemma NothingToReplace(s: string, a: char, b: char, c: char)
    requires |s| < 2
    ensures ReplacePair(s, a, b, c) == s
  {
  }

  lemma EscapeNothing()
    ensures Escape("") == ""
  {
  }

  /** First replacement: written newlines come back, doubled backslashes stay doubled. */
  lemma {:induction false} NewlinesComeBack(v: string)
    requires QUOTE !in v && Adjacent(v, BACKSLASH, 'n') == 0
    ensures ReplacePair(Escape(v), BACKSLASH, 'n', '\n') == Doubled(v)
  {
    hide Escape;
    hide ReplacePair;
    EscapeNothing();
    if |v| == 0 {
      NothingToReplace("", BACKSLASH, 'n', '\n');
    } else {
      var c, rest := v[0], v[1..];
      EscapeFirst(v);
      if |rest| > 0 {
        EscapeFirst(rest);
      }
      NewlinesComeBack(rest);
      NewlineStep(c, rest);
    }
  }

  lemma NewlineStep(c: char, rest: string)
    requires c != QUOTE && !(c == BACKSLASH && |rest| > 0 && rest[0] == 'n')
    requires |Escape(rest)| > 0 <==> |rest| > 0
    requires |rest| > 0 ==> Escape(rest)[0] == EscapeOne(rest[0])[0]
    ensures ReplacePair(EscapeOne(c) + Escape(rest), BACKSLASH, 'n', '\n') ==
            (if c == BACKSLASH then [BACKSLASH, BACKSLASH] else [c]) + ReplacePair(Escape(rest), BACKSLASH, 'n', '\n')
  {
    hide Escape;
    hide ReplacePair;
    var tail := Escape(rest);
    var after := ReplacePair(tail, BACKSLASH, 'n', '\n');
    if |rest| == 0 {
      NothingToReplace([c] + tail, BACKSLASH, 'n', '\n');
      NothingToReplace([BACKSLASH] + tail, BACKSLASH, 'n', '\n');
      NothingToReplace(tail, BACKSLASH, 'n', '\n');
    } else if c != '\n' {
      PairStep(BACKSLASH, 'n', '\n', c, tail);
    }
    if c == '\n' {
      PairHit(BACKSLASH, 'n', '\n', tail);
    } else if c == BACKSLASH {
      assert [BACKSLASH, BACKSLASH] == [BACKSLASH] + [BACKSLASH];
      ConcatAssoc([BACKSLASH], [BACKSLASH], tail);
      ConcatAssoc([BACKSLASH], [BACKSLASH], after);
      PairStep(BACKSLASH, 'n', '\n', BACKSLASH, [BACKSLASH] + tail);
    }
  }

  lemma DoubledFirst(v: string)
    requires |v| > 0
    ensures |Doubled(v)| > 0 && Doubled(v)[0] == v[0]
  {
  }

  /** Second replacement: nothing looks like an escaped tab. */
  lemma {:induction false} NoTabsAppear(v: string)
    requires Adjacent(v, BACKSLASH, 't') == 0
    ensures ReplacePair(Doubled(v), BACKSLASH, 't', '\t') == Doubled(v)
  {
    if |v| > 0 {
      var c, rest := v[0], v[1..];
      NoTabsAppear(rest);
      var tail := Doubled(rest);
      if |rest| > 0 {
        DoubledFirst(rest);
        PairStep(BACKSLASH, 't', '\t', c, tail);
      }
      if c == BACKSLASH {
        ConcatAssoc([BACKSLASH], [BACKSLASH], tail);
        PairStep(BACKSLASH, 't', '\t', BACKSLASH, [BACKSLASH] + tail);
        ConcatAssoc([BACKSLASH], [BACKSLASH], ReplacePair(tail, BACKSLASH, 't', '\t'));
        assert |rest| == 0 ==> [BACKSLASH] + tail == [BACKSLASH];
      }
    }
  }

  /** Last replacement: doubled backslashes come back. */
  lemma {:induction false} BackslashesComeBack(v: string)
    ensures ReplacePair(Doubled(v), BACKSLASH, BACKSLASH, BACKSLASH) == v
  {
    if |v| > 0 {
      var c, rest := v[0], v[1..];
      BackslashesComeBack(rest);
      var tail := Doubled(rest);
      if c == BACKSLASH {
        PairHit(BACKSLASH, BACKSLASH, BACKSLASH, tail);
      } else if |rest| > 0 {
        PairStep(BACKSLASH, BACKSLASH, BACKSLASH, c, tail);
      }
    }
  }

  lemma {:induction false} DoubledKeepsQuotes(v: string)
    ensures QUOTE in Doubled(v) <==> QUOTE in v
  {
    if |v| > 0 {
      DoubledKeepsQuotes(v[1..]);
      assert v == [v[0]] + v[1..];
    }
  }

  lemma EscapedValueComesBack(v: string)
    requires QUOTE !in v && Adjacent(v, BACKSLASH, 'n') == 0 && Adjacent(v, BACKSLASH, 't') == 0
    ensures Unescape(Escape(v)) == v
  {
    NewlinesComeBack(v);
    NoTabsAppear(v);
    DoubledKeepsQuotes(v);
    ReplacePairAbsent(Doubled(v), BACKSLASH, QUOTE, QUOTE);
    BackslashesComeBack(v);
  }

  // ---- And fails to, on the others: counting what the replacements make ---------------

  lemma CountFirst(x: char, s: string, y: char)
    ensures Count([x] + s, y) == (if x == y then 1 else 0) + Count(s, y)
  {
    assert ([x] + s)[1..] == s;
  }

  /** Every backslash-n of the value becomes one newline too many. */
  lemma {:induction false} NewlinesMade(v: string)
    requires QUOTE !in v
    ensures Count(ReplacePair(Escape(v), BACKSLASH, 'n', '\n'), '\n') == Count(v, '\n') + Adjacent(v, BACKSLASH, 'n')
  {
    if |v| > 0 {
      var c, rest := v[0], v[1..];
      EscapeFirst(v);
      NewlinesMade(rest);
      var tail := Escape(rest);
      if |rest| > 0 {
        EscapeFirst(rest);
      }
      var made := ReplacePair(tail, BACKSLASH, 'n', '\n');
      if c == '\n' {
        PairHit(BACKSLASH, 'n', '\n', tail);
        CountFirst('\n', made, '\n');
      } else if c == BACKSLASH {
        BackslashMakes(rest);
      } else if |rest| > 0 {
        PairStep(BACKSLASH, 'n', '\n', c, tail);
        CountFirst(c, made, '\n');
      }
    }
  }

  /** The doubled backslash before `rest`: its second half turns an 'n' that follows into a newline. */
  lemma BackslashMakes(rest: string)
    requires QUOTE !in rest
    ensures Count(ReplacePair([BACKSLASH, BACKSLASH] + Escape(rest), BACKSLASH, 'n', '\n'), '\n')
         == Count(ReplacePair(Escape(rest), BACKSLASH, 'n', '\n'), '\n') + (if |rest| > 0 && rest[0] == 'n' then 1 else 0)
  {
    var tail := Escape(rest);
    assert [BACKSLASH, BACKSLASH] + tail == [BACKSLASH] + ([BACKSLASH] + tail);
    PairStep(BACKSLASH, 'n', '\n', BACKSLASH, [BACKSLASH] + tail);
    CountFirst(BACKSLASH, ReplacePair([BACKSLASH] + tail, BACKSLASH, 'n', '\n'), '\n');
    if |rest| > 0 {
      EscapeFirst(rest);
      if rest[0] == 'n' {
        HitThenRest(tail, 'n', '\n');
      } else {
        PairStep(BACKSLASH, 'n', '\n', BACKSLASH, tail);
        CountFirst(BACKSLASH, ReplacePair(tail, BACKSLASH, 'n', '\n'), '\n');
      }
    }
  }

  /** A backslash before a text that starts with b makes one c more than the text alone. */
  lemma HitThenRest(tail: string, b: char, c: char)
    requires |tail| > 0 && tail[0] == b && b != BACKSLASH && b != c
    ensures Count(ReplacePair([BACKSLASH] + tail, BACKSLASH, b, c), c) == Count(ReplacePair(tail, BACKSLASH, b, c), c) + 1
  {
    var after := tail[1..];
    assert [BACKSLASH] + tail == [BACKSLASH, b] + after;
    PairHit(BACKSLASH, b, c, after);
    CountFirst(c, ReplacePair(after, BACKSLASH, b, c), c);
    assert tail == [b] + after;
    if |after| > 0 {
      PairStep(BACKSLASH, b, c, b, after);
    }
    CountFirst(b, ReplacePair(after, BACKSLASH, b, c), c);
  }

  /** Every backslash-t of the value becomes one tab too many. */
  lemma {:induction false} TabsMade(v: string)
    ensures Count(ReplacePair(Doubled(v), BACKSLASH, 't', '\t'), '\t') == Count(v, '\t') + Adjacent(v, BACKSLASH, 't')
  {
    if |v| > 0 {
      var c, rest := v[0], v[1..];
      TabsMade(rest);
      var tail := Doubled(rest);
      var made := ReplacePair(tail, BACKSLASH, 't', '\t');
      if |rest| > 0 {
        DoubledFirst(rest);
      }
      if c == BACKSLASH {
        assert [BACKSLASH, BACKSLASH] + tail == [BACKSLASH] + ([BACKSLASH] + tail);
        PairStep(BACKSLASH, 't', '\t', BACKSLASH, [BACKSLASH] + tail);
        CountFirst(BACKSLASH, ReplacePair([BACKSLASH] + tail, BACKSLASH, 't', '\t'), '\t');
        if |rest| > 0 && rest[0] == 't' {
          HitThenRest(tail, 't', '\t');
        } else if |rest| > 0 {
          PairStep(BACKSLASH, 't', '\t', BACKSLASH, tail);
          CountFirst(BACKSLASH, made, '\t');
        }
      } else {
        if |rest| > 0 {
          PairStep(BACKSLASH, 't', '\t', c, tail);
        }
        CountFirst(c, made, '\t');
      }
    }
  }

  /** Without a quote in it, a value survives escaping exactly when no backslash stands before an n or a t. */
  lemma UnescapeUndoesEscapeExactlyWhen(v: string)
    requires QUOTE !in v
    ensures Unescape(Escape(v)) == v <==> Adjacent(v, BACKSLASH, 'n') == 0 && Adjacent(v, BACKSLASH, 't') == 0
  {
    var one := ReplacePair(Escape(v), BACKSLASH, 'n', '\n');
    var two := ReplacePair(one, BACKSLASH, 't', '\t');
    var three := ReplacePair(two, BACKSLASH, QUOTE, QUOTE);
    if Adjacent(v, BACKSLASH, 'n') > 0 {
      NewlinesMade(v);
      ReplacePairKeepsCount(one, BACKSLASH, 't', '\t', '\n');
      ReplacePairKeepsCount(two, BACKSLASH, QUOTE, QUOTE, '\n');
      ReplacePairKeepsCount(three, BACKSLASH, BACKSLASH, BACKSLASH, '\n');
    } else if Adjacent(v, BACKSLASH, 't') > 0 {
      NewlinesComeBack(v);
      TabsMade(v);
      ReplacePairKeepsCount(two, BACKSLASH, QUOTE, QUOTE, '\t');
      ReplacePairKeepsCount(three, BACKSLASH, BACKSLASH, BACKSLASH, '\t');
    } else {
      EscapedValueComesBack(v);
    }
  }

  // ---- The value as a whole --------------------------------------------------------

  /** Unescaping text without quotes never makes one. */
  lemma UnescapeMakesNoQuote(s: string)
    requires QUOTE !in s
    ensures QUOTE !in Unescape(s)
  {
    var one := ReplacePair(s, BACKSLASH, 'n', '\n');
    var two := ReplacePair(one, BACKSLASH, 't', '\t');
    CountZero(s, QUOTE);
    ReplacePairKeepsCount(s, BACKSLASH, 'n', '\n', QUOTE);
    ReplacePairKeepsCount(one, BACKSLASH, 't', '\t', QUOTE);
    CountZero(two, QUOTE);
    ReplacePairAbsent(two, BACKSLASH, QUOTE, QUOTE);
    ReplacePairKeepsCount(two, BACKSLASH, BACKSLASH, BACKSLASH, QUOTE);
    CountZero(Unescape(s), QUOTE);
  }

  /** A value written in quotes is read up to its first quote. */
  lemma QuotedValue(v: string)
    requires NeedsQuote(v)
    ensures ReadValue(WriteValue(v)) == Some(v) <==> ValueOk(v)
  {
    var w := WriteValue(v);
    var inner := Escape(v) + [QUOTE];
    assert w == [QUOTE] + inner && w[1..] == inner;
    EscapeKeepsQuotes(v);
    var end := IndexOf(inner, QUOTE).value;
    if QUOTE in v {
      UnescapeMakesNoQuote(inner[..end]);
    } else {
      IndexOfAt(inner, QUOTE, |Escape(v)|);
      assert inner[..end] == Escape(v);
      UnescapeUndoesEscapeExactlyWhen(v);
    }
  }

  /** A value written bare is read with its ends trimmed, unless it looks quoted. */
  lemma BareValue(v: string)
    requires !NeedsQuote(v)
    ensures ReadValue(TrimRight(v, Spaces)) == Some(v) <==> ValueOk(v)
  {
    var t := TrimRight(v, Spaces);
    assert forall c | c in t :: c in v;
    if |t| > 0 && t[0] == APOSTROPHE {
      assert v[0] == APOSTROPHE;
    } else {
      assert ReadValue(t) == Some(TrimSpace(t));
      TrimTwice(v);
      TrimIsBare(v, Spaces);
    }
  }

  lemma TrimTwice(v: string)
    ensures TrimSpace(TrimRight(v, Spaces)) == TrimSpace(v)
  {
    hide TrimLeft;
    hide TrimRight;
    hide CharClass.Has;
    var l := TrimLeft(v, Spaces);
    var lead := v[..|v| - |l|];
    Halves(v, |v| - |l|);
    if |l| == 0 {
      assert lead == v;
      AllSpaceTrims(v);
      AllSpaceTrims("");
    } else {
      var r := TrimRight(l, Spaces);
      TrimRightAfter(lead, l);
      assert r[0] == l[0];
      TrimLeftSkips(lead, r, Spaces);
      TrimRightStops(r, Spaces);
    }
  }

  lemma TrimRightAfter(lead: string, s: string)
    requires |TrimRight(s, Spaces)| > 0
    ensures TrimRight(lead + s, Spaces) == lead + TrimRight(s, Spaces)
  {
    hide TrimRight;
    hide CharClass.Has;
    var r := TrimRight(s, Spaces);
    Halves(s, |r|);
    ConcatAssoc(lead, r, s[|r|..]);
    TrimRightIgnores(lead + r, s[|r|..], Spaces);
    TrimRightStops(lead + r, Spaces);
  }

  lemma AllSpaceTrims(s: string)
    requires AllIn(s, Spaces)
    ensures TrimSpace(s) == "" && TrimRight(s, Spaces) == ""
  {
  }

  /** Exactly these values are read back as written. */
  lemma ValueRoundTripsExactlyWhen(v: string)
    ensures ReadValue(TrimRight(WriteValue(v), Spaces)) == Some(v) <==> ValueOk(v)
  {
    if NeedsQuote(v) {
      QuotedValue(v);
      assert WriteValue(v)[|WriteValue(v)| - 1] == QUOTE;
      TrimRightStops(WriteValue(v), Spaces);
    } else {
      BareValue(v);
    }
  }
}
