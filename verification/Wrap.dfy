/**
 Greedy wrapping of a value into its column: the words unchanged and in order, every line
 as wide as the column allows, and no wrapping with fewer lines.
 */
module Wrap {
  import opened Wrappers
  import Text

  // ---- Lines of words -------------------------------------------------------------------

  /** How wide the words are when set on one line. */
  function Width(words: seq<string>): nat {
    |Text.Join(words, ' ')|
  }

  function Concat(lines: seq<seq<string>>): seq<string> {
    if |lines| == 0 then [] else lines[0] + Concat(lines[1..])
  }

  /** A line fits the room, or is a single word that nothing could make fit. */
  predicate LineOk(line: seq<string>, room: int) {
    |line| == 1 || (|line| > 1 && Width(line) <= room)
  }

  /** The words set on lines that are all in order. */
  ghost predicate Wraps(lines: seq<seq<string>>, words: seq<string>, room: int) {
    Concat(lines) == words && forall i | 0 <= i < |lines| :: LineOk(lines[i], room)
  }

  lemma {:induction false} WidthGrows(words: seq<string>, w: string)
    requires |words| > 0
    ensures Text.Join(words + [w], ' ') == Text.Join(words, ' ') + " " + w
    ensures Width(words + [w]) == Width(words) + 1 + |w|
  {
    if |words| == 1 {
      assert (words + [w])[1..] == [w];
    } else {
      assert (words + [w])[1..] == words[1..] + [w];
      WidthGrows(words[1..], w);
    }
  }

  lemma {:induction false} PrefixNoWider(a: seq<string>, b: seq<string>)
    ensures Width(a) <= Width(a + b)
    decreases |b|
  {
    if |b| == 0 {
      assert a + b == a;
    } else if |a| > 0 {
      var n := |b| - 1;
      assert a + b == (a + b[..n]) + [b[n]];
      WidthGrows(a + b[..n], b[n]);
      PrefixNoWider(a, b[..n]);
    }
  }

  lemma SuffixNoWider(a: seq<string>, b: seq<string>)
    requires |b| > 0
    ensures Width(b) <= Width(a + b)
    decreases |a|
  {
    if |a| == 0 {
      assert a + b == b;
    } else {
      assert (a + b)[1..] == a[1..] + b;
      SuffixNoWider(a[1..], b);
    }
  }

  // ---- Greedy -----------------------------------------------------------------------------

  /** The lines once the words are set one by one after those of the open line. */
  function Greedy(open: seq<string>, words: seq<string>, room: int): seq<seq<string>>
    requires |open| > 0
    decreases |words|
  {
    if |words| == 0 then [open]
    else if Width(open) + 1 + |words[0]| <= room then Greedy(open + [words[0]], words[1..], room)
    else [open] + Greedy([words[0]], words[1..], room)
  }

  lemma {:induction false} GreedyWraps(open: seq<string>, words: seq<string>, room: int)
    requires LineOk(open, room)
    ensures Wraps(Greedy(open, words, room), open + words, room) && |Greedy(open, words, room)| > 0
    decreases |words|
  {
    if |words| == 0 {
      assert Concat([open]) == open + Concat([]) == open + words;
    } else if Width(open) + 1 + |words[0]| <= room {
      WidthGrows(open, words[0]);
      GreedyWraps(open + [words[0]], words[1..], room);
      assert (open + [words[0]]) + words[1..] == open + words;
    } else {
      var rest := Greedy([words[0]], words[1..], room);
      GreedyWraps([words[0]], words[1..], room);
      assert [words[0]] + words[1..] == words;
      assert ([open] + rest)[1..] == rest;
    }
  }

  /** The line the words go on is as full as it can be: greedy moves on only when the next word does not fit. */
  ghost predicate Full(lines: seq<seq<string>>, room: int) {
    forall i | 0 <= i < |lines| - 1 :: FullAt(lines, i, room)
  }

  predicate FullAt(lines: seq<seq<string>>, i: nat, room: int)
    requires i + 1 < |lines|
  {
    |lines[i]| > 0 && |lines[i + 1]| > 0 && Width(lines[i]) + 1 + |lines[i + 1][0]| > room
  }

  lemma {:induction false} GreedyFills(open: seq<string>, words: seq<string>, room: int)
    requires |open| > 0
    ensures var lines := Greedy(open, words, room);
            Full(lines, room) && |lines| > 0 && |lines[0]| > 0 && open <= lines[0]
    decreases |words|
  {
    if |words| > 0 {
      if Width(open) + 1 + |words[0]| <= room {
        GreedyFills(open + [words[0]], words[1..], room);
      } else {
        var rest := Greedy([words[0]], words[1..], room);
        GreedyFills([words[0]], words[1..], room);
        var lines := [open] + rest;
        assert rest[0][0] == words[0];
        forall i | 0 <= i < |lines| - 1 ensures FullAt(lines, i, room) {
          if i > 0 {
            assert FullAt(rest, i - 1, room);
          }
        }
      }
    }
  }

  // ---- No wrapping uses fewer lines -----------------------------------------------------------

  lemma {:induction false} WrapsTail(lines: seq<seq<string>>, words: seq<string>, room: int)
    requires |lines| > 0 && Wraps(lines, words, room)
    ensures |lines[0]| <= |words| && lines[0] == words[..|lines[0]|]
    ensures Wraps(lines[1..], words[|lines[0]|..], room)
  {
    assert words == lines[0] + Concat(lines[1..]);
    assert words[|lines[0]|..] == Concat(lines[1..]);
    forall i | 0 <= i < |lines| - 1 ensures LineOk(lines[1..][i], room) {
      assert lines[1..][i] == lines[i + 1];
    }
  }

  /**
   Full lines of words are never behind: dropping words at the front of the others cannot
   make them need more lines than the full ones have to the end.
   */
  lemma {:induction false} FullIsFewest(full: seq<seq<string>>, lines: seq<seq<string>>, a: seq<string>, words: seq<string>, room: int)
    requires Full(full, room) && Wraps(full, words, room)
    requires Wraps(lines, a + words, room)
    ensures |full| <= |lines|
    decreases |full|
  {
    if |full| > 0 {
      var first := full[0];
      WrapsTail(full, words, room);
      WordsNeedLines(lines, a + words, room);
      WrapsTail(lines, a + words, room);
      var other := lines[0];
      if |full| > 1 {
        WrapsTail(full[1..], words[|first|..], room);
        assert FullAt(full, 0, room) && full[1..][0] == full[1];
        FirstLineNoFurther(first, words[|first|..], other, a, words, room);
        FullTail(full, room);
        var behind := (a + words)[|other|..];
        var lead := |a| + |first| - |other|;
        assert behind == behind[..lead] + words[|first|..];
        FullIsFewest(full[1..], lines[1..], behind[..lead], words[|first|..], room);
      }
    }
  }

  lemma FullTail(full: seq<seq<string>>, room: int)
    requires |full| > 0 && Full(full, room)
    ensures Full(full[1..], room)
  {
    forall i | 0 <= i < |full| - 2 ensures FullAt(full[1..], i, room) {
      assert FullAt(full, i + 1, room);
    }
  }

  lemma WordsNeedLines(lines: seq<seq<string>>, words: seq<string>, room: int)
    requires Wraps(lines, words, room) && |words| > 0
    ensures |lines| > 0
  {
  }

  /** A line that starts no later than a full one ends no later. */
  lemma FirstLineNoFurther(first: seq<string>, after: seq<string>, other: seq<string>, a: seq<string>, words: seq<string>, room: int)
    requires words == first + after && |first| > 0 && |after| > 0
    requires Width(first) + 1 + |after[0]| > room
    requires |other| <= |a + words| && other == (a + words)[..|other|] && LineOk(other, room)
    ensures |other| <= |a| + |first|
  {
    if |other| > |a| + |first| {
      var next := first + [after[0]];
      var rest := other[|a| + |next|..];
      assert other == a + (next + rest) by {
        assert a + words == a + (first + after);
        assert after == [after[0]] + after[1..];
      }
      SuffixNoWider(a, next + rest);
      PrefixNoWider(next, rest);
      WidthGrows(first, after[0]);
    }
  }

  /** Greedy wrapping uses as few lines as any wrapping of the words. */
  lemma GreedyIsOptimal(words: seq<string>, room: int, lines: seq<seq<string>>)
    requires |words| > 0 && Wraps(lines, words, room)
    ensures Wraps(Greedy([words[0]], words[1..], room), words, room)
    ensures |Greedy([words[0]], words[1..], room)| <= |lines|
  {
    assert [words[0]] + words[1..] == words;
    GreedyWraps([words[0]], words[1..], room);
    GreedyFills([words[0]], words[1..], room);
    assert [] + words == words;
    FullIsFewest(Greedy([words[0]], words[1..], room), lines, [], words, room);
  }

  // ---- wrapTo --------------------------------------------------------------------------------

  function Pad(n: nat): string {
    if n == 0 then "" else " " + Pad(n - 1)
  }

  lemma {:induction false} PadIsSpaces(n: nat)
    ensures |Pad(n)| == n && forall i | 0 <= i < n :: Pad(n)[i] == ' '
  {
    if n > 0 {
      PadIsSpaces(n - 1);
    }
  }

  /** The lines as text, all but the first indented. */
  ghost predicate Shows(out: seq<string>, lines: seq<seq<string>>, indent: nat) {
    && |out| == |lines|
    && forall i | 0 <= i < |out| :: out[i] == (if i == 0 then "" else Pad(indent)) + Text.Join(lines[i], ' ')
  }

  /** Text too wide for a useful column, or without a word, is left alone. */
  predicate LeftAlone(text: string, width: int, indent: nat) {
    |Text.Fields(text)| == 0 || width <= indent + 8
  }

  method WrapTo(text: string, width: int, indent: nat) returns (out: seq<string>)
    ensures LeftAlone(text, width, indent) ==> out == [text]
    ensures !LeftAlone(text, width, indent) ==>
              var words := Text.Fields(text);
              Shows(out, Greedy([words[0]], words[1..], width - indent), indent)
  {
    hide Text.Fields;
    hide Text.CharClass.Has;
    var words := Text.Fields(text);
    if |words| == 0 || width <= indent + 8 {
      return [text];
    }
    Text.FieldsAreWords(text);
    var pad := Pad(indent);
    out := [];
    var line := "";
    ghost var done: seq<seq<string>>, open: seq<string> := [], [];
    for n := 0 to |words|
      invariant n == 0 ==> line == "" && out == [] && done == []
      invariant n > 0 ==> |open| > 0 && |line| > 0 && line == Text.Join(open, ' ')
      invariant n > 0 ==> Greedy([words[0]], words[1..], width - indent) == done + Greedy(open, words[n..], width - indent)
      invariant |out| == |done| && forall i | 0 <= i < |out| :: out[i] == Text.Join(done[i], ' ')
    {
      var w := words[n];
      assert Text.IsWord(w);
      if line == "" {
        line := w;
        open := [w];
        assert done + Greedy(open, words[1..], width - indent) == Greedy(open, words[1..], width - indent);
      } else {
        ghost var rest := words[n..];
        assert rest[0] == w && rest[1..] == words[n + 1..];
        if |line| + 1 + |w| <= width - indent {
          WidthGrows(open, w);
          line := line + " " + w;
          open := open + [w];
        } else {
          assert done + ([open] + Greedy([w], rest[1..], width - indent)) == (done + [open]) + Greedy([w], rest[1..], width - indent);
          out := out + [line];
          done := done + [open];
          line := w;
          open := [w];
        }
      }
    }
    assert words[|words|..] == [];
    out := out + [line];
    done := done + [open];
    for i := 1 to |out|
      invariant |out| == |done|
      invariant forall k | 0 <= k < |out| :: out[k] == (if 1 <= k < i then pad else "") + Text.Join(done[k], ' ')
    {
      out := out[i := pad + out[i]];
    }
  }

  /** So the words of the text stand in it in order, on lines that fit, and on as few as can be. */
  lemma WrappedIsOptimal(text: string, width: int, indent: nat, out: seq<string>, lines: seq<seq<string>>)
    requires !LeftAlone(text, width, indent)
    requires var words := Text.Fields(text);
             Shows(out, Greedy([words[0]], words[1..], width - indent), indent)
    requires Wraps(lines, Text.Fields(text), width - indent)
    ensures |out| <= |lines|
    ensures exists mine :: Wraps(mine, Text.Fields(text), width - indent) && Shows(out, mine, indent)
  {
    hide Text.Fields;
    hide Wraps;
    hide Greedy;
    hide Text.Join;
    var words := Text.Fields(text);
    GreedyIsOptimal(words, width - indent, lines);
  }

  /** Every line after the first starts with the indent's spaces, and none is wider than the column but one of a single word. */
  lemma WrappedFits(text: string, width: int, indent: nat, out: seq<string>, i: nat)
    requires !LeftAlone(text, width, indent) && i < |out|
    requires var words := Text.Fields(text);
             Shows(out, Greedy([words[0]], words[1..], width - indent), indent)
    ensures i > 0 ==> indent <= |out[i]| && forall j | 0 <= j < indent :: out[i][j] == ' '
    ensures |out[i]| <= width || exists w :: w in Text.Fields(text) && out[i] == (if i == 0 then "" else Pad(indent)) + w
  {
    hide Text.Fields;
    var words := Text.Fields(text);
    var lines := Greedy([words[0]], words[1..], width - indent);
    assert [words[0]] + words[1..] == words;
    GreedyWraps([words[0]], words[1..], width - indent);
    PadIsSpaces(indent);
    assert LineOk(lines[i], width - indent);
    if |lines[i]| == 1 {
      ConcatHoldsLines(lines);
      assert lines[i][0] in words;
      assert Text.Join(lines[i], ' ') == lines[i][0];
    }
  }

  /** The words can be read back off the lines: wrapping loses and changes none. */
  lemma WrappingKeepsTheWords(text: string, width: int, indent: nat, out: seq<string>)
    requires !LeftAlone(text, width, indent)
    requires var words := Text.Fields(text);
             Shows(out, Greedy([words[0]], words[1..], width - indent), indent)
    ensures FieldsOfAll(out) == Text.Fields(text)
  {
    hide Text.Fields;
    hide Text.IsWord;
    hide Greedy;
    var words := Text.Fields(text);
    var lines := Greedy([words[0]], words[1..], width - indent);
    assert [words[0]] + words[1..] == words;
    GreedyWraps([words[0]], words[1..], width - indent);
    Text.FieldsAreWords(text);
    ConcatHoldsLines(lines);
    forall i, j | 0 <= i < |lines| && 0 <= j < |lines[i]| ensures Text.IsWord(lines[i][j]) {
      assert lines[i][j] in words;
    }
    assert Pad(0) == "";
    LinesReadBack(out, lines, seq(|out|, i => if i == 0 then 0 else indent));
  }

  function FieldsOfAll(out: seq<string>): seq<string> {
    if |out| == 0 then [] else Text.Fields(out[0]) + FieldsOfAll(out[1..])
  }

  lemma {:induction false} PadIsNoWord(n: nat, s: string)
    ensures Text.Fields(Pad(n) + s) == Text.Fields(s)
  {
    hide Text.Fields;
    if n == 0 {
      assert Pad(0) + s == s;
    } else {
      PadIsNoWord(n - 1, s);
      var t := Pad(n - 1) + s;
      assert Pad(n) + s == " " + t;
      Text.LeadingSpace(t);
    }
  }

  lemma {:induction false} ConcatHoldsLines(lines: seq<seq<string>>)
    ensures forall i, j | 0 <= i < |lines| && 0 <= j < |lines[i]| :: lines[i][j] in Concat(lines)
  {
    if |lines| > 0 {
      ConcatHoldsLines(lines[1..]);
      forall i, j | 0 <= i < |lines| && 0 <= j < |lines[i]| ensures lines[i][j] in Concat(lines) {
        if i > 0 {
          assert lines[1..][i - 1] == lines[i];
        }
      }
    }
  }

  lemma {:induction false} LinesReadBack(out: seq<string>, lines: seq<seq<string>>, pads: seq<nat>)
    requires |out| == |lines| == |pads|
    requires forall i | 0 <= i < |out| :: out[i] == Pad(pads[i]) + Text.Join(lines[i], ' ')
    requires forall i, j | 0 <= i < |lines| && 0 <= j < |lines[i]| :: Text.IsWord(lines[i][j])
    ensures FieldsOfAll(out) == Concat(lines)
  {
    hide Text.Fields;
    hide Text.IsWord;
    hide Pad;
    if |out| > 0 {
      PadIsNoWord(pads[0], Text.Join(lines[0], ' '));
      Text.JoinedReadBack(lines[0]);
      LinesReadBack(out[1..], lines[1..], pads[1..]);
    }
  }
}
