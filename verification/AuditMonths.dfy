/**
 The monthly files' names: four digits of the year, two of the month.  Sorting them by
 first difference sorts them by date, so the log reads oldest month first.
 */
module AuditMonths {
  import opened Wrappers
  import opened AuditChain
  import opened AuditFiles
  import opened AuditTail
  import opened AuditFileRuns
  import opened AuditRuns

  /** One name is not after another exactly when it is a beginning of it, or smaller where they first differ. */
  lemma {:induction false} StrLeByFirstDifference(a: string, b: string)
    ensures StrLe(a, b) <==> a <= b || exists k: nat :: k < |a| && k < |b| && a[..k] == b[..k] && a[k] < b[k]
  {
    if |a| > 0 && |b| > 0 && a[0] == b[0] {
      var s, t := a[1..], b[1..];
      StrLeByFirstDifference(s, t);
      assert a == [a[0]] + s && b == [b[0]] + t;
      if k: nat :| k < |s| && k < |t| && s[..k] == t[..k] && s[k] < t[k] {
        assert a[..k + 1] == [a[0]] + s[..k] && b[..k + 1] == [b[0]] + t[..k];
        assert a[k + 1] < b[k + 1];
      }
      if k: nat :| k < |a| && k < |b| && a[..k] == b[..k] && a[k] < b[k] {
        assert k > 0;
        assert s[..k - 1] == a[..k][1..] == b[..k][1..] == t[..k - 1];
        assert s[k - 1] < t[k - 1];
      }
    } else if |a| > 0 && |b| > 0 {
      forall k: nat | k < |a| && k < |b| && a[..k] == b[..k] ensures k == 0 {
        FirstAgrees(a, b, k);
      }
      assert a[..0] == b[..0];
    }
  }

  lemma FirstAgrees(a: string, b: string, k: nat)
    requires k < |a| && k < |b| && a[..k] == b[..k]
    ensures k > 0 ==> a[0] == b[0]
  {
    if k > 0 {
      assert a[0] == a[..k][0] && b[0] == b[..k][0];
    }
  }

  // ---- Names of months -------------------------------------------------------------------

  datatype Month = Month(year: nat, month: nat) {
    predicate Valid() {
      year < 10000 && 1 <= month <= 12
    }

    predicate NotAfter(other: Month) {
      year < other.year || (year == other.year && month <= other.month)
    }
  }

  function Digit(d: nat): (c: char)
    requires d < 10
    ensures c == "0123456789"[d]
  {
    ('0' as int + d) as char
  }

  function FileName(m: Month): string
    requires m.Valid()
  {
    [Digit(m.year / 1000), Digit(m.year / 100 % 10), Digit(m.year / 10 % 10), Digit(m.year % 10), '-',
     Digit(m.month / 10), Digit(m.month % 10)] + ".log"
  }

  lemma StrLeStep(c: char, s: string, d: char, t: string)
    ensures StrLe([c] + s, [d] + t) <==> c < d || (c == d && StrLe(s, t))
  {
    assert ([c] + s)[1..] == s && ([d] + t)[1..] == t;
  }

  function Digits(ds: seq<nat>, tail: string): string
    requires forall i | 0 <= i < |ds| :: ds[i] < 10
  {
    if |ds| == 0 then tail else [Digit(ds[0])] + Digits(ds[1..], tail)
  }

  /** The number the digits make, behind what is already read. */
  function Value(read: nat, ds: seq<nat>): nat
    decreases |ds|
  {
    if |ds| == 0 then read else Value(10 * read + ds[0], ds[1..])
  }

  lemma {:induction false} ValueBounds(read: nat, more: nat, ds: seq<nat>, es: seq<nat>)
    requires |ds| == |es| && (forall i | 0 <= i < |ds| :: ds[i] < 10 && es[i] < 10) && read < more
    ensures Value(read, ds) < Value(more, es)
    decreases |ds|
  {
    if |ds| > 0 {
      ValueBounds(10 * read + ds[0], 10 * more + es[0], ds[1..], es[1..]);
    }
  }

  /** As many digits each: the names compare as the numbers do, and only behind equal numbers as what follows. */
  lemma {:induction false} DigitsCompare(read: nat, ds: seq<nat>, s: string, es: seq<nat>, t: string)
    requires |ds| == |es| && forall i | 0 <= i < |ds| :: ds[i] < 10 && es[i] < 10
    ensures StrLe(Digits(ds, s), Digits(es, t)) <==>
            Value(read, ds) < Value(read, es) || (Value(read, ds) == Value(read, es) && StrLe(s, t))
    decreases |ds|
  {
    hide StrLe;
    if |ds| > 0 {
      var d, e := ds[0], es[0];
      StrLeStep(Digit(d), Digits(ds[1..], s), Digit(e), Digits(es[1..], t));
      if d == e {
        DigitsCompare(10 * read + d, ds[1..], s, es[1..], t);
      } else if d < e {
        ValueBounds(10 * read + d, 10 * read + e, ds[1..], es[1..]);
      } else {
        ValueBounds(10 * read + e, 10 * read + d, es[1..], ds[1..]);
      }
    }
  }

  lemma FourDigits(a: nat, b: nat, c: nat, d: nat, tail: string)
    requires a < 10 && b < 10 && c < 10 && d < 10
    ensures Value(0, [a, b, c, d]) == 1000 * a + 100 * b + 10 * c + d
    ensures Digits([a, b, c, d], tail) == [Digit(a), Digit(b), Digit(c), Digit(d)] + tail
  {
    hide Digit;
    assert [a, b, c, d][1..] == [b, c, d] && [b, c, d][1..] == [c, d];
    TwoDigits(10 * a + b, c, d, tail);
    assert Value(0, [a, b, c, d]) == Value(a, [b, c, d]) == Value(10 * a + b, [c, d]);
    assert Digits([b, c, d], tail) == [Digit(b)] + Digits([c, d], tail);
  }

  lemma TwoDigits(read: nat, c: nat, d: nat, tail: string)
    requires c < 10 && d < 10
    ensures Value(read, [c, d]) == 100 * read + 10 * c + d
    ensures Digits([c, d], tail) == [Digit(c), Digit(d)] + tail
  {
    assert [c, d][1..] == [d] && [d][1..] == [];
    assert Value(10 * read + c, [d]) == Value(10 * (10 * read + c) + d, []);
    assert Digits([d], tail) == [Digit(d)] + tail;
  }

  lemma YearSum(y: nat)
    requires y < 10000
    ensures 1000 * (y / 1000) + 100 * (y / 100 % 10) + 10 * (y / 10 % 10) + y % 10 == y
  {
    assert y / 10 / 10 == y / 100 && y / 100 / 10 == y / 1000;
  }

  /** The name is the year's digits, a dash and the month's digits. */
  lemma NameInDigits(m: Month) returns (ys: seq<nat>, ms: seq<nat>)
    requires m.Valid()
    ensures |ys| == 4 && |ms| == 2 && (forall i | 0 <= i < 4 :: ys[i] < 10) && (forall i | 0 <= i < 2 :: ms[i] < 10)
    ensures FileName(m) == Digits(ys, ['-'] + Digits(ms, ".log"))
    ensures Value(0, ys) == m.year && Value(0, ms) == m.month
  {
    hide Digits;
    hide Value;
    hide Digit;
    var a, b, c, d := m.year / 1000, m.year / 100 % 10, m.year / 10 % 10, m.year % 10;
    var e, f := m.month / 10, m.month % 10;
    ys, ms := [a, b, c, d], [e, f];
    YearSum(m.year);
    TwoDigits(0, e, f, ".log");
    var tail := ['-'] + Digits(ms, ".log");
    FourDigits(a, b, c, d, tail);
    assert [Digit(a), Digit(b), Digit(c), Digit(d)] + (['-'] + ([Digit(e), Digit(f)] + ".log"))
        == [Digit(a), Digit(b), Digit(c), Digit(d), '-', Digit(e), Digit(f)] + ".log";
  }

  /** The files of two months sort as the months do. */
  lemma NamesSortByDate(a: Month, b: Month)
    requires a.Valid() && b.Valid()
    ensures StrLe(FileName(a), FileName(b)) <==> a.NotAfter(b)
  {
    hide StrLe;
    hide Digits;
    hide Value;
    var ya, ma := NameInDigits(a);
    var yb, mb := NameInDigits(b);
    var s, t := Digits(ma, ".log"), Digits(mb, ".log");
    DigitsCompare(0, ya, ['-'] + s, yb, ['-'] + t);
    StrLeStep('-', s, '-', t);
    DigitsCompare(0, ma, ".log", mb, ".log");
    StrLeTotal(".log", ".log");
  }

  // ---- Dated writes --------------------------------------------------------------------------

  datatype Dated = Dated(month: Month, event: Event, head: Hex)

  function Named(ws: seq<Dated>): (r: seq<Write>)
    requires forall i | 0 <= i < |ws| :: ws[i].month.Valid()
    ensures |r| == |ws| && forall i | 0 <= i < |ws| :: r[i] == Write(FileName(ws[i].month), ws[i].event, ws[i].head)
  {
    seq(|ws|, i requires 0 <= i < |ws| => Write(FileName(ws[i].month), ws[i].event, ws[i].head))
  }

  /** From an empty directory, while the calendar goes forward, the log holds what was written in the order it was. */
  lemma DatedInOrder(c: Codec, ws: seq<Dated>)
    requires Lawful(c) && forall i | 0 <= i < |ws| :: ws[i].month.Valid() && ws[i].head.Head?
    requires forall i, j | 0 <= i < j < |ws| :: ws[i].month.NotAfter(ws[j].month)
    ensures var lines := LogOf(c, WrittenFrom(c, NO_FILES, Named(ws)));
            |lines| == |ws| && forall i | 0 <= i < |ws| :: lines[i] == Entry(ws[i].event, ws[i].head)
  {
    hide StrLe;
    hide FileName;
    hide WrittenFrom;
    hide LogOf;
    hide Ready;
    var named := Named(ws);
    forall i, j | 0 <= i < j < |named| ensures StrLe(named[i].month, named[j].month) {
      NamesSortByDate(ws[i].month, ws[j].month);
    }
    var last := if |ws| > 0 then named[|ws| - 1].month else "";
    forall i | 0 <= i < |named| ensures StrLe(named[i].month, last) {
      StrLeTotal(last, last);
    }
    WrittenInOrder(c, named, last);
  }

  /** Calls whose files are those of months that go forward satisfy what the runs over files ask for. */
  lemma CallsByDate(calls: seq<Call>, months: seq<Month>)
    requires |months| == |calls| && forall i | 0 <= i < |calls| :: months[i].Valid()
    requires forall i | 0 <= i < |calls| && Writes(calls[i]) :: calls[i].month == FileName(months[i])
    ensures MonthsForward(calls) <==>
            forall i, j | 0 <= i < j < |calls| && Writes(calls[i]) && Writes(calls[j]) :: months[i].NotAfter(months[j])
  {
    hide StrLe;
    hide FileName;
    forall i, j | 0 <= i < j < |calls| && Writes(calls[i]) && Writes(calls[j])
      ensures StrLe(calls[i].month, calls[j].month) <==> months[i].NotAfter(months[j])
    {
      NamesSortByDate(months[i], months[j]);
    }
  }

  /** The lines of two months' files, in whatever order the directory lists them: the earlier month's first. */
  lemma EarlierMonthFirst(a: Month, b: Month, files: map<string, Text>, names: seq<string>)
    requires a.Valid() && b.Valid() && a.NotAfter(b) && a != b
    requires names == [FileName(a), FileName(b)] || names == [FileName(b), FileName(a)]
    requires FileName(a) in files && FileName(b) in files
    ensures RawLines(Dir(names, files)) == NonEmpty(Split(files[FileName(a)])) + NonEmpty(Split(files[FileName(b)]))
  {
    hide StrLe;
    hide FileName;
    hide Split;
    hide NonEmpty;
    NamesSortByDate(a, b);
    NamesSortByDate(b, a);
    var d, x, y := Dir(names, files), FileName(a), FileName(b);
    SortTwo(names[0], names[1]);
    assert names == [names[0], names[1]];
    assert x != y by { StrLeTotal(x, y); }
    RawOfOneMore(d, [], x);
    RawOfOneMore(d, [x], y);
    assert [] + [x] == [x] && [x] + [y] == [x, y];
    assert RawOf(d, []) == [];
  }

  lemma SortTwo(x: string, y: string)
    ensures SortNames([x, y]) == if StrLe(x, y) then [x, y] else [y, x]
  {
    hide StrLe;
    assert [x, y][..1] == [x] && [x][..0] == [];
    assert SortNames([]) == [];
    assert SortNames([x]) == InsertName([], x) == [x];
    assert SortNames([x, y]) == InsertName([x], y);
    assert InsertName([], y) == [y];
  }
}
