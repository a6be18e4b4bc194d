/**
 The HMAC chain of the audit log, on parsed lines.

 HMAC-SHA-256 (section 2 of RFC 2104), hex and JSON are library calls in the
 program.  Here a digest is a term: `Mac(seed, prev, event)` is what the MAC
 of `event` after `prev` under `seed` yields, and `Junk` is any other byte
 string.  Two MACs are equal only when their inputs are, and no event can
 contain its own MAC, because a term is never a part of itself.
 */
module AuditChain {
  import opened Wrappers

  type Seed = nat

  /** Everything an event serialises except its reseal payload and its own chain value. */
  datatype Fields = Fields(
    ts: int,
    vaultId: string,
    vaultName: string,
    project: string,
    env: string,
    kind: string,
    entryName: string,
    bynPath: string,
    command: string,
    op: string,
    outcome: string,
    callerUid: nat,
    callerPid: int,
    callerComm: string,
    callerPComm: string,
    callerSurface: string,
    errorCode: string)

  datatype Event = Event(fields: Fields, reseal: Option<Marker>)

  /** An owner's acknowledgement of one discontinuity. */
  datatype Marker = Marker(
    brokenIndex: int,
    observedHead: Hex,
    expectedHead: Hex,
    reason: string,
    ackedBy: string)

  /** A chain value as text: empty, the hex of a digest, or text that is not hex. */
  datatype Hex = Empty | Head(digest: Digest) | Malformed(id: nat)

  datatype Digest = Mac(seed: Seed, prev: Option<Digest>, event: Event) | Junk(id: nat)

  /** A non-empty line of the log: an event with its recorded chain value, or text that does not parse. */
  datatype Line = Entry(event: Event, head: Hex) | Torn

  /** The bytes a chain value decodes to; nothing is fed to the MAC for the empty one. */
  function Bytes(h: Hex): Option<Digest>
    requires !h.Malformed?
  {
    match h
    case Empty => None
    case Head(d) => Some(d)
  }

  /** The chain value of a line; a torn line has none. */
  function RecordedHead(l: Line): Hex {
    match l
    case Entry(_, h) => h
    case Torn => Empty
  }

  predicate Readable(l: Line) {
    l.Entry? && !l.head.Malformed?
  }

  predicate AllReadable(lines: seq<Line>) {
    forall i | 0 <= i < |lines| :: Readable(lines[i])
  }

  /** What precedes line i in the chain: the recorded value of line i - 1, whatever that is. */
  function PrevAt(lines: seq<Line>, i: nat): Option<Digest>
    requires i <= |lines|
    requires i > 0 ==> Readable(lines[i - 1])
  {
    if i == 0 then None else Bytes(lines[i - 1].head)
  }

  /** The MAC line i must carry to continue the chain. */
  function ExpectedAt(seed: Seed, lines: seq<Line>, i: nat): Digest
    requires i < |lines| && lines[i].Entry?
    requires i > 0 ==> Readable(lines[i - 1])
  {
    Mac(seed, PrevAt(lines, i), lines[i].event)
  }

  /** Line i carries exactly the MAC it must. */
  predicate VerifiesAt(seed: Seed, lines: seq<Line>, i: nat)
    requires i < |lines| && lines[i].Entry?
    requires i > 0 ==> Readable(lines[i - 1])
  {
    lines[i].head == Head(ExpectedAt(seed, lines, i))
  }

  /** The markers of a log by the head they acknowledge; a later marker replaces an earlier one. */
  function Acks(lines: seq<Line>): map<Hex, Marker> {
    if |lines| == 0 then map[]
    else
      var earlier := Acks(lines[..|lines| - 1]);
      var last := lines[|lines| - 1];
      if last.Entry? && last.event.reseal.Some?
      then earlier[last.event.reseal.value.observedHead := last.event.reseal.value]
      else earlier
  }

  /** A marker acknowledges line i: it names the recorded value found there and the MAC expected there. */
  predicate Acknowledges(m: Marker, seed: Seed, lines: seq<Line>, i: nat)
    requires i < |lines| && lines[i].Entry?
    requires i > 0 ==> Readable(lines[i - 1])
  {
    m.observedHead == lines[i].head && m.expectedHead == Head(ExpectedAt(seed, lines, i))
  }

  predicate AckedAt(seed: Seed, acks: map<Hex, Marker>, lines: seq<Line>, i: nat)
    requires i < |lines| && lines[i].Entry?
    requires i > 0 ==> Readable(lines[i - 1])
  {
    lines[i].head in acks && acks[lines[i].head].expectedHead == Head(ExpectedAt(seed, lines, i))
  }

  /** The verifier steps over line i. */
  predicate PassesAt(seed: Seed, acks: map<Hex, Marker>, lines: seq<Line>, i: nat)
    requires i < |lines|
    requires i > 0 ==> Readable(lines[i - 1])
  {
    Readable(lines[i]) && (VerifiesAt(seed, lines, i) || AckedAt(seed, acks, lines, i))
  }

  datatype WalkError = NoError | TornLine | BadHex

  /** The outcome of one verification: where it stopped (or -1), and what it saw there. */
  datatype Walk = Walk(badIndex: int, total: nat, acked: nat, observed: Hex, expected: Hex, error: WalkError)

  /** The first line at or after `from` that the verifier does not step over; |lines| if there is none. */
  function StopIndex(seed: Seed, acks: map<Hex, Marker>, lines: seq<Line>, from: nat): (stop: nat)
    requires from <= |lines|
    requires from > 0 ==> Readable(lines[from - 1])
    ensures from <= stop <= |lines|
    ensures forall i | from <= i < stop :: Readable(lines[i])
    ensures forall i | from <= i < stop :: PassesAt(seed, acks, lines, i)
    ensures stop < |lines| ==> (stop > 0 ==> Readable(lines[stop - 1])) && !PassesAt(seed, acks, lines, stop)
    decreases |lines| - from
  {
    if from == |lines| || !PassesAt(seed, acks, lines, from) then from
    else StopIndex(seed, acks, lines, from + 1)
  }

  /** How many of the first n lines do not carry the MAC they must. */
  function BreaksBefore(seed: Seed, lines: seq<Line>, n: nat): nat
    requires n <= |lines|
    requires forall i | 0 <= i < n :: Readable(lines[i])
  {
    if n == 0 then 0
    else
      assert Readable(lines[n - 1]);
      BreaksBefore(seed, lines, n - 1) + (if VerifiesAt(seed, lines, n - 1) then 0 else 1)
  }

  /** What the verifier reports, said without its two passes. */
  function WalkOf(seed: Seed, lines: seq<Line>): Walk {
    var stop := StopIndex(seed, Acks(lines), lines, 0);
    var acked := BreaksBefore(seed, lines, stop);
    if stop == |lines| then Walk(-1, stop, acked, Empty, Empty, NoError)
    else if lines[stop].Torn? then Walk(stop, stop, acked, Empty, Empty, TornLine)
    else if lines[stop].head.Malformed? then Walk(stop, stop, acked, Empty, Empty, BadHex)
    else Walk(stop, stop, acked, lines[stop].head, Head(ExpectedAt(seed, lines, stop)), NoError)
  }

  /** Every line verifies on its own: the chain has no discontinuity at all. */
  ghost predicate Intact(seed: Seed, lines: seq<Line>) {
    && AllReadable(lines)
    && forall i {:trigger VerifiesAt(seed, lines, i)} | 0 <= i < |lines| :: VerifiesAt(seed, lines, i)
  }

  /** The verification loop: pass 1 collects the markers, pass 2 walks the chain. */
  method WalkChain(seed: Seed, lines: seq<Line>) returns (w: Walk)
    ensures w == WalkOf(seed, lines)
  {
    var acks: map<Hex, Marker> := map[];
    for i := 0 to |lines|
      invariant acks == Acks(lines[..i])
    {
      assert lines[..i + 1][..i] == lines[..i];
      if lines[i].Entry? && lines[i].event.reseal.Some? {
        acks := acks[lines[i].event.reseal.value.observedHead := lines[i].event.reseal.value];
      }
    }
    assert lines[..|lines|] == lines;

    var prev: Option<Digest> := None;
    var idx, acked := 0, 0;
    while idx < |lines|
      invariant 0 <= idx <= |lines|
      invariant forall i | 0 <= i < idx :: Readable(lines[i])
      invariant prev == PrevAt(lines, idx)
      invariant acked == BreaksBefore(seed, lines, idx)
      invariant StopIndex(seed, acks, lines, 0) == StopIndex(seed, acks, lines, idx)
    {
      var line := lines[idx];
      if line.Torn? {
        return Walk(idx, idx, acked, Empty, Empty, TornLine);
      }
      if line.head.Malformed? {
        return Walk(idx, idx, acked, Empty, Empty, BadHex);
      }
      var recorded := Bytes(line.head);
      var expected := Mac(seed, prev, line.event);
      if recorded != Some(expected) {
        if line.head in acks && acks[line.head].expectedHead == Head(expected) {
          acked := acked + 1;
          prev := recorded;
          idx := idx + 1;
          continue;
        }
        return Walk(idx, idx, acked, line.head, Head(expected), NoError);
      }
      prev := recorded;
      idx := idx + 1;
    }
    return Walk(-1, idx, acked, Empty, Empty, NoError);
  }
}
