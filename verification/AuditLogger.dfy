/**
 The logger itself: one process's handle on a vault's log.  The vault outlives
 the process; the logger's in-memory head does not.
 */
module AuditLogger {
  import opened Wrappers
  import opened AuditChain
  import opened AuditTamper
  import opened AuditReseal
  import opened AuditRuns
  import opened AuditFiles
  import opened AuditTail
  import opened AuditFileRuns

  datatype AuditError =
    | NoSeed
    | BadSeed
    | StoreUnread
    | DirUnread
    | EmptyIdentity
    | HeadMalformed
    | WriteFailed
    | StoreFailed
    | NoBreak
    | Unverifiable(error: WalkError, at: int)
    | Unreadable

  /** What the store holds for a seed: nothing, text that is no seed, or a seed. */
  datatype StoredSeed = Missing | Misshapen | Usable(seed: Seed)

  /** Which read fails at start-up, if one does: of the seed, of the stored head, or of the log's directory. */
  datatype ReadFault = NoneFails | SeedFails | HeadFails | DirFails

  /** What stays when the process goes: the audit directory and the metadata store. */
  class Vault {
    const seed: StoredSeed
    var dir: Dir
    var stored: Hex

    constructor (seed: StoredSeed)
      ensures dir == Dir([], map[]) && stored == Empty && this.seed == seed
    {
      this.seed := seed;
      dir := Dir([], map[]);
      stored := Empty;
    }

    /** The directory's file names, sorted in a new array. */
    method SortedFiles() returns (a: array<string>)
      ensures fresh(a) && a[..] == SortNames(dir.names)
    {
      var names := dir.names;
      a := new string[|names|](i requires 0 <= i < |names| => names[i]);
      assert a[..] == names;
      SortStrings(a);
    }

    /** The chain value of the last parseable line, newest file first, bottom line first. */
    method LastDiskHead(c: Codec) returns (head: Option<Hex>)
      ensures head == DiskHead(LogOf(c, dir))
    {
      hide Split;
      hide NonEmpty;
      hide DiskHead;
      hide ParseAll;
      hide SortNames;
      var sorted := SortedFiles();
      var files := sorted[..];
      var i := |files|;
      assert files[..i] == files;
      while i > 0
        invariant 0 <= i <= |files|
        invariant DiskHead(LogOf(c, dir)) == DiskHead(ParseAll(c, RawOf(dir, files[..i])))
      {
        i := i - 1;
        var lines := SplitLines(FileText(dir, files[i]));
        ghost var before := RawOf(dir, files[..i]);
        assert files[..i + 1] == files[..i] + [files[i]];
        RawOfOneMore(dir, files[..i], files[i]);
        var j := |lines|;
        assert lines[..j] == lines;
        while j > 0
          invariant 0 <= j <= |lines|
          invariant DiskHead(LogOf(c, dir)) == DiskHead(ParseAll(c, before + NonEmpty(lines[..j])))
        {
          j := j - 1;
          DiskHeadSkips(c, before, lines, j);
          if |lines[j]| == 0 {
            continue;
          }
          var parsed := c.parse(lines[j]);
          if parsed.Entry? && parsed.head != Empty {
            return Some(parsed.head);
          }
        }
        NothingAbove(before, lines);
      }
      NoFilesNoHead(c, dir, files);
      return None;
    }
  }

  lemma NothingAbove(before: seq<Text>, lines: seq<Text>)
    ensures before + NonEmpty(lines[..0]) == before
  {
  }

  lemma NoFilesNoHead(c: Codec, d: Dir, files: seq<string>)
    ensures DiskHead(ParseAll(c, RawOf(d, files[..0]))) == None
  {
  }

  lemma NonEmptyOneMore(lines: seq<Text>, j: nat)
    requires j < |lines|
    ensures NonEmpty(lines[..j + 1]) == NonEmpty(lines[..j]) + (if |lines[j]| > 0 then [lines[j]] else [])
  {
    assert lines[..j + 1] == lines[..j] + [lines[j]];
    NonEmptyConcat(lines[..j], [lines[j]]);
    assert NonEmpty([lines[j]]) == if |lines[j]| > 0 then [lines[j]] else [];
  }

  lemma DiskHeadOneMore(c: Codec, raw: seq<Text>, l: Text)
    ensures DiskHead(ParseAll(c, raw + [l])) ==
            if RecordedHead(c.parse(l)) != Empty then Some(RecordedHead(c.parse(l))) else DiskHead(ParseAll(c, raw))
  {
    assert ParseAll(c, raw + [l]) == ParseAll(c, raw) + [c.parse(l)];
    assert ParseAll(c, raw + [l])[..|raw|] == ParseAll(c, raw);
  }

  /** One line further up: its chain value if it has one, else what the lines above it give. */
  lemma DiskHeadSkips(c: Codec, before: seq<Text>, lines: seq<Text>, j: nat)
    requires j < |lines|
    ensures DiskHead(ParseAll(c, before + NonEmpty(lines[..j + 1]))) ==
            if |lines[j]| > 0 && RecordedHead(c.parse(lines[j])) != Empty then Some(RecordedHead(c.parse(lines[j])))
            else DiskHead(ParseAll(c, before + NonEmpty(lines[..j])))
  {
    NonEmptyOneMore(lines, j);
    if |lines[j]| > 0 {
      ConcatAssoc(before, NonEmpty(lines[..j]), [lines[j]]);
      DiskHeadOneMore(c, before + NonEmpty(lines[..j]), lines[j]);
    } else {
      assert NonEmpty(lines[..j]) + [] == NonEmpty(lines[..j]);
    }
  }

  class Logger {
    const vault: Vault
    const codec: Codec
    const seed: Seed
    const vaultId: string
    const vaultName: string
    var prevHex: Hex

    constructor (vault: Vault, codec: Codec, seed: Seed, vaultId: string, vaultName: string, head: Hex)
      ensures this.vault == vault && this.codec == codec && this.seed == seed
      ensures this.vaultId == vaultId && this.vaultName == vaultName && prevHex == head
    {
      this.vault := vault;
      this.codec := codec;
      this.seed := seed;
      this.vaultId := vaultId;
      this.vaultName := vaultName;
      prevHex := head;
    }

    /** What is on disk, in the store and in memory. */
    ghost function Held(): Files
      reads this, vault
    {
      Files(vault.dir, vault.stored, Some(prevHex))
    }

    /** The state the run model speaks about. */
    ghost function LogView(): State
      reads this, vault
    {
      View(codec, Held())
    }

    /** A write to this file lands at the end of the log, on a line of its own. */
    ghost predicate CanAppend(month: string)
      reads this, vault
    {
      Lawful(codec) && Ready(vault.dir, month)
    }

    function Stamp(e: Event, ts: int): Event {
      e.(fields := e.fields.(ts := ts, vaultId := vaultId, vaultName := vaultName))
    }

    /** Start-up: read the seed and the stored head, and let the log on disk correct the latter. */
    static method New(vault: Vault, codec: Codec, vaultId: string, vaultName: string, unread: ReadFault, storeWorks: bool)
      returns (r: Result<Logger, AuditError>)
      modifies vault`stored
      ensures r.Ok? <==>
                && vaultId != "" && vaultName != "" && vault.seed.Usable? && unread == NoneFails
                && Opening(codec, Files(vault.dir, old(vault.stored), None), storeWorks).logger.Some?
      ensures r.Ok? ==> fresh(r.value) && r.value.vault == vault && r.value.codec == codec
                        && Usable(r.value.seed) == vault.seed
                        && r.value.vaultId == vaultId && r.value.vaultName == vaultName
                        && r.value.Held() == Opening(codec, Files(vault.dir, old(vault.stored), None), storeWorks)
      ensures r.Err? ==> vault.stored == old(vault.stored)
    {
      if vaultId == "" || vaultName == "" {
        return Err(EmptyIdentity);
      }
      if unread == SeedFails {
        return Err(StoreUnread);
      }
      if vault.seed.Missing? {
        return Err(NoSeed);
      }
      if vault.seed.Misshapen? {
        return Err(BadSeed);
      }
      if unread == HeadFails {
        return Err(StoreUnread);
      }
      var head := vault.stored;
      if unread == DirFails {
        return Err(DirUnread);
      }
      var diskHead := vault.LastDiskHead(codec);
      if diskHead.Some? && diskHead.value != head {
        if !storeWorks {
          return Err(StoreFailed);
        }
        vault.stored := diskHead.value;
        head := diskHead.value;
      }
      var l := new Logger(vault, codec, vault.seed.seed, vaultId, vaultName, head);
      return Ok(l);
    }

    /**
     One append.  First, exactly what it does to the bytes on disk, the stored head
     and the head in memory, for every fault; then, when the file is ready to take
     a line, that this is the run model's append.
     */
    method Append(e: Event, ts: int, month: string, fault: Fault) returns (r: Result<Hex, AuditError>)
      modifies this`prevHex, vault`dir, vault`stored
      ensures var stamped := Event(e.fields.(ts := ts, vaultId := vaultId, vaultName := vaultName), e.reseal);
              var head := HeadAfter(seed, old(prevHex), stamped);
              var line := LineText(codec, stamped, head);
              if old(prevHex).Malformed? || fault == OpenFails then
                && r.Err? && vault.dir == old(vault.dir) && vault.stored == old(vault.stored) && prevHex == old(prevHex)
              else if fault == NoFault then
                && r == Ok(head) && vault.dir == WithAppended(old(vault.dir), month, line)
                && vault.stored == head && prevHex == head
              else
                && r.Err? && vault.stored == old(vault.stored) && prevHex == old(prevHex)
                && vault.dir == WithAppended(old(vault.dir), month,
                     if fault.ShortWrite? && fault.written < |line| then line[..fault.written] else line)
      ensures r == if old(prevHex).Malformed? then Err(HeadMalformed)
                   else if fault == NoFault then Ok(prevHex)
                   else if fault == StoreFails then Err(StoreFailed) else Err(WriteFailed)
      ensures Held() == After(codec, seed, old(Held()), Log(Stamp(e, ts), month, fault))
      ensures var length := |LineText(codec, Stamp(e, ts), HeadAfter(seed, old(prevHex), Stamp(e, ts)))|;
              old(CanAppend(month)) && AllOrNothing(fault, length) ==>
                && LogView() == Appended(seed, old(LogView()), old(prevHex), Stamp(e, ts), OutcomeOf(fault))
                && CanAppend(month)
    {
      hide LogOf;
      hide Ready;
      hide Lawful;
      hide WithAppended;
      hide Appended;
      hide LineText;
      hide OutcomeOf;
      hide Tearing;
      var stamped := Stamp(e, ts);
      if old(CanAppend(month)) && AllOrNothing(fault, |LineText(codec, stamped, HeadAfter(seed, prevHex, stamped))|) {
        WholeAfterIsNext(codec, seed, Held(), Log(stamped, month, fault));
      }
      if prevHex.Malformed? {
        return Err(HeadMalformed);
      }
      var head := Head(Mac(seed, Bytes(prevHex), stamped));
      var line := LineText(codec, stamped, head);
      if fault == OpenFails {
        return Err(WriteFailed);
      }
      if fault.ShortWrite? {
        vault.dir := WithAppended(vault.dir, month, if fault.written < |line| then line[..fault.written] else line);
        return Err(WriteFailed);
      }
      vault.dir := WithAppended(vault.dir, month, line);
      if fault == SyncFails {
        return Err(WriteFailed);
      }
      if fault == StoreFails {
        return Err(StoreFailed);
      }
      vault.stored := head;
      prevHex := head;
      return Ok(head);
    }

    /** Every non-empty line of the log, files in order. */
    method AuditLines() returns (out: seq<Text>)
      ensures out == RawLines(vault.dir)
    {
      var sorted := vault.SortedFiles();
      var files := sorted[..];
      out := [];
      assert files[..0] == [];
      for i := 0 to |files|
        invariant out == RawOf(vault.dir, files[..i])
      {
        var lines := SplitLines(FileText(vault.dir, files[i]));
        ghost var before := out;
        assert lines[..0] == [] && before + [] == before;
        for j := 0 to |lines|
          invariant out == before + NonEmpty(lines[..j])
        {
          NonEmptyOneMore(lines, j);
          if |lines[j]| > 0 {
            ConcatAssoc(before, NonEmpty(lines[..j]), [lines[j]]);
            out := out + [lines[j]];
          }
        }
        assert lines[..|lines|] == lines;
        RawOfOneMore(vault.dir, files[..i], files[i]);
        assert files[..i + 1] == files[..i] + [files[i]];
      }
      assert files[..|files|] == files;
    }

    /** Verification of the whole log. */
    method VerifyChain() returns (w: Walk)
      ensures w == WalkOf(seed, LogOf(codec, vault.dir))
    {
      var raw := AuditLines();
      w := WalkChain(seed, ParseAll(codec, raw));
    }

    /**
     Acknowledge the first break by appending a signed marker; never rewrite a line.  First,
     what is answered, and that a success is the event of the line now at the end; then what it
     does, for every fault; then that this is the run model's reseal.
     */
    method Reseal(reason: string, ackedBy: string, ts: int, month: string, fault: Fault) returns (res: Result<Event, AuditError>)
      modifies this`prevHex, vault`dir, vault`stored
      ensures var w := WalkOf(seed, LogOf(codec, old(vault.dir)));
              && (w.error != NoError ==> res == Err(Unverifiable(w.error, w.badIndex)))
              && (w.error == NoError && w.badIndex < 0 ==> res == Err(NoBreak))
              && (w.error != NoError || w.badIndex < 0 ==>
                    vault.dir == old(vault.dir) && vault.stored == old(vault.stored) && prevHex == old(prevHex))
              && (w.error == NoError && w.badIndex >= 0 ==>
                    if old(prevHex).Malformed? then res == Err(HeadMalformed)
                    else if fault == NoFault then
                      && res == Ok(Event(Fields(ts, vaultId, vaultName, "", "", "", "", "", "", "audit.reseal", "ok", 0, 0, "", "", "", ""),
                                         Some(Marker(w.badIndex, w.observed, w.expected, reason, ackedBy))))
                      && prevHex == vault.stored == Head(Mac(seed, Bytes(old(prevHex)), res.value))
                      && vault.dir == WithAppended(old(vault.dir), month, LineText(codec, res.value, prevHex))
                    else res == Err(if fault == StoreFails then StoreFailed else WriteFailed))
      ensures Held() == After(codec, seed, old(Held()), Acknowledge(ResealRequest(reason, ackedBy, ts), month, fault))
      ensures var call := Acknowledge(ResealRequest(reason, ackedBy, ts), month, fault);
              old(CanAppend(month)) && WholeLine(codec, seed, old(Held()), call) ==>
                && LogView() == Next(seed, old(LogView()), StepOf(call))
                && CanAppend(month)
    {
      hide LogOf;
      hide Ready;
      hide Lawful;
      hide WalkOf;
      hide After;
      hide Appended;
      hide LineText;
      hide WithAppended;
      hide Next;
      hide StepOf;
      hide WholeLine;
      ghost var call := Acknowledge(ResealRequest(reason, ackedBy, ts), month, fault);
      AcknowledgingIsLogging(codec, seed, Held(), call);
      if old(CanAppend(month)) && WholeLine(codec, seed, Held(), call) {
        WholeAfterIsNext(codec, seed, Held(), call);
      }
      var w := VerifyChain();
      if w.error != NoError {
        return Err(Unverifiable(w.error, w.badIndex));
      }
      if w.badIndex < 0 {
        return Err(NoBreak);
      }
      var marker := Marker(w.badIndex, w.observed, w.expected, reason, ackedBy);
      var e := Event(Fields(0, "", "", "", "", "", "", "", "", "audit.reseal", "ok", 0, 0, "", "", "", ""), Some(marker));
      assert Stamp(e, ts) == ResealEvent(w, ResealRequest(reason, ackedBy, ts).fields, reason, ackedBy);
      var appended := Append(e, ts, month, fault);
      if appended.Err? {
        return Err(appended.error);
      }
      return Ok(Stamp(e, ts));
    }

    /** The reseal request a call makes: nothing but the stamp, the reason and the name. */
    function ResealRequest(reason: string, ackedBy: string, ts: int): Request {
      Request(Fields(ts, vaultId, vaultName, "", "", "", "", "", "", "", "", 0, 0, "", "", "", ""), reason, ackedBy)
    }

    /** The newest n events that match, each with its chain position. */
    method Tail(n: int, wanted: Event -> bool) returns (r: Result<seq<Rec>, AuditError>)
      ensures var all := ReadAll(codec, vault.dir);
              r == if all.None? then Err(Unreadable) else Ok(LastOf(Matching(all.value, wanted), n))
    {
      var files := vault.SortedFiles();
      var names := files[..];
      var all: seq<Rec> := [];
      var f := 0;
      while f < |names|
        invariant 0 <= f <= |names|
        invariant ReadAll(codec, vault.dir) == ReadFilesFrom(codec, vault.dir, names, f, all)
      {
        var lines := SplitLines(FileText(vault.dir, names[f]));
        var current := f == |names| - 1;
        ghost var start := ReadFrom(codec, lines, current, 0, all);
        var k := 0;
        while k < |lines|
          invariant 0 <= k <= |lines|
          invariant start == ReadFrom(codec, lines, current, k, all)
        {
          if |lines[k]| > 0 {
            match codec.parse(lines[k]) {
              case Torn =>
                if !(current && k == |lines| - 1) {
                  return Err(Unreadable);
                }
              case Entry(e, h) =>
                all := all + [Rec(|all|, e, h)];
            }
          }
          k := k + 1;
        }
        f := f + 1;
      }
      var kept: seq<Rec> := [];
      var i := 0;
      while i < |all|
        invariant 0 <= i <= |all|
        invariant kept == Matching(all[..i], wanted)
      {
        assert all[..i + 1][..i] == all[..i];
        if wanted(all[i].event) {
          kept := kept + [all[i]];
        }
        i := i + 1;
      }
      assert all[..i] == all;
      if n > 0 && |kept| > n {
        return Ok(kept[|kept| - n..]);
      }
      return Ok(kept);
    }
  }
}
