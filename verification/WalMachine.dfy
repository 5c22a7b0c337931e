/**
 The write-ahead log as a state machine over the file's bytes and the counters kept in memory, and its
 refinement of an abstract log: a list of entries and the next sequence number.
 */
module WalMachine {
  import opened Bytes
  import opened WalCodec
  import opened WalLog

  /** Size and entry caps; zero means unlimited. */
  datatype Config = Config(maxSizeBytes: nat, maxEntries: nat)

  /** File bytes, next sequence number, recorded file size, recorded entry count. */
  datatype Disk = Disk(file: seq<byte>, nextSequence: u64, sizeBytes: nat, entryCount: nat)

  datatype Op =
    | Append(kind: byte, action: seq<byte>, payload: seq<byte>, now: i64)
    | Replay
    | Truncate(keep: u64)
    | TruncateAll
    | Reopen

  datatype Outcome =
    | Appended(sequence: u64)
    | Replayed(entries: seq<Entry>)
    | Opened(next: u64)
    | Done
    | Refused(error: Error)

  // ---------- steps over bytes ----------

  function FileHeader(): (r: seq<byte>)
    ensures |r| == 16
  {
    LE(FILE_MAGIC, 4) + LE(SCHEMA_VERSION, 4) + LE(0, 8)
  }

  function Fresh(): Disk {
    Disk(FileHeader(), 1, FILE_HEADER_SIZE, 0)
  }

  /** The bytes behind the file header. */
  function Body(file: seq<byte>): seq<byte> {
    if |file| <= 16 then [] else file[16..]
  }

  predicate OverCaps(cfg: Config, entryCount: nat, sizeBytes: nat, action: seq<byte>, payload: seq<byte>) {
    || (cfg.maxEntries > 0 && entryCount >= cfg.maxEntries)
    || (cfg.maxSizeBytes > 0 && sizeBytes + ENTRY_HEADER_SIZE + |action| + |payload| > cfg.maxSizeBytes)
  }

  function AppendStep(cfg: Config, d: Disk, op: Op): (Disk, Outcome)
    requires op.Append?
  {
    if OverCaps(cfg, d.entryCount, d.sizeBytes, op.action, op.payload) then (d, Refused(DiskFull))
    else
      var bytes := Encode(Entry(d.nextSequence, op.now, op.kind, op.action, op.payload));
      (Disk(d.file + bytes, (d.nextSequence + 1) % U64, d.sizeBytes + |bytes|, d.entryCount + 1),
       Appended(d.nextSequence))
  }

  function ReplayStep(d: Disk): (Disk, Outcome) {
    match Read(Body(d.file))
    case Delivery(entries, Clean) => (d.(entryCount := |entries|), Replayed(entries))
    case Delivery(_, Failed(error)) => (d, Refused(error))
  }

  function Kept(entries: seq<Entry>, keep: u64): seq<Entry> {
    if entries == [] then []
    else (if entries[0].sequence >= keep then [entries[0]] else []) + Kept(entries[1..], keep)
  }

  /** What truncating a file to the size of its header leaves: a shorter file is filled up with zeros. */
  function HeaderPart(file: seq<byte>): (r: seq<byte>)
    ensures |r| == FILE_HEADER_SIZE
  {
    if |file| >= FILE_HEADER_SIZE then file[..FILE_HEADER_SIZE] else file + seq(FILE_HEADER_SIZE - |file|, _ => 0)
  }

  function TruncateStep(d: Disk, keep: u64): (Disk, Outcome) {
    match Read(Body(d.file))
    case Delivery(_, Failed(error)) => (d, Refused(error))
    case Delivery(entries, Clean) =>
      var file := HeaderPart(d.file) + EncodeAll(Kept(entries, keep));
      (Disk(file, d.nextSequence, |file|, |Kept(entries, keep)|), Done)
  }

  function TruncateAllStep(d: Disk): (Disk, Outcome) {
    (Disk(HeaderPart(d.file), d.nextSequence, FILE_HEADER_SIZE, 0), Done)
  }

  /** The sequence number after the highest one, never 0. */
  function NextAfter(max: u64): u64 {
    var next := (max + 1) % U64;
    if next == 0 then 1 else next
  }

  /** Opening an existing file; one shorter than its header is given sequence number 1 and nothing else. */
  function ReopenStep(d: Disk): (Disk, Outcome) {
    if |d.file| < FILE_HEADER_SIZE then (d.(nextSequence := 1), Opened(1))
    else if FromLE(d.file[0..4]) != FILE_MAGIC || FromLE(d.file[4..8]) != SCHEMA_VERSION then
      (d, Refused(VersionMismatch))
    else
      var s := ScanBytes(Body(d.file));
      (Disk(d.file, NextAfter(s.maxSequence), |d.file|, s.count), Opened(NextAfter(s.maxSequence)))
  }

  function Step(cfg: Config, d: Disk, op: Op): (Disk, Outcome) {
    match op
    case Append(_, _, _, _) => AppendStep(cfg, d, op)
    case Replay => ReplayStep(d)
    case Truncate(keep) => TruncateStep(d, keep)
    case TruncateAll => TruncateAllStep(d)
    case Reopen => ReopenStep(d)
  }

  /** A new file: magic number and schema version, little-endian, and a zero number. */
  lemma FileHeaderBytes()
    ensures FileHeader() == [0xD5, 0x00, 0x1F, 0xDA, 1, 0, 0, 0, 0, 0, 0, 0, 0, 0, 0, 0]
  {
    MagicBytes();
    assert LE(0, 8) == [0, 0, 0, 0, 0, 0, 0, 0];
  }

  /**
   Which files are opened: those shorter than a header, as new ones, and those that begin with the magic number and
   the schema version; any other file is refused, and nothing changes.
   */
  lemma ReopenVerdict(d: Disk)
    ensures var (after, outcome) := ReopenStep(d);
            if |d.file| < 16 then after == d.(nextSequence := 1) && outcome == Opened(1)
            else if d.file[..8] == [0xD5, 0x00, 0x1F, 0xDA, 1, 0, 0, 0] then
              outcome == Opened(after.nextSequence) && after.file == d.file && after.sizeBytes == |d.file|
            else outcome == Refused(VersionMismatch) && after == d
  {
    hide ScanBytes, NextAfter, FromLE;
    if |d.file| >= 16 {
      MagicIff(d.file);
    }
  }

  // ---------- the abstract log ----------

  datatype Log = Log(entries: seq<Entry>, next: u64)

  function LogSize(entries: seq<Entry>): nat {
    if entries == [] then FILE_HEADER_SIZE else EntrySize(entries[0]) + LogSize(entries[1..])
  }

  /** Each cap is off or leaves room for one more entry with these parts. */
  predicate HasRoom(cfg: Config, log: Log, action: seq<byte>, payload: seq<byte>) {
    && (cfg.maxEntries == 0 || |log.entries| < cfg.maxEntries)
    && (cfg.maxSizeBytes == 0 || LogSize(log.entries) + 40 + |action| + |payload| <= cfg.maxSizeBytes)
  }

  function AbstractStep(cfg: Config, log: Log, op: Op): (Log, Outcome) {
    match op
    case Append(kind, action, payload, now) =>
      if !HasRoom(cfg, log, action, payload) then (log, Refused(DiskFull))
      else
        var e := Clip(Entry(log.next, now, kind, action, payload));
        (Log(log.entries + [e], (log.next + 1) % U64), Appended(log.next))
    case Replay => (log, Replayed(log.entries))
    case Truncate(keep) => (Log(Kept(log.entries, keep), log.next), Done)
    case TruncateAll => (Log([], log.next), Done)
    case Reopen => (Log(log.entries, NextAfter(MaxSequence(log.entries))), Opened(NextAfter(MaxSequence(log.entries))))
  }

  /** The bytes and counters of d represent the abstract log. */
  ghost predicate Represents(d: Disk, log: Log) {
    && d.file == FileHeader() + EncodeAll(log.entries)
    && AllStorable(log.entries)
    && d.nextSequence == log.next
    && d.sizeBytes == |d.file|
    && d.entryCount == |log.entries|
  }

  lemma {:induction false} LogSizeIsFileSize(entries: seq<Entry>)
    requires AllStorable(entries)
    ensures LogSize(entries) == 16 + |EncodeAll(entries)|
  {
    if entries != [] {
      ClipOfStorable(entries[0]);
      LogSizeIsFileSize(entries[1..]);
    }
  }

  lemma {:induction false} KeptIsStorable(entries: seq<Entry>, keep: u64)
    requires AllStorable(entries)
    ensures AllStorable(Kept(entries, keep))
  {
    if entries != [] {
      KeptIsStorable(entries[1..], keep);
    }
  }

  lemma BodyOfLog(entries: seq<Entry>)
    requires AllStorable(entries)
    ensures var file := FileHeader() + EncodeAll(entries);
            && Body(file) == EncodeAll(entries) && file[..16] == FileHeader()
            && Read(Body(file)) == Delivery(entries, Clean)
            && ScanBytes(Body(file)) == Scan(MaxSequence(entries), |entries|)
            && FromLE(file[0..4]) == FILE_MAGIC && FromLE(file[4..8]) == SCHEMA_VERSION
  {
    hide Encode, Read, ScanBytes, EncodeAll;
    BodyBehindHeader(EncodeAll(entries));
    RewriteReads(entries);
    ScanWritten(entries, []);
    EmptyScan();
    assert EncodeAll(entries) + [] == EncodeAll(entries);
  }

  lemma BodyBehindHeader(body: seq<byte>)
    ensures var file := FileHeader() + body;
            && Body(file) == body && file[..16] == FileHeader()
            && FromLE(file[0..4]) == FILE_MAGIC && FromLE(file[4..8]) == SCHEMA_VERSION
  {
    var magic, schema, file := LE(FILE_MAGIC, 4), LE(SCHEMA_VERSION, 4), FileHeader() + body;
    LE4(FILE_MAGIC);
    LE4(SCHEMA_VERSION);
    hide LE, FromLE;
    assert file[0..4] == magic && file[4..8] == schema;
  }

  lemma EmptyScan()
    ensures ScanBytes([]) == Scan(0, 0)
  {
  }

  lemma AppendRefines(cfg: Config, d: Disk, log: Log, op: Op)
    requires Represents(d, log) && op.Append?
    ensures Represents(AppendStep(cfg, d, op).0, AbstractStep(cfg, log, op).0)
    ensures AppendStep(cfg, d, op).1 == AbstractStep(cfg, log, op).1
  {
    hide Encode, EncodeAll, Clip, LogSize, FileHeader;
    LogSizeIsFileSize(log.entries);
    var e := Entry(log.next, op.now, op.kind, op.action, op.payload);
    ClipIsIdempotent(e);
    AppendedEncoding(log.entries, Clip(e));
    assert d.file + Encode(e) == FileHeader() + (EncodeAll(log.entries) + Encode(e));
  }

  /**
   One step of the byte-level log is one step of the abstract log, with the same result; in particular a replay
   returns the abstract entries unchanged and a truncation keeps exactly the entries numbered keep or higher.
   */
  lemma StepRefines(cfg: Config, d: Disk, log: Log, op: Op)
    requires Represents(d, log)
    ensures Represents(Step(cfg, d, op).0, AbstractStep(cfg, log, op).0)
    ensures Step(cfg, d, op).1 == AbstractStep(cfg, log, op).1
  {
    hide Encode, EncodeAll, HeaderBody, Clip, Read, ScanBytes, FileHeader;
    BodyOfLog(log.entries);
    match op
    case Append(_, _, _, _) => AppendRefines(cfg, d, log, op);
    case Truncate(keep) => KeptIsStorable(log.entries, keep);
    case TruncateAll => assert EncodeAll([]) == [] by { EmptyEncoding(); }
    case _ =>
  }

  lemma EmptyEncoding()
    ensures EncodeAll([]) == []
  {
  }

  /** Kept is the order-preserving selection of the entries numbered keep or higher. */
  lemma {:induction false} KeptConcat(a: seq<Entry>, b: seq<Entry>, keep: u64)
    ensures Kept(a + b, keep) == Kept(a, keep) + Kept(b, keep)
  {
    if a == [] {
      assert a + b == b;
      assert [] + Kept(b, keep) == Kept(b, keep);
    } else {
      assert (a + b)[0] == a[0] && (a + b)[1..] == a[1..] + b;
      KeptFirst(a, keep);
      KeptFirst(a + b, keep);
      KeptConcat(a[1..], b, keep);
      hide Kept;
      Reassociate(if a[0].sequence >= keep then [a[0]] else [], Kept(a[1..], keep), Kept(b, keep));
    }
  }

  lemma KeptFirst(entries: seq<Entry>, keep: u64)
    requires entries != []
    ensures Kept(entries, keep)
         == (if entries[0].sequence >= keep then [entries[0]] else []) + Kept(entries[1..], keep)
  {
  }

  lemma Reassociate(a: seq<Entry>, b: seq<Entry>, c: seq<Entry>)
    ensures a + (b + c) == (a + b) + c
  {
  }

  lemma {:induction false} KeptMembers(entries: seq<Entry>, keep: u64, e: Entry)
    ensures e in Kept(entries, keep) <==> e in entries && e.sequence >= keep
  {
    if entries != [] {
      KeptMembers(entries[1..], keep, e);
      assert entries == [entries[0]] + entries[1..];
    }
  }

  // ---------- whole runs ----------

  function Run(cfg: Config, d: Disk, ops: seq<Op>): Disk
    decreases ops
  {
    if ops == [] then d else Run(cfg, Step(cfg, d, ops[0]).0, ops[1..])
  }

  function AbstractRun(cfg: Config, log: Log, ops: seq<Op>): Log
    decreases ops
  {
    if ops == [] then log else AbstractRun(cfg, AbstractStep(cfg, log, ops[0]).0, ops[1..])
  }

  /** Over any run from a new file, the file is the header followed by the encodings of the abstract log. */
  lemma {:induction false} RunRefines(cfg: Config, d: Disk, log: Log, ops: seq<Op>)
    requires Represents(d, log)
    ensures Represents(Run(cfg, d, ops), AbstractRun(cfg, log, ops))
    decreases ops
  {
    hide Step, AbstractStep, EncodeAll, FileHeader;
    if ops != [] {
      StepRefines(cfg, d, log, ops[0]);
      RunRefines(cfg, Step(cfg, d, ops[0]).0, AbstractStep(cfg, log, ops[0]).0, ops[1..]);
    }
  }

  // ---------- numbering ----------

  /** A non-empty log has consecutive sequence numbers that end just below the next one. */
  predicate Numbered(log: Log) {
    && 1 <= log.next
    && forall i | 0 <= i < |log.entries| :: log.entries[i].sequence == log.next - (|log.entries| - i) >= 1
  }

  lemma {:induction false} KeptOfNumbered(entries: seq<Entry>, next: u64, keep: u64)
    requires Numbered(Log(entries, next))
    ensures Numbered(Log(Kept(entries, keep), next))
    ensures entries != [] && entries[0].sequence >= keep ==> Kept(entries, keep) == entries
  {
    if entries != [] {
      assert forall i | 0 <= i < |entries[1..]| :: entries[1..][i] == entries[i + 1];
      KeptOfNumbered(entries[1..], next, keep);
      if entries[0].sequence >= keep {
        assert Kept(entries, keep) == entries by {
          if |entries| > 1 {
            assert entries[1].sequence >= keep;
          }
          assert [entries[0]] + entries[1..] == entries;
        }
      }
    }
  }

  lemma {:induction false} MaxOfNumbered(entries: seq<Entry>, next: u64)
    requires Numbered(Log(entries, next)) && entries != []
    ensures MaxSequence(entries) == next - 1
  {
    if |entries| > 1 {
      MaxOfNumbered(entries[1..], next);
    } else {
      assert MaxSequence(entries[1..]) == 0;
    }
  }

  /** The call would append an entry with the last sequence number there is. */
  predicate UsesLastNumber(cfg: Config, log: Log, op: Op) {
    op.Append? && HasRoom(cfg, log, op.action, op.payload) && log.next == U64 - 1
  }

  /** A step keeps the numbering unless it uses up sequence number 2^64 - 1. */
  lemma StepKeepsNumbering(cfg: Config, log: Log, op: Op)
    requires Numbered(log)
    ensures Numbered(AbstractStep(cfg, log, op).0) <==> !UsesLastNumber(cfg, log, op)
  {
    hide Clip, HasRoom, LogSize;
    match op
    case Append(_, _, _, _) =>
    case Truncate(keep) => KeptOfNumbered(log.entries, log.next, keep);
    case Reopen =>
      if log.entries != [] {
        MaxOfNumbered(log.entries, log.next);
      }
    case _ =>
  }

  ghost predicate NumberedThroughout(cfg: Config, log: Log, ops: seq<Op>)
    decreases ops
  {
    Numbered(log) && (ops != [] ==> NumberedThroughout(cfg, AbstractStep(cfg, log, ops[0]).0, ops[1..]))
  }

  ghost predicate UsesLastNumberIn(cfg: Config, log: Log, ops: seq<Op>)
    decreases ops
  {
    ops != [] && (UsesLastNumber(cfg, log, ops[0]) || UsesLastNumberIn(cfg, AbstractStep(cfg, log, ops[0]).0, ops[1..]))
  }

  /** A numbered log stays numbered throughout a run exactly when no append in it uses up number 2^64 - 1. */
  lemma {:induction false} RunKeepsNumberingIff(cfg: Config, log: Log, ops: seq<Op>)
    requires Numbered(log)
    ensures NumberedThroughout(cfg, log, ops) <==> !UsesLastNumberIn(cfg, log, ops)
    ensures NumberedThroughout(cfg, log, ops) ==> Numbered(AbstractRun(cfg, log, ops))
    decreases ops
  {
    if ops != [] {
      StepKeepsNumbering(cfg, log, ops[0]);
      hide Numbered, UsesLastNumber, AbstractStep;
      var after := AbstractStep(cfg, log, ops[0]).0;
      if Numbered(after) {
        RunKeepsNumberingIff(cfg, after, ops[1..]);
      }
    }
  }

  /** It takes 2^64 - next steps at least to get there, since reopening never raises the next number. */
  lemma {:induction false} RunKeepsNumbering(cfg: Config, log: Log, ops: seq<Op>)
    requires Numbered(log) && log.next + |ops| < U64
    ensures !UsesLastNumberIn(cfg, log, ops) && Numbered(AbstractRun(cfg, log, ops))
    decreases ops
  {
    if ops != [] {
      var after := AbstractStep(cfg, log, ops[0]).0;
      StepKeepsNumbering(cfg, log, ops[0]);
      assert after.next <= log.next + 1 by {
        if ops[0].Reopen? && log.entries != [] {
          MaxOfNumbered(log.entries, log.next);
        }
      }
      RunKeepsNumbering(cfg, after, ops[1..]);
    }
  }

  // ---------- caps ----------

  /**
   An append is accepted, under the next number, exactly when each cap is 0 or not exceeded by the new entry count or
   by the file size with the new entry; otherwise it is refused as a full disk and changes nothing.
   */
  lemma AppendAcceptedIff(cfg: Config, d: Disk, log: Log, op: Op)
    requires Represents(d, log) && op.Append?
    ensures var (after, outcome) := Step(cfg, d, op);
            var room := && (cfg.maxEntries == 0 || |log.entries| + 1 <= cfg.maxEntries)
                        && (cfg.maxSizeBytes == 0
                            || |d.file| + 40 + |op.action| + |op.payload| <= cfg.maxSizeBytes);
            if room then outcome == Appended(d.nextSequence) && |after.file| > |d.file|
            else outcome == Refused(DiskFull) && after == d
  {
    hide EncodeAll, Encode, FileHeader;
  }

  /** Without caps every append of every run on any file is accepted. */
  lemma UncappedAppendsAccepted(d: Disk, ops: seq<Op>, i: nat)
    requires i < |ops| && ops[i].Append?
    ensures var cfg := Config(0, 0);
            var before := Run(cfg, d, ops[..i]);
            Step(cfg, before, ops[i]).1 == Appended(before.nextSequence)
  {
    hide Encode, Run;
  }

  /** The log respects the caps: the entry cap always, the size cap unless only the file header is left. */
  predicate WithinCaps(cfg: Config, log: Log) {
    && (cfg.maxEntries > 0 ==> |log.entries| <= cfg.maxEntries)
    && (cfg.maxSizeBytes > 0 && log.entries != [] ==> LogSize(log.entries) <= cfg.maxSizeBytes)
  }

  lemma {:induction false} KeptIsSmaller(entries: seq<Entry>, keep: u64)
    ensures |Kept(entries, keep)| <= |entries| && LogSize(Kept(entries, keep)) <= LogSize(entries)
  {
    if entries != [] {
      KeptIsSmaller(entries[1..], keep);
      var e, rest := entries[0], Kept(entries[1..], keep);
      if e.sequence >= keep {
        assert ([e] + rest)[1..] == rest;
      } else {
        assert [] + rest == rest;
      }
    }
  }

  lemma {:induction false} LogSizeOfAppend(entries: seq<Entry>, e: Entry)
    ensures LogSize(entries + [e]) == LogSize(entries) + EntrySize(e)
  {
    if entries != [] {
      assert (entries + [e])[1..] == entries[1..] + [e];
      LogSizeOfAppend(entries[1..], e);
    } else {
      assert [e][1..] == [];
      assert LogSize([e]) == EntrySize(e) + LogSize([]);
    }
  }

  lemma ClipIsSmaller(e: Entry)
    ensures EntrySize(Clip(e)) <= ENTRY_HEADER_SIZE + |e.action| + |e.payload|
  {
  }

  /** No run of operations takes a new log beyond its caps. */
  lemma {:induction false} RunKeepsCaps(cfg: Config, log: Log, ops: seq<Op>)
    requires WithinCaps(cfg, log)
    ensures WithinCaps(cfg, AbstractRun(cfg, log, ops))
    decreases ops
  {
    if ops != [] {
      var op := ops[0];
      match op {
        case Append(kind, action, payload, now) =>
          var e := Entry(log.next, now, kind, action, payload);
          ClipIsSmaller(e);
          LogSizeOfAppend(log.entries, Clip(e));
        case Truncate(keep) => KeptIsSmaller(log.entries, keep);
        case _ =>
      }
      hide LogSize, Clip, Kept, MaxSequence, NextAfter;
      RunKeepsCaps(cfg, AbstractStep(cfg, log, op).0, ops[1..]);
    }
  }

  /** The whole-run guarantee for a new log: bytes, counters, replay and numbering. */
  lemma NewLogRuns(cfg: Config, ops: seq<Op>)
    requires |ops| < U64 - 1
    ensures var d, log := Run(cfg, Fresh(), ops), AbstractRun(cfg, Log([], 1), ops);
            && Represents(d, log) && Numbered(log) && WithinCaps(cfg, log)
            && Step(cfg, d, Replay).1 == Replayed(log.entries)
            && (log.entries != [] ==> Step(cfg, d, Reopen).0 == d)
            && (log.entries == [] ==> Step(cfg, d, Reopen).0 == d.(nextSequence := 1))
  {
    hide EncodeAll, Run, AbstractRun, Step;
    var log := AbstractRun(cfg, Log([], 1), ops);
    EmptyEncoding();
    assert Represents(Fresh(), Log([], 1));
    RunRefines(cfg, Fresh(), Log([], 1), ops);
    RunKeepsNumbering(cfg, Log([], 1), ops);
    RunKeepsCaps(cfg, Log([], 1), ops);
    var d := Run(cfg, Fresh(), ops);
    StepRefines(cfg, d, log, Replay);
    ReopenOfLog(cfg, d, log);
  }

  /** Reopening a numbered log changes nothing; an empty one starts again at 1. */
  lemma ReopenOfLog(cfg: Config, d: Disk, log: Log)
    requires Represents(d, log) && Numbered(log)
    ensures Step(cfg, d, Reopen).0 == d.(nextSequence := if log.entries == [] then 1 else log.next)
  {
    hide EncodeAll, ScanBytes, Read, FileHeader;
    BodyOfLog(log.entries);
    if log.entries != [] {
      MaxOfNumbered(log.entries, log.next);
    }
  }

  // ---------- files not written in one go ----------

  /**
   In any file at all: a replay only corrects the count, and a truncation that succeeds leaves exactly the kept
   entries of what a replay returned; if it keeps none, truncate_all does the same.
   */
  lemma TruncateOfAnyFile(cfg: Config, d: Disk, keep: u64)
    ensures var (before, (after, outcome)) := (Step(cfg, d, Replay).1, Step(cfg, d, Truncate(keep)));
            && (before.Replayed? <==> outcome.Done?)
            && (before.Replayed? ==> Step(cfg, d, Replay).0 == d.(entryCount := |before.entries|))
            && (!before.Replayed? ==> Step(cfg, d, Replay).0 == d)
            && (before.Replayed? ==> Step(cfg, after, Replay) == (after, Replayed(Kept(before.entries, keep))))
            && (!before.Replayed? ==> after == d && outcome == before)
            && after.nextSequence == d.nextSequence
            && (before.Replayed? && Kept(before.entries, keep) == [] ==> Step(cfg, d, TruncateAll) == (after, outcome))
            && (before.Replayed? ==>
                  |after.file| >= 16
                  && after.file[..16] == if |d.file| >= 16 then d.file[..16] else d.file + seq(16 - |d.file|, _ => 0))
  {
    hide Encode, EncodeAll, Read, ScanBytes;
    var r := Read(Body(d.file));
    ReadIsStorable(Body(d.file));
    if r.end.Clean? {
      var kept := Kept(r.entries, keep);
      KeptIsStorable(r.entries, keep);
      RewriteReads(kept);
      var file := HeaderPart(d.file) + EncodeAll(kept);
      assert Body(file) == EncodeAll(kept);
      EmptyEncoding();
      assert HeaderPart(d.file) + [] == HeaderPart(d.file);
    }
  }

  /** The log after its file was cut behind c bytes and opened again. */
  function ReopenedCut(cfg: Config, d: Disk, c: nat): Disk
    requires c <= |d.file|
  {
    Step(cfg, d.(file := d.file[..c]), Reopen).0
  }

  /** What a replay delivers, up to the first entry it cannot read. */
  function Delivered(d: Disk): Delivery {
    Read(Body(d.file))
  }

  /**
   Reopening a log file cut at any byte behind its header: a replay delivers exactly the whole entries, and ends
   cleanly only on an entry boundary; the counters count exactly the entries whose headers are whole.
   */
  lemma ReopenOfCut(cfg: Config, d: Disk, log: Log, c: nat)
    requires Represents(d, log) && 16 <= c <= |d.file|
    ensures var n, h := WholeEntries(log.entries, c - 16), WholeHeaders(log.entries, c - 16);
            && ReopenedCut(cfg, d, c) == Disk(d.file[..c], NextAfter(MaxSequence(log.entries[..h])), c, h)
            && Delivered(ReopenedCut(cfg, d, c)).entries == log.entries[..n]
            && Delivered(ReopenedCut(cfg, d, c)).end
               == (if c == 16 + Offset(log.entries, n) then Clean else Failed(TruncatedBuffer))
  {
    hide Encode, EncodeAll, Read, ScanBytes, FileHeader, Body, WholeEntries, WholeHeaders, Offset;
    var body := EncodeAll(log.entries)[..c - 16];
    assert d.file[..c] == FileHeader() + body;
    BodyBehindHeader(body);
    ReadOfCut(log.entries, c - 16);
    ScanOfCut(log.entries, c - 16);
  }

  /** Every entry still delivered is numbered below the next number. */
  ghost predicate NumbersOn(d: Disk) {
    forall e | e in Delivered(d).entries :: e.sequence < d.nextSequence
  }

  /**
   After any cut the reopened log numbers on above every entry it still delivers exactly when no whole header holds
   number 2^64 - 1, or all delivered entries are numbered 0.
   */
  lemma ReopenNumbersOnIff(cfg: Config, d: Disk, log: Log, c: nat)
    requires Represents(d, log) && 16 <= c <= |d.file|
    ensures NumbersOn(ReopenedCut(cfg, d, c)) <==>
            || MaxSequence(log.entries[..WholeHeaders(log.entries, c - 16)]) < U64 - 1
            || forall e | e in log.entries[..WholeEntries(log.entries, c - 16)] :: e.sequence == 0
  {
    ReopenOfCut(cfg, d, log, c);
    hide ReopenedCut, Delivered, Represents, WholeEntries, WholeHeaders, Offset;
    NextAfterIff(log.entries, WholeEntries(log.entries, c - 16), WholeHeaders(log.entries, c - 16));
  }

  lemma NextAfterIff(entries: seq<Entry>, n: nat, h: nat)
    requires n <= h <= |entries|
    ensures (forall e | e in entries[..n] :: e.sequence < NextAfter(MaxSequence(entries[..h]))) <==>
            || MaxSequence(entries[..h]) < U64 - 1
            || forall e | e in entries[..n] :: e.sequence == 0
  {
    MaxBounds(entries[..h]);
    assert entries[..n] == entries[..h][..n];
  }

  lemma {:induction false} MaxBounds(entries: seq<Entry>)
    ensures forall e | e in entries :: e.sequence <= MaxSequence(entries)
  {
    if entries != [] {
      MaxBounds(entries[1..]);
      assert entries == [entries[0]] + entries[1..];
    }
  }

  /** Cut anywhere, a numbered log is reopened with a next number above every entry it still delivers. */
  lemma ReopenOfCutNumbersOn(cfg: Config, d: Disk, log: Log, c: nat)
    requires Represents(d, log) && Numbered(log) && 16 <= c <= |d.file|
    ensures NumbersOn(ReopenedCut(cfg, d, c))
    ensures ReopenedCut(cfg, d, c).nextSequence <= log.next
  {
    hide ReopenedCut, Delivered, NumbersOn, Represents, Numbered;
    hide WholeEntries, WholeHeaders, Offset, NextAfter, MaxSequence;
    ReopenOfCut(cfg, d, log, c);
    ReopenNumbersOnIff(cfg, d, log, c);
    PrefixMaximum(log, WholeHeaders(log.entries, c - 16));
  }

  lemma PrefixMaximum(log: Log, h: nat)
    requires Numbered(log) && h <= |log.entries|
    ensures MaxSequence(log.entries[..h]) < U64 - 1 && NextAfter(MaxSequence(log.entries[..h])) <= log.next
  {
    PrefixNumbered(log, h);
    if h > 0 {
      MaxOfNumbered(log.entries[..h], log.next - (|log.entries| - h));
    } else {
      assert log.entries[..0] == [];
    }
  }

  lemma PrefixNumbered(log: Log, h: nat)
    requires Numbered(log) && h <= |log.entries|
    ensures log.next - (|log.entries| - h) >= 1
    ensures Numbered(Log(log.entries[..h], log.next - (|log.entries| - h)))
  {
    if |log.entries| > 0 {
      assert log.entries[0].sequence >= 1;
    }
  }
}
