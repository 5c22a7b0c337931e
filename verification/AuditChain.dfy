/**
 The audit log's hash chain over an abstract hash function: appending, recovery after a restart, verification,
 and what an accepted file proves about its contents.
 */
module AuditChain {
  import opened Bytes
  import opened Decimal
  import opened Strings
  import opened AuditFormat

  /** The hash is a parameter: any function from strings to strings. */
  type Hash = string -> string

  /** Hexadecimal digests hold no bar, no newline, and have one length. */
  ghost predicate IsDigest(sha: Hash) {
    forall s :: NoBar(sha(s)) && NoNewline(sha(s)) && |sha(s)| == 128
  }

  datatype Error = Internal | VersionMismatch
  datatype Result<+T> = Ok(value: T) | Err(error: Error)

  /** The text whose hash becomes the next event's previous hash. */
  function Link(prev: string, paramsHash: string, sequence: u64, action: Action): string {
    prev + "|" + (paramsHash + "|" + (Dec(sequence) + "|" + Dec(action)))
  }

  /** Previous hash, parameter hash, number and action, in this order, joined by bars. */
  lemma LinkText(prev: string, paramsHash: string, sequence: u64, action: Action)
    ensures Link(prev, paramsHash, sequence, action)
         == prev + "|" + paramsHash + "|" + Dec(sequence) + "|" + Dec(action)
  {
  }

  predicate IsGenesisLine(line: string) {
    |line| >= 8 && line[..8] == GENESIS
  }

  // ---------- reading a file ----------

  /** Verification of the lines behind the genesis line: the chain's last hash, or nothing if a check fails. */
  function VerifyLines(sha: Hash, lines: seq<string>, expected: string): Option<string> {
    if lines == [] then Some(expected)
    else if lines[0] == [] then VerifyLines(sha, lines[1..], expected)
    else match ParseLine(lines[0])
      case None => None
      case Some(e) =>
        if e.prevHash != expected || sha(e.json) != e.paramsHash then None
        else VerifyLines(sha, lines[1..], sha(Link(expected, e.paramsHash, e.sequence, e.action)))
  }

  function Verify(sha: Hash, file: Option<string>): Result<bool> {
    match file
    case None => Err(Internal)
    case Some(text) =>
      var lines := Lines(text);
      if lines == [] then Err(Internal)
      else if !IsGenesisLine(lines[0]) then Err(VersionMismatch)
      else Ok(VerifyLines(sha, lines[1..], lines[0][8..]).Some?)
  }

  /** Recovery reads as far as the chain is linked, without checking the parameter hashes. */
  function RecoverLines(sha: Hash, lines: seq<string>, sequence: u64, prev: string): (u64, string) {
    if lines == [] then (sequence, prev)
    else if lines[0] == [] then RecoverLines(sha, lines[1..], sequence, prev)
    else match ParseLine(lines[0])
      case None => (sequence, prev)
      case Some(e) =>
        if e.prevHash != prev then (sequence, prev)
        else RecoverLines(sha, lines[1..], e.sequence, sha(Link(prev, e.paramsHash, e.sequence, e.action)))
  }

  // ---------- the logger as a state machine ----------

  datatype Logger = Logger(file: Option<string>, sequence: u64, prevHash: string)

  function Text(file: Option<string>): string {
    if file.Some? then file.value else ""
  }

  /** Opening: recover from a file that starts with a genesis line, or else start a chain at its end. */
  function Open(sha: Hash, file: Option<string>, seed: string, writable: bool): Logger {
    var lines := Lines(Text(file));
    if lines != [] && IsGenesisLine(lines[0]) then
      var (sequence, prev) := RecoverLines(sha, lines[1..], 0, lines[0][8..]);
      Logger(file, sequence, prev)
    else
      var prev := sha(seed);
      Logger(if writable then Some(Text(file) + GENESIS + prev + "\n") else file, 0, prev)
  }

  /** The event an append writes. */
  function NextEvent(
    sha: Hash, l: Logger, action: Action, actor: string, target: string, json: string, now: i64): Event
  {
    Event((l.sequence + 1) % U64, action, actor, target, now, l.prevHash, sha(json), json)
  }

  function Append(sha: Hash, l: Logger, e: Event): Logger {
    Logger(Some(Text(l.file) + EventLine(e) + "\n"), e.sequence,
           sha(Link(l.prevHash, e.paramsHash, e.sequence, e.action)))
  }

  class AuditLogger {
    const sha: Hash
    var file: Option<string>
    var sequence: u64
    var prevHash: string

    ghost function View(): Logger
      reads this
    {
      Logger(file, sequence, prevHash)
    }

    /** One getline: the text up to the next newline or the end, unless nothing is left. */
    static method GetLine(text: string, pos: nat) returns (ok: bool, line: string, next: nat)
      requires pos <= |text|
      ensures next <= |text| && (ok ==> pos < next)
      ensures ok <==> Lines(text[pos..]) != []
      ensures ok ==> Lines(text[pos..]) == [line] + Lines(text[next..])
    {
      hide Lines, FindChar;
      LinesFrom(text, pos);
      if pos == |text| {
        return false, "", pos;
      }
      var p := FindChar(text[pos..], '\n');
      if p.None? {
        return true, text[pos..], |text|;
      }
      return true, text[pos..pos + p.value], pos + p.value + 1;
    }

    constructor (sha: Hash, file: Option<string>, seed: string, writable: bool)
      ensures this.sha == sha && View() == Open(sha, file, seed, writable)
    {
      this.sha := sha;
      this.file := file;
      sequence, prevHash := 0, "";
      new;
      var text := Text(file);
      assert text[0..] == text;
      var ok, line, pos := GetLine(text, 0);
      if ok && IsGenesisLine(line) {
        Recover(text, pos, line[8..]);
      } else {
        prevHash := sha(seed);
        if writable {
          this.file := Some(Text(file) + GENESIS + prevHash + "\n");
        }
      }
    }

    /** Follows the chain from a position on, as far as it is linked. */
    method Recover(text: string, start: nat, genesis: string)
      requires start <= |text|
      modifies this`sequence, this`prevHash
      ensures (sequence, prevHash) == RecoverLines(sha, Lines(text[start..]), old(sequence), genesis)
    {
      hide Lines, ParseLine, Link;
      var cur, pos := genesis, start;
      while true
        invariant pos <= |text|
        invariant RecoverLines(sha, Lines(text[start..]), old(sequence), genesis)
               == RecoverLines(sha, Lines(text[pos..]), sequence, cur)
        decreases |text| - pos
      {
        var ok, line, next := GetLine(text, pos);
        if !ok {
          break;
        }
        pos := next;
        if line == [] {
          continue;
        }
        var e := ParseEventLine(line);
        if e.None? {
          break;
        }
        if e.value.prevHash != cur {
          break;
        }
        sequence := e.value.sequence;
        cur := sha(Link(cur, e.value.paramsHash, e.value.sequence, e.value.action));
      }
      prevHash := cur;
    }

    /** Writes one event line and advances the chain; a file that does not open leaves everything as it was. */
    method AppendEvent(action: Action, actor: string, target: string, json: string, now: i64, opens: bool)
      returns (r: Result<u64>)
      modifies this
      ensures !opens ==> r == Err(Internal) && View() == old(View())
      ensures opens ==>
                var e := NextEvent(sha, old(View()), action, actor, target, json, now);
                r == Ok(e.sequence) && View() == Append(sha, old(View()), e)
    {
      if !opens {
        return Err(Internal);
      }
      sequence := (sequence + 1) % U64;
      var paramsHash := sha(json);
      var e := Event(sequence, action, actor, target, now, prevHash, paramsHash, json);
      prevHash := sha(Link(prevHash, paramsHash, sequence, action));
      file := Some(Text(file) + EventLine(e) + "\n");
      return Ok(sequence);
    }

    /** Reads the file from the start and recomputes every link and every parameter hash. */
    method VerifyChain() returns (r: Result<bool>)
      ensures r == Verify(sha, file)
    {
      if file.None? {
        return Err(Internal);
      }
      var text := file.value;
      assert text[0..] == text;
      var ok, line, pos := GetLine(text, 0);
      if !ok {
        return Err(Internal);
      }
      if !IsGenesisLine(line) {
        return Err(VersionMismatch);
      }
      var good := VerifyFrom(text, pos, line[8..]);
      return Ok(good);
    }

    method VerifyFrom(text: string, start: nat, genesis: string) returns (good: bool)
      requires start <= |text|
      ensures good == VerifyLines(sha, Lines(text[start..]), genesis).Some?
    {
      hide Lines, ParseLine, Link;
      var expected, pos := genesis, start;
      while true
        invariant pos <= |text|
        invariant VerifyLines(sha, Lines(text[start..]), genesis) == VerifyLines(sha, Lines(text[pos..]), expected)
        decreases |text| - pos
      {
        var ok, line, next := GetLine(text, pos);
        if !ok {
          return true;
        }
        pos := next;
        if line == [] {
          continue;
        }
        var e := ParseEventLine(line);
        if e.None? {
          return false;
        }
        if e.value.prevHash != expected {
          return false;
        }
        if sha(e.value.json) != e.value.paramsHash {
          return false;
        }
        expected := sha(Link(expected, e.value.paramsHash, e.value.sequence, e.value.action));
      }
    }
  }

  // ---------- chains of events ----------

  /** The hash behind the last of the events. */
  function ChainHash(sha: Hash, genesis: string, events: seq<Event>): string {
    if events == [] then genesis
    else
      var e := events[|events| - 1];
      sha(Link(ChainHash(sha, genesis, events[..|events| - 1]), e.paramsHash, e.sequence, e.action))
  }

  /** Every event carries the hash behind its predecessors and the hash of its parameters. */
  ghost predicate Chained(sha: Hash, genesis: string, events: seq<Event>) {
    forall i | 0 <= i < |events| ::
      events[i].prevHash == ChainHash(sha, genesis, events[..i]) && events[i].paramsHash == sha(events[i].json)
  }

  /** Events as a logger writes them: numbered from 1 (modulo 2^64) and clean. */
  ghost predicate Written(sha: Hash, genesis: string, events: seq<Event>) {
    && Chained(sha, genesis, events)
    && forall i | 0 <= i < |events| :: CleanAs(events[i], i + 1)
  }

  predicate CleanAs(e: Event, n: nat) {
    e.sequence == n % U64 && Clean(e)
  }

  /** Lines, each ended by a newline. */
  function TextOf(lines: seq<string>): string {
    if lines == [] then "" else lines[0] + "\n" + TextOf(lines[1..])
  }

  function EventLines(events: seq<Event>): seq<string> {
    if events == [] then [] else EventLines(events[..|events| - 1]) + [EventLine(events[|events| - 1])]
  }

  /** The file that holds a genesis line and the events. */
  function FileText(genesis: string, events: seq<Event>): string {
    TextOf([GENESIS + genesis] + EventLines(events))
  }

  lemma {:induction false} TextOfAppend(lines: seq<string>, line: string)
    ensures TextOf(lines + [line]) == TextOf(lines) + line + "\n"
  {
    if lines == [] {
      assert [] + [line] == [line] && [line][1..] == [];
      assert TextOf([line]) == line + "\n" + TextOf([]);
    } else {
      assert (lines + [line])[0] == lines[0] && (lines + [line])[1..] == lines[1..] + [line];
      TextOfAppend(lines[1..], line);
      assert lines[0] + "\n" + (TextOf(lines[1..]) + line + "\n") == TextOf(lines) + line + "\n";
    }
  }

  lemma {:induction false} LinesOfText(lines: seq<string>)
    requires forall line | line in lines :: NoNewline(line)
    ensures Lines(TextOf(lines)) == lines
  {
    if lines != [] {
      assert NoNewline(lines[0]) by {
        assert lines[0] in lines;
      }
      LinesOfText(lines[1..]);
      LinesOfLine(lines[0], TextOf(lines[1..]));
    }
  }

  lemma {:induction false} EventLinesAreLines(events: seq<Event>)
    requires forall e | e in events :: Clean(e)
    ensures forall line | line in EventLines(events) :: NoNewline(line)
  {
    hide EventLine;
    if events != [] {
      EventLinesAreLines(events[..|events| - 1]);
      EventLineHasNoNewline(events[|events| - 1]);
    }
  }

  lemma LinesOfFile(genesis: string, events: seq<Event>)
    requires NoNewline(genesis) && forall e | e in events :: Clean(e)
    ensures Lines(FileText(genesis, events)) == [GENESIS + genesis] + EventLines(events)
    ensures IsGenesisLine(GENESIS + genesis) && (GENESIS + genesis)[8..] == genesis
  {
    hide TextOf, EventLines, Lines;
    EventLinesAreLines(events);
    LinesOfText([GENESIS + genesis] + EventLines(events));
  }

  /** An event that continues a chain extends it. */
  lemma ChainedAppend(sha: Hash, genesis: string, events: seq<Event>, e: Event)
    requires Chained(sha, genesis, events)
    requires e.prevHash == ChainHash(sha, genesis, events) && e.paramsHash == sha(e.json)
    ensures Chained(sha, genesis, events + [e])
    ensures ChainHash(sha, genesis, events + [e]) == sha(Link(e.prevHash, e.paramsHash, e.sequence, e.action))
  {
    hide Link;
    var after, n := events + [e], |events|;
    assert after[..n] == events;
    forall i | 0 <= i < |after|
      ensures after[i].prevHash == ChainHash(sha, genesis, after[..i]) && after[i].paramsHash == sha(after[i].json)
    {
      if i < n {
        assert after[..i] == events[..i] && after[i] == events[i];
      }
    }
  }

  /** Verification and recovery of further lines go on from where those of the first lines ended. */
  lemma {:induction false} VerifyConcat(sha: Hash, a: seq<string>, b: seq<string>, expected: string)
    ensures VerifyLines(sha, a + b, expected)
         == match VerifyLines(sha, a, expected)
            case None => None
            case Some(h) => VerifyLines(sha, b, h)
  {
    hide ParseLine, Link;
    if a == [] {
      assert a + b == b;
    } else {
      assert (a + b)[0] == a[0] && (a + b)[1..] == a[1..] + b;
      if a[0] == [] {
        VerifyConcat(sha, a[1..], b, expected);
      } else if ParseLine(a[0]).Some? {
        var e := ParseLine(a[0]).value;
        VerifyConcat(sha, a[1..], b, sha(Link(expected, e.paramsHash, e.sequence, e.action)));
      }
    }
  }

  /** Recovery agrees with verification on every file that verifies. */
  lemma {:induction false} RecoverOfVerified(sha: Hash, a: seq<string>, b: seq<string>, sequence: u64, prev: string)
    requires VerifyLines(sha, a, prev).Some?
    ensures var h := VerifyLines(sha, a, prev).value;
            && RecoverLines(sha, a, sequence, prev).1 == h
            && RecoverLines(sha, a + b, sequence, prev)
               == RecoverLines(sha, b, RecoverLines(sha, a, sequence, prev).0, h)
  {
    hide ParseLine, Link;
    if a == [] {
      assert a + b == b;
    } else {
      assert (a + b)[0] == a[0] && (a + b)[1..] == a[1..] + b;
      if a[0] == [] {
        RecoverOfVerified(sha, a[1..], b, sequence, prev);
      } else {
        var e := ParseLine(a[0]).value;
        RecoverOfVerified(sha, a[1..], b, e.sequence, sha(Link(prev, e.paramsHash, e.sequence, e.action)));
      }
    }
  }

  lemma WrittenPrefix(sha: Hash, genesis: string, events: seq<Event>, n: nat)
    requires Written(sha, genesis, events) && n <= |events|
    ensures Written(sha, genesis, events[..n])
  {
    assert forall i | 0 <= i < n :: events[..n][..i] == events[..i];
  }

  /** One line of a chained event is accepted and leads to the next hash. */
  lemma OneLine(sha: Hash, e: Event, prev: string, sequence: u64)
    requires Clean(e) && e.prevHash == prev && e.paramsHash == sha(e.json)
    ensures var h := sha(Link(prev, e.paramsHash, e.sequence, e.action));
            && VerifyLines(sha, [EventLine(e)], prev) == Some(h)
            && RecoverLines(sha, [EventLine(e)], sequence, prev) == (e.sequence, h)
  {
    ParseOfEventLine(e);
    EventLineHasNoNewline(e);
    hide ParseLine, EventLine, Link;
    var h := sha(Link(prev, e.paramsHash, e.sequence, e.action));
    assert [EventLine(e)][1..] == [];
    assert VerifyLines(sha, [], h) == Some(h) && RecoverLines(sha, [], e.sequence, h) == (e.sequence, h);
  }

  /** Written events verify, lead to their chain hash, and are recovered with their number. */
  lemma {:induction false} WrittenVerify(sha: Hash, genesis: string, events: seq<Event>)
    requires Written(sha, genesis, events)
    ensures VerifyLines(sha, EventLines(events), genesis) == Some(ChainHash(sha, genesis, events))
    ensures RecoverLines(sha, EventLines(events), 0, genesis) == (|events| % U64, ChainHash(sha, genesis, events))
    decreases |events|
  {
    if events != [] {
      var init, e := events[..|events| - 1], events[|events| - 1];
      WrittenPrefix(sha, genesis, events, |events| - 1);
      WrittenVerify(sha, genesis, init);
      var prev := ChainHash(sha, genesis, init);
      VerifyConcat(sha, EventLines(init), [EventLine(e)], genesis);
      RecoverOfVerified(sha, EventLines(init), [EventLine(e)], 0, genesis);
      OneLine(sha, e, prev, |init| % U64);
      hide EventLine, Link, VerifyLines, RecoverLines;
    }
  }

  // ---------- runs with restarts ----------

  datatype Op = AppendOp(action: Action, actor: string, target: string, json: string, now: i64) | Restart

  /** What the format asks of a caller's texts. */
  predicate Acceptable(op: Op) {
    op.AppendOp? ==>
      NoBar(op.actor) && NoBar(op.target) && NoNewline(op.actor) && NoNewline(op.target) && NoNewline(op.json)
  }

  function Step(sha: Hash, l: Logger, op: Op): Logger {
    match op
    case AppendOp(action, actor, target, json, now) =>
      Append(sha, l, NextEvent(sha, l, action, actor, target, json, now))
    case Restart => Open(sha, l.file, "", true)
  }

  function Run(sha: Hash, seed: string, ops: seq<Op>): Logger {
    if ops == [] then Open(sha, None, seed, true)
    else Step(sha, Run(sha, seed, ops[..|ops| - 1]), ops[|ops| - 1])
  }

  /** The events that the appends of a run write. */
  function RunEvents(sha: Hash, seed: string, ops: seq<Op>): seq<Event> {
    if ops == [] then []
    else
      var before, op := RunEvents(sha, seed, ops[..|ops| - 1]), ops[|ops| - 1];
      if op.Restart? then before
      else before + [NextEvent(sha, Run(sha, seed, ops[..|ops| - 1]), op.action, op.actor, op.target, op.json, op.now)]
  }

  /** The logger's memory and file stand for the events. */
  ghost predicate Holds(sha: Hash, genesis: string, l: Logger, events: seq<Event>) {
    && Written(sha, genesis, events)
    && l == Logger(Some(FileText(genesis, events)), |events| % U64, ChainHash(sha, genesis, events))
  }

  /** A file of written events verifies and is recovered to the state it was written from. */
  lemma FileOfEvents(sha: Hash, genesis: string, events: seq<Event>, seed: string, writable: bool)
    requires NoNewline(genesis) && Written(sha, genesis, events)
    ensures var file := Some(FileText(genesis, events));
            && Verify(sha, file) == Ok(true)
            && Open(sha, file, seed, writable) == Logger(file, |events| % U64, ChainHash(sha, genesis, events))
  {
    WrittenVerify(sha, genesis, events);
    LinesOfFile(genesis, events);
    hide FileText, Lines, VerifyLines, RecoverLines, EventLines, Written, ChainHash;
    assert ([GENESIS + genesis] + EventLines(events))[1..] == EventLines(events);
  }

  lemma ChainHashIsDigest(sha: Hash, genesis: string, events: seq<Event>)
    requires IsDigest(sha) && NoBar(genesis) && NoNewline(genesis)
    ensures NoBar(ChainHash(sha, genesis, events)) && NoNewline(ChainHash(sha, genesis, events))
  {
  }

  lemma AppendHolds(sha: Hash, genesis: string, l: Logger, events: seq<Event>, op: Op)
    requires IsDigest(sha) && NoBar(genesis) && NoNewline(genesis)
    requires Holds(sha, genesis, l, events) && op.AppendOp? && Acceptable(op)
    ensures var e := NextEvent(sha, l, op.action, op.actor, op.target, op.json, op.now);
            Holds(sha, genesis, Step(sha, l, op), events + [e])
  {
    var e := NextEvent(sha, l, op.action, op.actor, op.target, op.json, op.now);
    ChainHashIsDigest(sha, genesis, events);
    assert NoBar(sha(op.json)) && NoNewline(sha(op.json));
    assert Clean(e);
    hide Clean, EventLine, Link, ChainHash, TextOf, EventLines;
    NextNumber(|events|);
    WrittenAppend(sha, genesis, events, e);
    FileTextAppend(genesis, events, e);
    hide Written, FileText;
  }

  lemma NextNumber(n: nat)
    ensures (n % U64 + 1) % U64 == (n + 1) % U64
  {
  }

  /** A clean event with the next number that continues the chain extends what was written. */
  lemma WrittenAppend(sha: Hash, genesis: string, events: seq<Event>, e: Event)
    requires Written(sha, genesis, events) && Clean(e) && e.sequence == (|events| + 1) % U64
    requires e.prevHash == ChainHash(sha, genesis, events) && e.paramsHash == sha(e.json)
    ensures Written(sha, genesis, events + [e])
    ensures ChainHash(sha, genesis, events + [e]) == sha(Link(e.prevHash, e.paramsHash, e.sequence, e.action))
  {
    ChainedAppend(sha, genesis, events, e);
    assert CleanAs(e, |events| + 1);
    hide Chained, CleanAs, ChainHash, Link;
    assert forall i | 0 <= i < |events| :: (events + [e])[i] == events[i];
  }

  lemma FileTextAppend(genesis: string, events: seq<Event>, e: Event)
    ensures FileText(genesis, events + [e]) == FileText(genesis, events) + EventLine(e) + "\n"
  {
    hide EventLine, TextOf;
    assert (events + [e])[..|events|] == events;
    TextOfAppend([GENESIS + genesis] + EventLines(events), EventLine(e));
    assert [GENESIS + genesis] + EventLines(events) + [EventLine(e)] == [GENESIS + genesis] + EventLines(events + [e]);
  }

  lemma {:induction false} RunHolds(sha: Hash, seed: string, ops: seq<Op>)
    requires IsDigest(sha) && forall op | op in ops :: Acceptable(op)
    ensures Holds(sha, sha(seed), Run(sha, seed, ops), RunEvents(sha, seed, ops))
    decreases |ops|
  {
    var genesis := sha(seed);
    assert NoBar(genesis) && NoNewline(genesis);
    if ops == [] {
      assert Lines(Text(None)) == [];
      assert [GENESIS + genesis][1..] == [] && TextOf([]) == "";
      assert "" + GENESIS + genesis + "\n" == GENESIS + genesis + "\n" + "";
      assert [GENESIS + genesis] + EventLines([]) == [GENESIS + genesis];
    } else {
      var init, op := ops[..|ops| - 1], ops[|ops| - 1];
      RunHolds(sha, seed, init);
      assert op in ops;
      hide Written, FileText, ChainHash;
      if op.AppendOp? {
        AppendHolds(sha, genesis, Run(sha, seed, init), RunEvents(sha, seed, init), op);
      } else {
        FileOfEvents(sha, genesis, RunEvents(sha, seed, init), "", true);
      }
    }
  }

  /** A text of lines cut behind a newline is the text of some of the first lines. */
  lemma {:induction false} CutAtNewline(lines: seq<string>, k: nat) returns (n: nat)
    requires forall line | line in lines :: NoNewline(line)
    requires 0 < k <= |TextOf(lines)| && TextOf(lines)[k - 1] == '\n'
    ensures 1 <= n <= |lines| && TextOf(lines)[..k] == TextOf(lines[..n])
  {
    var line, rest := lines[0], TextOf(lines[1..]);
    assert NoNewline(line) by {
      assert line in lines;
    }
    FirstLine(line, rest, k);
    if k == |line| + 1 {
      n := 1;
      assert lines[..1][1..] == [];
      assert TextOf(lines[..1]) == line + "\n" + TextOf([]);
    } else {
      n := CutAtNewline(lines[1..], k - |line| - 1);
      assert lines[..n + 1][0] == line && lines[..n + 1][1..] == lines[1..][..n];
      n := n + 1;
    }
  }

  lemma FirstLine(line: string, rest: string, k: nat)
    requires NoNewline(line)
    requires 0 < k <= |line + "\n" + rest| && (line + "\n" + rest)[k - 1] == '\n'
    ensures k >= |line| + 1
    ensures var m := k - |line| - 1;
            && (line + "\n" + rest)[..k] == line + "\n" + rest[..m]
            && (m > 0 ==> rest[m - 1] == '\n')
  {
    var all := line + "\n" + rest;
    assert forall i | 0 <= i < |line| :: all[i] == line[i] && line[i] in line;
    assert all[..k][..|line| + 1] == line + "\n";
  }

  lemma {:induction false} EventLinesLength(events: seq<Event>)
    ensures |EventLines(events)| == |events|
  {
    if events != [] {
      EventLinesLength(events[..|events| - 1]);
    }
  }

  lemma {:induction false} EventLinesPrefix(events: seq<Event>, n: nat)
    requires n <= |events| == |EventLines(events)|
    ensures EventLines(events)[..n] == EventLines(events[..n])
  {
    hide EventLine;
    if events != [] {
      if n < |events| {
        EventLinesLength(events[..|events| - 1]);
        EventLinesPrefix(events[..|events| - 1], n);
        assert events[..|events| - 1][..n] == events[..n];
      } else {
        assert events[..n] == events;
      }
    }
  }

  /** A file of written events that is cut behind a newline is the file of the first of these events. */
  lemma CutFile(genesis: string, events: seq<Event>, k: nat) returns (n: nat)
    requires NoNewline(genesis) && forall e | e in events :: Clean(e)
    requires 0 < k <= |FileText(genesis, events)| && FileText(genesis, events)[k - 1] == '\n'
    ensures n <= |events| && FileText(genesis, events)[..k] == FileText(genesis, events[..n])
  {
    var lines := [GENESIS + genesis] + EventLines(events);
    EventLinesAreLines(events);
    EventLinesLength(events);
    hide TextOf, EventLines;
    assert NoNewline(GENESIS + genesis);
    assert forall line | line in lines :: line == GENESIS + genesis || line in EventLines(events);
    var m := CutAtNewline(lines, k);
    n := m - 1;
    EventLinesPrefix(events, n);
    assert lines[..m] == [GENESIS + genesis] + EventLines(events)[..n];
  }

  /**
   After any run of appends over any number of restarts the file verifies, the sequence number is the number of
   events modulo 2^64, and a restart recovers exactly the state.
   */
  lemma RunVerifies(sha: Hash, seed: string, ops: seq<Op>)
    requires IsDigest(sha) && forall op | op in ops :: Acceptable(op)
    ensures var l, events := Run(sha, seed, ops), RunEvents(sha, seed, ops);
            && Verify(sha, l.file) == Ok(true)
            && l.sequence == |events| % U64
            && Step(sha, l, Restart) == l
            && l.file == Some(FileText(sha(seed), events))
  {
    var events := RunEvents(sha, seed, ops);
    RunHolds(sha, seed, ops);
    hide Run, RunEvents;
    FileOfEvents(sha, sha(seed), events, "", true);
  }

  /** After any such run, what the file holds up to the end of any of its lines verifies too. */
  lemma LinePrefixesVerify(sha: Hash, seed: string, ops: seq<Op>, k: nat)
    requires IsDigest(sha) && forall op | op in ops :: Acceptable(op)
    requires Run(sha, seed, ops).file.Some?
    requires 0 < k <= |Run(sha, seed, ops).file.value| && Run(sha, seed, ops).file.value[k - 1] == '\n'
    ensures Verify(sha, Some(Run(sha, seed, ops).file.value[..k])) == Ok(true)
  {
    var events, genesis := RunEvents(sha, seed, ops), sha(seed);
    RunHolds(sha, seed, ops);
    hide Run, RunEvents, FileText, Verify;
    assert NoBar(genesis) && NoNewline(genesis);
    WrittenIsClean(sha, genesis, events);
    var n := CutFile(genesis, events, k);
    WrittenPrefix(sha, genesis, events, n);
    FileOfEvents(sha, genesis, events[..n], "", true);
  }

  lemma WrittenIsClean(sha: Hash, genesis: string, events: seq<Event>)
    requires Written(sha, genesis, events)
    ensures forall e | e in events :: Clean(e)
  {
    hide Chained, Clean;
    forall e | e in events
      ensures Clean(e)
    {
      var i :| 0 <= i < |events| && events[i] == e;
      assert CleanAs(events[i], i + 1);
    }
  }

  // ---------- tamper evidence ----------

  /** The events of a file's lines, empty lines left out. */
  function EventsOf(lines: seq<string>): seq<Event> {
    if lines == [] then []
    else
      var before := EventsOf(lines[..|lines| - 1]);
      match ParseLine(lines[|lines| - 1])
      case None => before
      case Some(e) => before + [e]
  }

  lemma LastEvent(lines: seq<string>)
    requires lines != []
    ensures EventsOf(lines) == EventsOf(lines[..|lines| - 1]) + EventOf(lines[|lines| - 1])
  {
    hide ParseLine;
  }

  // ---------- what a run leaves in the file ----------

  /** The appends of a run, in order. */
  function Appends(ops: seq<Op>): seq<Op> {
    if ops == [] then []
    else Appends(ops[..|ops| - 1]) + if ops[|ops| - 1].AppendOp? then [ops[|ops| - 1]] else []
  }

  /** The event records the call: its action, actor, target, time and parameters, and the hash of these. */
  predicate Records(sha: Hash, e: Event, op: Op) {
    && op.AppendOp? && e.action == op.action && e.actor == op.actor && e.target == op.target
    && e.timestamp == op.now && e.json == op.json && e.paramsHash == sha(op.json)
  }

  lemma {:induction false} EventsRecordAppends(sha: Hash, seed: string, ops: seq<Op>)
    ensures var events, appends := RunEvents(sha, seed, ops), Appends(ops);
            |events| == |appends| && forall i | 0 <= i < |events| :: Records(sha, events[i], appends[i])
    decreases |ops|
  {
    if ops != [] {
      EventsRecordAppends(sha, seed, ops[..|ops| - 1]);
      hide Run;
    }
  }

  /**
   After any run the file is a genesis line and then one line for each append, in order; the line of append i parses
   to an event that records exactly what that call was given, under number i + 1 (modulo 2^64).
   */
  lemma FileRecordsAppends(sha: Hash, seed: string, ops: seq<Op>)
    requires IsDigest(sha) && forall op | op in ops :: Acceptable(op)
    ensures var file, appends := Run(sha, seed, ops).file, Appends(ops);
            && file.Some?
            && var lines := Lines(file.value);
               && |lines| == 1 + |appends| && lines[0] == "GENESIS|" + sha(seed)
               && forall i | 0 <= i < |appends| ::
                    && ParseLine(lines[i + 1]).Some?
                    && ParseLine(lines[i + 1]).value.sequence == (i + 1) % U64
                    && Records(sha, ParseLine(lines[i + 1]).value, appends[i])
  {
    var events, genesis := RunEvents(sha, seed, ops), sha(seed);
    RunHolds(sha, seed, ops);
    EventsRecordAppends(sha, seed, ops);
    WrittenIsClean(sha, genesis, events);
    WrittenLinesParse(sha, genesis, events);
    assert NoNewline(genesis);
    LinesOfFile(genesis, events);
    hide Run, RunEvents, Appends, Lines, FileText, ParseLine, Records, Written, EventLines;
  }

  lemma WrittenLinesParse(sha: Hash, genesis: string, events: seq<Event>)
    requires Written(sha, genesis, events)
    ensures |EventLines(events)| == |events|
    ensures forall i | 0 <= i < |events| ::
              ParseLine(EventLines(events)[i]) == Some(events[i]) && events[i].sequence == (i + 1) % U64
  {
    EventLinesLength(events);
    hide Chained, ParseLine, EventLine, EventLines, Clean;
    forall i | 0 <= i < |events|
      ensures ParseLine(EventLines(events)[i]) == Some(events[i]) && events[i].sequence == (i + 1) % U64
    {
      EventLineAt(events, i);
      assert CleanAs(events[i], i + 1);
      ParseOfEventLine(events[i]);
    }
  }

  lemma {:induction false} EventLineAt(events: seq<Event>, i: nat)
    requires i < |events| == |EventLines(events)|
    ensures EventLines(events)[i] == EventLine(events[i])
    decreases |events|
  {
    hide EventLine;
    if i < |events| - 1 {
      EventLinesLength(events[..|events| - 1]);
      EventLineAt(events[..|events| - 1], i);
    }
  }

  /**
   In that file the first event carries the hash of the seed, and every other one the hash of its predecessor's
   previous hash, parameter hash, number and action, joined by bars in this order.
   */
  lemma FileLinks(sha: Hash, seed: string, ops: seq<Op>, i: nat)
    requires IsDigest(sha) && (forall op | op in ops :: Acceptable(op)) && i < |Appends(ops)|
    ensures Run(sha, seed, ops).file.Some?
    ensures var lines := Lines(Run(sha, seed, ops).file.value);
            && i + 1 < |lines| && ParseLine(lines[i + 1]).Some?
            && var e := ParseLine(lines[i + 1]).value;
               if i == 0 then e.prevHash == sha(seed)
               else
                 && ParseLine(lines[i]).Some?
                 && var d := ParseLine(lines[i]).value;
                    e.prevHash == sha(d.prevHash + "|" + d.paramsHash + "|" + Dec(d.sequence) + "|" + Dec(d.action))
  {
    var events, genesis := RunEvents(sha, seed, ops), sha(seed);
    RunHolds(sha, seed, ops);
    EventsRecordAppends(sha, seed, ops);
    WrittenIsClean(sha, genesis, events);
    WrittenLinesParse(sha, genesis, events);
    assert NoNewline(genesis);
    LinesOfFile(genesis, events);
    ChainedAt(sha, genesis, events, i);
    hide Run, RunEvents, Appends, Lines, FileText, ParseLine, Records, Written, EventLines, Dec;
    assert i > 0 ==> ([GENESIS + genesis] + EventLines(events))[i] == EventLines(events)[i - 1];
  }

  lemma ChainedAt(sha: Hash, genesis: string, events: seq<Event>, i: nat)
    requires Chained(sha, genesis, events) && i < |events|
    ensures i == 0 ==> events[0].prevHash == genesis
    ensures i > 0 ==>
              var d := events[i - 1];
              events[i].prevHash == sha(d.prevHash + "|" + d.paramsHash + "|" + Dec(d.sequence) + "|" + Dec(d.action))
  {
    hide Dec;
    if i > 0 {
      var d := events[i - 1];
      assert events[..i][..i - 1] == events[..i - 1];
      LinkText(d.prevHash, d.paramsHash, d.sequence, d.action);
    }
  }

  // ---------- what verification answers for any file ----------

  /** Every line that is not empty parses. */
  predicate AllParse(lines: seq<string>) {
    forall line | line in lines && line != [] :: ParseLine(line).Some?
  }

  /** The lines are accepted exactly when all of them parse and their events form a chain. */
  lemma {:induction false} AcceptedIff(sha: Hash, lines: seq<string>, genesis: string)
    ensures VerifyLines(sha, lines, genesis).Some? <==> AllParse(lines) && Chained(sha, genesis, EventsOf(lines))
    ensures VerifyLines(sha, lines, genesis).Some? ==>
              VerifyLines(sha, lines, genesis) == Some(ChainHash(sha, genesis, EventsOf(lines)))
    decreases |lines|
  {
    hide ParseLine, Link;
    if lines != [] {
      var init, last := lines[..|lines| - 1], lines[|lines| - 1];
      assert lines == init + [last];
      AcceptedIff(sha, init, genesis);
      VerifyConcat(sha, init, [last], genesis);
      LastEvent(lines);
      AllParseInit(lines);
      hide VerifyLines, EventsOf, Chained, ChainHash, AllParse;
      LastLineIff(sha, genesis, EventsOf(init), last);
    }
  }

  lemma AllParseInit(lines: seq<string>)
    requires lines != []
    ensures var init, last := lines[..|lines| - 1], lines[|lines| - 1];
            AllParse(lines) <==> AllParse(init) && (last != [] ==> ParseLine(last).Some?)
  {
    hide ParseLine;
    assert lines == lines[..|lines| - 1] + [lines[|lines| - 1]];
  }

  /** Behind a chain a line is accepted exactly when it is empty or parses and extends the chain. */
  lemma LastLineIff(sha: Hash, genesis: string, events: seq<Event>, line: string)
    ensures var prev, after := ChainHash(sha, genesis, events), events + EventOf(line);
            && (Chained(sha, genesis, events) ==>
                  (VerifyLines(sha, [line], prev).Some? <==>
                     (line != [] ==> ParseLine(line).Some?) && Chained(sha, genesis, after))
                  && (VerifyLines(sha, [line], prev).Some? ==>
                        VerifyLines(sha, [line], prev) == Some(ChainHash(sha, genesis, after))))
            && (Chained(sha, genesis, after) ==> Chained(sha, genesis, events))
  {
    var prev, after := ChainHash(sha, genesis, events), events + EventOf(line);
    OneLineVerdict(sha, line, prev);
    hide ParseLine, VerifyLines, Link, ChainHash;
    if line == [] || ParseLine(line).None? {
      assert after == events;
    } else {
      var e := ParseLine(line).value;
      assert after[..|events|] == events && after[|events|] == e;
      if Chained(sha, genesis, after) {
        ChainedInit(sha, genesis, after);
        assert e.prevHash == ChainHash(sha, genesis, after[..|events|]);
      }
      if Chained(sha, genesis, events) && e.prevHash == prev && e.paramsHash == sha(e.json) {
        ChainedAppend(sha, genesis, events, e);
      }
    }
  }

  /** The event of a line, if it is one. */
  function EventOf(line: string): seq<Event> {
    match ParseLine(line) case None => [] case Some(e) => [e]
  }

  lemma OneLineVerdict(sha: Hash, line: string, prev: string)
    ensures line == [] ==> VerifyLines(sha, [line], prev) == Some(prev) && ParseLine(line) == None
    ensures line != [] && ParseLine(line).None? ==> VerifyLines(sha, [line], prev) == None
    ensures line != [] && ParseLine(line).Some? ==>
              var e := ParseLine(line).value;
              VerifyLines(sha, [line], prev)
              == if e.prevHash == prev && e.paramsHash == sha(e.json)
                 then Some(sha(Link(prev, e.paramsHash, e.sequence, e.action))) else None
  {
    assert [line][1..] == [];
    hide Link;
  }

  /**
   The answer for any file and any hash: an internal error without a file or a line, a version mismatch without a
   genesis line, true if every line behind it that is not empty parses and all events form a chain from the genesis
   hash, and false otherwise.
   */
  lemma VerifyVerdict(sha: Hash, file: Option<string>)
    ensures var lines := if file.Some? then Lines(file.value) else [];
            Verify(sha, file)
            == if file.None? || file.value == "" then Err(Internal)
               else if !("GENESIS|" <= lines[0]) then Err(VersionMismatch)
               else Ok(AllParse(lines[1..]) && Chained(sha, lines[0][8..], EventsOf(lines[1..])))
  {
    if file.Some? && file.value != "" {
      var lines := Lines(file.value);
      hide Lines, AllParse, Chained, EventsOf, VerifyLines;
      assert IsGenesisLine(lines[0]) <==> "GENESIS|" <= lines[0];
      if IsGenesisLine(lines[0]) {
        AcceptedIff(sha, lines[1..], lines[0][8..]);
      }
    }
  }

  // ---------- what recovery finds in any file ----------

  /** Every event carries the hash behind its predecessors; the parameter hashes are not looked at. */
  ghost predicate Linked(sha: Hash, genesis: string, events: seq<Event>) {
    forall i | 0 <= i < |events| :: events[i].prevHash == ChainHash(sha, genesis, events[..i])
  }

  /** The line does not continue the events: it is not empty, and no event or one with another previous hash. */
  predicate Breaks(sha: Hash, genesis: string, events: seq<Event>, line: string) {
    line != [] && (ParseLine(line).None? || ParseLine(line).value.prevHash != ChainHash(sha, genesis, events))
  }

  function LastNumber(events: seq<Event>): u64 {
    if events == [] then 0 else events[|events| - 1].sequence
  }

  /**
   In any file recovery takes exactly the longest run of first lines that are linked, up to the first line that does
   not continue them: the number of their last event, or 0, and the hash behind it.
   */
  lemma RecoverFindsLinked(sha: Hash, lines: seq<string>, genesis: string) returns (n: nat)
    ensures n <= |lines| && AllParse(lines[..n])
    ensures var events := EventsOf(lines[..n]);
            && Linked(sha, genesis, events)
            && (n < |lines| ==> Breaks(sha, genesis, events, lines[n]))
            && RecoverLines(sha, lines, 0, genesis) == (LastNumber(events), ChainHash(sha, genesis, events))
  {
    n := 0;
    hide ParseLine, Link;
    assert lines[..0] == [] && lines[0..] == lines;
    while n < |lines| && !Breaks(sha, genesis, EventsOf(lines[..n]), lines[n])
      invariant n <= |lines| && AllParse(lines[..n])
      invariant var events := EventsOf(lines[..n]);
                && Linked(sha, genesis, events)
                && RecoverLines(sha, lines, 0, genesis)
                   == RecoverLines(sha, lines[n..], LastNumber(events), ChainHash(sha, genesis, events))
    {
      var events := EventsOf(lines[..n]);
      TakeLine(sha, genesis, events, lines[n..]);
      assert lines[n..][1..] == lines[n + 1..] && lines[..n + 1][..n] == lines[..n];
      LastEvent(lines[..n + 1]);
      AllParseInit(lines[..n + 1]);
      n := n + 1;
    }
    RecoveryStops(sha, genesis, EventsOf(lines[..n]), lines[n..]);
  }

  lemma TakeLine(sha: Hash, genesis: string, events: seq<Event>, rest: seq<string>)
    requires Linked(sha, genesis, events) && rest != [] && !Breaks(sha, genesis, events, rest[0])
    ensures var after := events + EventOf(rest[0]);
            && Linked(sha, genesis, after)
            && RecoverLines(sha, rest, LastNumber(events), ChainHash(sha, genesis, events))
               == RecoverLines(sha, rest[1..], LastNumber(after), ChainHash(sha, genesis, after))
  {
    hide ParseLine, Link;
    var after := events + EventOf(rest[0]);
    if rest[0] == [] {
      EmptyIsNoEvent();
      assert after == events;
    } else {
      assert after[..|events|] == events;
      forall i | 0 <= i < |after|
        ensures after[i].prevHash == ChainHash(sha, genesis, after[..i])
      {
        if i < |events| {
          assert after[..i] == events[..i];
        }
      }
    }
  }

  lemma EmptyIsNoEvent()
    ensures ParseLine("") == None
  {
  }

  lemma RecoveryStops(sha: Hash, genesis: string, events: seq<Event>, rest: seq<string>)
    requires rest != [] ==> Breaks(sha, genesis, events, rest[0])
    ensures var last, prev := LastNumber(events), ChainHash(sha, genesis, events);
            RecoverLines(sha, rest, last, prev) == (last, prev)
  {
  }

  /**
   Opening a file without a genesis line writes one at its end. That makes a file verify that had no line before; any
   other file still begins with its own first line, and goes on being refused.
   */
  lemma OpenedVerdict(sha: Hash, file: Option<string>, seed: string, writable: bool)
    requires IsDigest(sha)
    requires file.Some? ==> !("GENESIS|" <= file.value)
    ensures var l := Open(sha, file, seed, writable);
            && l.sequence == 0 && l.prevHash == sha(seed)
            && (!writable ==> l.file == file)
            && (writable ==>
                  && l.file == Some((if file.Some? then file.value else "") + "GENESIS|" + sha(seed) + "\n")
                  && Verify(sha, l.file) == if file.None? || file.value == "" then Ok(true) else Err(VersionMismatch))
  {
    var text, line := Text(file), GENESIS + sha(seed);
    NoGenesis(text);
    assert text + GENESIS + sha(seed) + "\n" == text + (line + "\n");
    assert NoNewline(sha(seed));
    hide Lines, RecoverLines, VerifyLines;
    if text == "" {
      assert "" + (line + "\n") == line + "\n" + "";
      OnlyGenesis(sha, line);
    } else {
      ForeignStays(text, line + "\n");
      NoGenesis(text + (line + "\n"));
    }
  }

  lemma OnlyGenesis(sha: Hash, line: string)
    requires IsGenesisLine(line) && NoNewline(line)
    ensures Verify(sha, Some(line + "\n" + "")) == Ok(true)
  {
    LinesOfLine(line, "");
    LinesOfLastLine("");
    assert [line] + [] == [line] && [line][1..] == [];
    hide Lines;
  }

  /** The first line of a text begins with the genesis mark only if the text does. */
  lemma NoGenesis(text: string)
    requires !("GENESIS|" <= text)
    ensures var lines := Lines(text); lines != [] ==> !IsGenesisLine(lines[0])
    ensures text != "" ==> Lines(text) != []
  {
    if text != "" {
      var line := Lines(text)[0];
      assert line <= text;
    }
  }

  /** A text that is not empty and does not begin with the mark does not do so with a mark behind it either. */
  lemma ForeignStays(text: string, rest: string)
    requires text != "" && !("GENESIS|" <= text) && "GENESIS|" <= rest
    ensures !("GENESIS|" <= text + rest)
  {
    var mark, all := "GENESIS|", text + rest;
    if |text| < 8 {
      assert all[|text|] == rest[0] == mark[0];
      assert mark[|text|] != mark[0];
    } else {
      assert all[..8] == text[..8];
    }
  }

  /** What the chain protects. */
  function Contents(events: seq<Event>): seq<(u64, Action, string)> {
    if events == [] then []
    else
      var e := events[|events| - 1];
      Contents(events[..|events| - 1]) + [(e.sequence, e.action, e.json)]
  }

  /** Every string that is hashed when a chain with this genesis seed is verified. */
  function Hashed(sha: Hash, seed: string, events: seq<Event>): set<string> {
    if events == [] then {seed}
    else
      var init, e := events[..|events| - 1], events[|events| - 1];
      Hashed(sha, seed, init) + {e.json, Link(ChainHash(sha, sha(seed), init), e.paramsHash, e.sequence, e.action)}
  }

  /** Two different strings with one hash, one hashed for each chain. */
  ghost predicate Collision(sha: Hash, a: string, b: string, seed: string, es: seq<Event>, fs: seq<Event>) {
    a != b && sha(a) == sha(b) && a in Hashed(sha, seed, es) && b in Hashed(sha, seed, fs)
  }

  lemma LinkInjective(p: string, q: string, h: string, k: string, m: u64, n: u64, a: Action, b: Action)
    requires NoBar(p) && NoBar(q) && NoBar(h) && NoBar(k)
    requires Link(p, h, m, a) == Link(q, k, n, b)
    ensures p == q && h == k && m == n && a == b
  {
    hide Dec;
    DigitsHaveNoBar(m);
    DigitsHaveNoBar(n);
    BarSplits(p, q, h + "|" + (Dec(m) + "|" + Dec(a)), k + "|" + (Dec(n) + "|" + Dec(b)));
    BarSplits(h, k, Dec(m) + "|" + Dec(a), Dec(n) + "|" + Dec(b));
    BarSplits(Dec(m), Dec(n), Dec(a), Dec(b));
    DecInjective(m, n);
    DecInjective(a, b);
  }

  lemma LinkHasBar(p: string, h: string, m: u64, a: Action)
    ensures !NoBar(Link(p, h, m, a))
  {
    hide Dec;
    assert Link(p, h, m, a)[|p|] == '|';
  }

  lemma {:induction false} SeedIsHashed(sha: Hash, seed: string, events: seq<Event>)
    ensures seed in Hashed(sha, seed, events)
  {
    if events != [] {
      SeedIsHashed(sha, seed, events[..|events| - 1]);
    }
  }

  /**
   Two chains over one genesis that end in the same hash hold the same contents, unless the two verifications
   hash two different strings to one value; then that pair is returned.
   */
  lemma {:induction false} ChainsAgree(sha: Hash, seed: string, es: seq<Event>, fs: seq<Event>)
    returns (a: string, b: string)
    requires IsDigest(sha) && NoBar(seed)
    requires Chained(sha, sha(seed), es) && Chained(sha, sha(seed), fs)
    requires ChainHash(sha, sha(seed), es) == ChainHash(sha, sha(seed), fs)
    ensures Contents(es) == Contents(fs) || Collision(sha, a, b, seed, es, fs)
    decreases |es| + |fs|
  {
    a, b := "", "";
    if es == [] && fs == [] {
      return;
    }
    if es == [] {
      b := LastLink(sha, seed, fs);
      a := seed;
      return;
    }
    if fs == [] {
      a := LastLink(sha, seed, es);
      b := seed;
      return;
    }
    var x := LastLink(sha, seed, es);
    var y := LastLink(sha, seed, fs);
    if x != y {
      return x, y;
    }
    var e, f := es[|es| - 1], fs[|fs| - 1];
    var es', fs' := es[..|es| - 1], fs[..|fs| - 1];
    assert NoBar(sha(seed)) && NoNewline(sha(seed));
    ChainHashIsDigest(sha, sha(seed), es');
    ChainHashIsDigest(sha, sha(seed), fs');
    assert NoBar(sha(e.json)) && NoBar(sha(f.json));
    LinkInjective(ChainHash(sha, sha(seed), es'), ChainHash(sha, sha(seed), fs'), e.paramsHash, f.paramsHash,
                  e.sequence, f.sequence, e.action, f.action);
    if e.json != f.json {
      return e.json, f.json;
    }
    ChainedInit(sha, sha(seed), es);
    ChainedInit(sha, sha(seed), fs);
    a, b := ChainsAgree(sha, seed, es', fs');
  }

  lemma ChainedInit(sha: Hash, genesis: string, events: seq<Event>)
    requires Chained(sha, genesis, events) && events != []
    ensures Chained(sha, genesis, events[..|events| - 1])
  {
    var init := events[..|events| - 1];
    hide ChainHash;
    forall i | 0 <= i < |init|
      ensures init[i].prevHash == ChainHash(sha, genesis, init[..i]) && init[i].paramsHash == sha(init[i].json)
    {
      assert init[..i] == events[..i] && init[i] == events[i];
    }
  }

  /** The last link of a chain: hashed to the chain's hash, hashed in its verification, and no seed. */
  lemma LastLink(sha: Hash, seed: string, events: seq<Event>) returns (x: string)
    requires events != [] && NoBar(seed)
    ensures var e := events[|events| - 1];
            x == Link(ChainHash(sha, sha(seed), events[..|events| - 1]), e.paramsHash, e.sequence, e.action)
    ensures sha(x) == ChainHash(sha, sha(seed), events)
    ensures x in Hashed(sha, seed, events) && seed in Hashed(sha, seed, events) && x != seed
    ensures events[|events| - 1].json in Hashed(sha, seed, events)
  {
    var e, prev := events[|events| - 1], ChainHash(sha, sha(seed), events[..|events| - 1]);
    x := Link(prev, e.paramsHash, e.sequence, e.action);
    LinkHasBar(prev, e.paramsHash, e.sequence, e.action);
    SeedIsHashed(sha, seed, events);
  }

  /**
   Tamper evidence: two files that verify, start from the same genesis and end in the same hash hold the same
   sequence numbers, actions and parameters, or two different strings hashed for them collide. The files may
   have different lengths and different actors, targets and times.
   */
  lemma AcceptedFilesAgree(sha: Hash, seed: string, f: string, g: string) returns (a: string, b: string)
    requires IsDigest(sha) && NoBar(seed)
    requires Verify(sha, Some(f)) == Ok(true) && Verify(sha, Some(g)) == Ok(true)
    requires Lines(f)[0] == Lines(g)[0] == GENESIS + sha(seed)
    requires VerifyLines(sha, Lines(f)[1..], sha(seed)) == VerifyLines(sha, Lines(g)[1..], sha(seed))
    ensures var es, fs := EventsOf(Lines(f)[1..]), EventsOf(Lines(g)[1..]);
            Contents(es) == Contents(fs) || Collision(sha, a, b, seed, es, fs)
  {
    assert (GENESIS + sha(seed))[8..] == sha(seed);
    hide Lines, VerifyLines, EventsOf;
    AcceptedIff(sha, Lines(f)[1..], sha(seed));
    AcceptedIff(sha, Lines(g)[1..], sha(seed));
    a, b := ChainsAgree(sha, seed, EventsOf(Lines(f)[1..]), EventsOf(Lines(g)[1..]));
  }
}
