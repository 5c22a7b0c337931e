/** The write-ahead log object: a file with a cursor, updated in place. */
module WalObject {
  import opened Bytes
  import opened WalCodec
  import opened WalLog
  import opened WalMachine

  /** FNV-1a with a running accumulator. */
  method Fnv1a(data: seq<byte>) returns (h: u32)
    ensures h == Fnv(data)
  {
    h := FNV_OFFSET;
    for i := 0 to |data|
      invariant h == Fnv(data[..i])
    {
      assert data[..i + 1][..i] == data[..i];
      h := Wrap32(Xor32(h, data[i]) * FNV_PRIME);
    }
    assert data[..|data|] == data;
  }

  method Checksum(header36: seq<byte>, action: seq<byte>, payload: seq<byte>) returns (sum: u32)
    ensures sum == Sum(header36, action, payload)
  {
    sum := Fnv1a(header36);
    if |action| > 0 {
      var h := Fnv1a(action);
      sum := Xor32(sum, h);
    }
    if |payload| > 0 {
      var h := Fnv1a(payload);
      sum := Xor32(sum, h);
    }
  }

  function Rest(file: seq<byte>, cursor: nat): seq<byte> {
    if cursor <= |file| then file[cursor..] else []
  }

  lemma BodyIsRest(file: seq<byte>)
    ensures Rest(file, FILE_HEADER_SIZE) == Body(file)
    ensures forall cursor: nat | cursor >= |file| :: Rest(file, cursor) == []
  {
  }

  lemma RestBounds(file: seq<byte>, cursor: nat)
    ensures |Rest(file, cursor)| == if cursor <= |file| then |file| - cursor else 0
    ensures cursor <= |file| ==> Rest(file, cursor) == file[cursor..]
    ensures cursor + 40 <= |file| ==> Rest(file, cursor)[..40] == file[cursor..cursor + 40]
  {
  }

  lemma SliceOfRest(file: seq<byte>, cursor: nat, i: nat, j: nat)
    requires i <= j && cursor + j <= |file|
    ensures Rest(file, cursor)[i..j] == file[cursor + i..cursor + j]
  {
  }

  lemma RestStep(file: seq<byte>, cursor: nat, n: nat)
    ensures Rest(Rest(file, cursor), n) == Rest(file, cursor + n)
  {
  }

  /** The scan stops at a header that is not whole or not the log's own, and steps over any other entry. */
  lemma ScanCases(rest: seq<byte>)
    ensures |rest| < ENTRY_HEADER_SIZE ==> ScanBytes(rest) == Scan(0, 0)
    ensures |rest| >= ENTRY_HEADER_SIZE && (MagicOf(rest) != FILE_MAGIC || SchemaOf(rest) != SCHEMA_VERSION) ==>
              ScanBytes(rest) == Scan(0, 0)
    ensures |rest| >= ENTRY_HEADER_SIZE && MagicOf(rest) == FILE_MAGIC && SchemaOf(rest) == SCHEMA_VERSION ==>
              var s := ScanBytes(Rest(rest, ENTRY_HEADER_SIZE + ActionLen(rest) + PayloadLen(rest)));
              ScanBytes(rest) == Scan(Max(SequenceOf(rest), s.maxSequence), s.count + 1)
  {
    hide MagicOf, SchemaOf, ActionLen, PayloadLen, SequenceOf;
  }

  class Wal {
    const cfg: Config
    var file: seq<byte>
    var cursor: nat
    var nextSequence: u64
    var sizeBytes: nat
    var entryCount: nat

    ghost function View(): Disk
      reads this
    {
      Disk(file, nextSequence, sizeBytes, entryCount)
    }

    /** A log in a file that did not exist. */
    constructor Create(cfg: Config)
      ensures View() == Fresh() && this.cfg == cfg
    {
      this.cfg := cfg;
      file := LE(FILE_MAGIC, 4) + LE(SCHEMA_VERSION, 4) + LE(0, 8);
      cursor := 0;
      sizeBytes := FILE_HEADER_SIZE;
      entryCount := 0;
      nextSequence := 1;
    }

    /** A log over an existing file, before its header is read. */
    constructor Attach(cfg: Config, file: seq<byte>)
      ensures View() == Disk(file, 1, 0, 0) && this.cfg == cfg
    {
      this.cfg := cfg;
      this.file := file;
      cursor := 0;
      nextSequence, sizeBytes, entryCount := 1, 0, 0;
    }

    /** Up to len bytes from offset off; fewer at the end of the file. */
    method ReadAt(len: nat, off: nat) returns (buf: seq<byte>)
      ensures |buf| == if off + len <= |file| then len else if off <= |file| then |file| - off else 0
      ensures off <= |file| ==> buf == file[off..off + |buf|]
    {
      if off > |file| {
        return [];
      }
      buf := if off + len <= |file| then file[off..off + len] else file[off..];
    }

    method AppendBytes(buf: seq<byte>)
      modifies this`file
      ensures file == old(file) + buf
    {
      file := file + buf;
    }

    /** Truncates the file to the size of its header; a shorter file is filled up with zeros. */
    method TruncateFile()
      modifies this`file
      ensures file == HeaderPart(old(file))
    {
      if |file| >= FILE_HEADER_SIZE {
        file := file[..FILE_HEADER_SIZE];
      } else {
        file := file + seq(FILE_HEADER_SIZE - |file|, _ => 0);
      }
    }

    /** Writes header, action and payload; an empty part is not written. */
    method AppendParts(header: seq<byte>, action: seq<byte>, payload: seq<byte>)
      modifies this`file
      ensures file == old(file) + (header + action + payload)
    {
      AppendBytes(header);
      if |action| > 0 {
        AppendBytes(action);
      }
      if |payload| > 0 {
        AppendBytes(payload);
      }
      FourConcat(old(file), header, action, payload);
    }

    /** The bytes of both parts that their 32-bit lengths cover. */
    static method CutParts(e: Entry) returns (action: seq<byte>, payload: seq<byte>)
      ensures action == Clip(e).action && payload == Clip(e).payload
    {
      var actionLen: u32, payloadLen: u32 := |e.action| % U32, |e.payload| % U32;
      action, payload := e.action[..actionLen], e.payload[..payloadLen];
    }

    /** Fills the header field by field, up to the checksum. */
    static method MakeHeader(e: Entry, actionLen: u32, payloadLen: u32) returns (header: seq<byte>)
      requires actionLen == |Clip(e).action| && payloadLen == |Clip(e).payload|
      ensures header == HeaderBody(e)
    {
      header := LE(FILE_MAGIC, 4) + LE(SCHEMA_VERSION, 4) + LE(e.sequence, 8)
        + LE(SignedToWord(e.timestamp), 8) + [e.kind] + LE(actionLen, 4) + LE(payloadLen, 4) + [0, 0, 0];
    }

    static lemma EncodingIs(e: Entry, header: seq<byte>, action: seq<byte>, payload: seq<byte>, sum: u32)
      requires header == HeaderBody(e) && sum == Sum(header, action, payload)
      requires action == Clip(e).action && payload == Clip(e).payload
      ensures Encode(e) == header + LE(sum, 4) + action + payload
    {
    }

    /** Writes header, action and payload at the end of the file and counts them. */
    method WriteEntry(e: Entry)
      modifies this`file, this`cursor, this`sizeBytes, this`entryCount
      ensures file == old(file) + Encode(e)
      ensures cursor == |old(file)|
      ensures sizeBytes == old(sizeBytes) + |Encode(e)|
      ensures entryCount == old(entryCount) + 1
    {
      hide Encode, HeaderBody, Clip, Sum, LE;
      var action, payload := CutParts(e);
      var header := MakeHeader(e, |action|, |payload|);
      var sum := Checksum(header, action, payload);
      EncodingIs(e, header, action, payload, sum);
      cursor := |file|;
      AppendParts(header + LE(sum, 4), action, payload);
      sizeBytes := sizeBytes + (ENTRY_HEADER_SIZE + |action| + |payload|);
      entryCount := entryCount + 1;
    }

    static lemma FourConcat(a: seq<byte>, b: seq<byte>, c: seq<byte>, d: seq<byte>)
      ensures a + (b + c + d) == a + b + c + d
      ensures c == [] ==> a + (b + c + d) == a + b + d
      ensures d == [] ==> a + (b + c + d) == a + b + c
      ensures c == d == [] ==> a + (b + c + d) == a + b
    {
    }

    /** Reads the parts behind the entry header at the cursor, unless the file ends before they do. */
    method ReadParts(actionLen: nat, payloadLen: nat) returns (ok: bool, action: seq<byte>, payload: seq<byte>)
      requires cursor + ENTRY_HEADER_SIZE <= |file|
      ensures ok <==> ENTRY_HEADER_SIZE + actionLen + payloadLen <= |Rest(file, cursor)|
      ensures ok ==> action == Rest(file, cursor)[40..40 + actionLen]
      ensures ok ==> payload == Rest(file, cursor)[40 + actionLen..40 + actionLen + payloadLen]
    {
      action, payload := [], [];
      if actionLen > 0 {
        action := ReadAt(actionLen, cursor + ENTRY_HEADER_SIZE);
        if |action| != actionLen {
          return false, [], [];
        }
      }
      if payloadLen > 0 {
        payload := ReadAt(payloadLen, cursor + ENTRY_HEADER_SIZE + actionLen);
        if |payload| != payloadLen {
          return false, [], [];
        }
      }
      SliceOfRest(file, cursor, 40, 40 + actionLen);
      SliceOfRest(file, cursor, 40 + actionLen, 40 + actionLen + payloadLen);
      ok := true;
    }

    /** Reads the entry at the cursor and moves the cursor behind it; leaves it on failure. */
    method ReadEntry() returns (r: Result<Entry>)
      modifies this`cursor
      ensures r == if old(cursor) < FILE_HEADER_SIZE then Err(TruncatedBuffer) else Decode(Rest(file, old(cursor)))
      ensures cursor == old(cursor) + if r.Ok? then EntrySize(r.value) else 0
    {
      if cursor < FILE_HEADER_SIZE {
        return Err(TruncatedBuffer);
      }
      ghost var rest := Rest(file, cursor);
      hide Decode, Sum, MagicOf, SchemaOf, ActionLen, PayloadLen, StoredSum, SequenceOf, TimeOf, WordToSigned;
      DecodeFails(rest);
      hide Rest;
      RestBounds(file, cursor);
      var header := ReadAt(ENTRY_HEADER_SIZE, cursor);
      if |header| < ENTRY_HEADER_SIZE {
        return Err(TruncatedBuffer);
      }
      FieldsOfHeader(rest, header);
      if MagicOf(header) != FILE_MAGIC {
        return Err(VersionMismatch);
      }
      if SchemaOf(header) != SCHEMA_VERSION {
        return Err(VersionMismatch);
      }
      var actionLen, payloadLen := ActionLen(header), PayloadLen(header);
      var ok, action, payload := ReadParts(actionLen, payloadLen);
      if !ok {
        return Err(TruncatedBuffer);
      }
      DecodeWhole(rest, action, payload);
      var sum := Checksum(header[..36], action, payload);
      if sum != StoredSum(header) {
        return Err(DecodeFailed);
      }
      cursor := cursor + (ENTRY_HEADER_SIZE + actionLen + payloadLen);
      r := Ok(Entry(SequenceOf(header), WordToSigned(TimeOf(header)), header[24], action, payload));
    }

    /** Walks the entry headers by their length fields, without reading the parts. */
    method ScanEntries() returns (maxSequence: u64, count: nat)
      modifies this`cursor
      ensures Scan(maxSequence, count) == ScanBytes(Body(file))
    {
      hide MagicOf, SchemaOf, ActionLen, PayloadLen, SequenceOf, ScanBytes, Rest;
      maxSequence, count, cursor := 0, 0, FILE_HEADER_SIZE;
      BodyIsRest(file);
      while cursor < |file|
        invariant cursor >= FILE_HEADER_SIZE
        invariant var s := ScanBytes(Rest(file, cursor));
                  ScanBytes(Body(file)) == Scan(Max(maxSequence, s.maxSequence), count + s.count)
        decreases |file| - cursor
      {
        ghost var rest := Rest(file, cursor);
        var header := ReadAt(ENTRY_HEADER_SIZE, cursor);
        RestBounds(file, cursor);
        ScanCases(rest);
        if |header| < ENTRY_HEADER_SIZE {
          break;
        }
        FieldsOfHeader(rest, header);
        if MagicOf(header) != FILE_MAGIC || SchemaOf(header) != SCHEMA_VERSION {
          break;
        }
        var sequence := SequenceOf(header);
        if sequence > maxSequence {
          maxSequence := sequence;
        }
        count := count + 1;
        RestStep(file, cursor, ENTRY_HEADER_SIZE + ActionLen(header) + PayloadLen(header));
        cursor := cursor + (ENTRY_HEADER_SIZE + ActionLen(header) + PayloadLen(header));
      }
      ScanCases([]);
    }

    /** Checks the file header and recomputes the counters by a scan. */
    method ReadFileHeader() returns (r: Result<u64>)
      modifies this
      ensures var (after, outcome) := ReopenStep(old(View()));
              View() == after && r == (if outcome.Opened? then Ok(outcome.next) else Err(outcome.error))
    {
      var header := ReadAt(FILE_HEADER_SIZE, 0);
      if |header| < FILE_HEADER_SIZE {
        nextSequence := 1;
        return Ok(1);
      }
      assert header[0..4] == file[0..4] && header[4..8] == file[4..8];
      if FromLE(header[0..4]) != FILE_MAGIC {
        return Err(VersionMismatch);
      }
      if FromLE(header[4..8]) != SCHEMA_VERSION {
        return Err(VersionMismatch);
      }
      sizeBytes := |file|;
      var maxSequence, count := ScanEntries();
      entryCount := count;
      var next := (maxSequence + 1) % U64;
      nextSequence := if next == 0 then 1 else next;
      cursor := FILE_HEADER_SIZE;
      return Ok(nextSequence);
    }

    /** Numbers, checks against the caps, and writes one entry; a refusal gives the number back. */
    method Append(kind: byte, action: seq<byte>, payload: seq<byte>, now: i64) returns (r: Result<u64>)
      modifies this
      ensures var (after, outcome) := AppendStep(cfg, old(View()), WalMachine.Append(kind, action, payload, now));
              View() == after && r == (if outcome.Appended? then Ok(outcome.sequence) else Err(outcome.error))
      ensures cursor == if r.Ok? then |old(file)| else old(cursor)
    {
      hide Encode;
      var e := Entry(nextSequence, now, kind, action, payload);
      nextSequence := (nextSequence + 1) % U64;
      if cfg.maxEntries > 0 && entryCount >= cfg.maxEntries {
        nextSequence := (nextSequence + U64 - 1) % U64;
        return Err(DiskFull);
      }
      if cfg.maxSizeBytes > 0 && sizeBytes + ENTRY_HEADER_SIZE + |action| + |payload| > cfg.maxSizeBytes {
        nextSequence := (nextSequence + U64 - 1) % U64;
        return Err(DiskFull);
      }
      WriteEntry(e);
      return Ok(e.sequence);
    }

    method Replay() returns (r: Result<seq<Entry>>)
      modifies this
      ensures var (after, outcome) := ReplayStep(old(View()));
              View() == after && r == (if outcome.Replayed? then Ok(outcome.entries) else Err(outcome.error))
    {
      hide Decode, Read;
      cursor := FILE_HEADER_SIZE;
      var out := [];
      BodyIsRest(file);
      while cursor < |file|
        invariant FILE_HEADER_SIZE <= cursor
        invariant View() == old(View())
        invariant var d := Read(Rest(file, cursor)); Read(Body(file)) == Delivery(out + d.entries, d.end)
        decreases |file| - cursor
      {
        ghost var rest := Rest(file, cursor);
        var e := ReadEntry();
        ReadCases(rest);
        if e.Err? {
          return Err(e.error);
        }
        ReadStep(rest, e.value, Rest(file, cursor));
        assert out + ([e.value] + Read(Rest(file, cursor)).entries)
          == (out + [e.value]) + Read(Rest(file, cursor)).entries;
        out := out + [e.value];
      }
      ReadCases([]);
      assert out + [] == out;
      entryCount := |out|;
      return Ok(out);
    }

    /** Delivers entries one at a time until the callback answers false; no callback is an invalid argument. */
    method ReplayStream(callback: Option<Entry -> bool>) returns (delivered: seq<Entry>, r: Result<()>)
      modifies this`cursor
      ensures callback.None? ==> delivered == [] && r == Err(InvalidArg)
      ensures callback.Some? ==>
                var d := ReadWhile(Body(file), callback.value);
                delivered == d.entries && r == (if d.end.Clean? then Ok(()) else Err(d.end.error))
    {
      delivered := [];
      if callback.None? {
        return delivered, Err(InvalidArg);
      }
      hide Decode, ReadWhile;
      cursor := FILE_HEADER_SIZE;
      BodyIsRest(file);
      while cursor < |file|
        invariant FILE_HEADER_SIZE <= cursor
        invariant var d := ReadWhile(Rest(file, cursor), callback.value);
                  ReadWhile(Body(file), callback.value) == Delivery(delivered + d.entries, d.end)
        decreases |file| - cursor
      {
        ghost var rest := Rest(file, cursor);
        var e := ReadEntry();
        StreamCases(rest, callback.value);
        if e.Err? {
          assert delivered + [] == delivered;
          return delivered, Err(e.error);
        }
        StreamStep(delivered, rest, Rest(file, cursor), callback.value);
        delivered := delivered + [e.value];
        if !callback.value(e.value) {
          return delivered, Ok(());
        }
      }
      StreamCases([], callback.value);
      assert delivered + [] == delivered;
      return delivered, Ok(());
    }

    /** The entries numbered keep or higher, and the file size once only they are left. */
    method CollectKept(keep: u64) returns (r: Result<seq<Entry>>, keptBytes: nat)
      modifies this`cursor
      ensures var all := Read(Body(file));
              r == if all.end.Clean? then Ok(Kept(all.entries, keep)) else Err(all.end.error)
      ensures r.Ok? ==> AllStorable(r.value) && keptBytes == FILE_HEADER_SIZE + |EncodeAll(r.value)|
    {
      hide Decode, Encode, Read, EncodeAll, Kept;
      cursor := FILE_HEADER_SIZE;
      var kept := [];
      keptBytes := FILE_HEADER_SIZE;
      EmptyEncoding();
      BodyIsRest(file);
      while cursor < |file|
        invariant FILE_HEADER_SIZE <= cursor
        invariant AllStorable(kept) && keptBytes == FILE_HEADER_SIZE + |EncodeAll(kept)|
        invariant var d, all := Read(Rest(file, cursor)), Read(Body(file));
                  all.end == d.end && Kept(all.entries, keep) == kept + Kept(d.entries, keep)
        decreases |file| - cursor
      {
        ghost var rest := Rest(file, cursor);
        var e := ReadEntry();
        ReadCases(rest);
        if e.Err? {
          return Err(e.error), 0;
        }
        ReadStep(rest, e.value, Rest(file, cursor));
        KeptSplit(e.value, Read(Rest(file, cursor)).entries, keep);
        if e.value.sequence >= keep {
          AppendedEncoding(kept, e.value);
          keptBytes := keptBytes + (ENTRY_HEADER_SIZE + |e.value.action| + |e.value.payload|);
          kept := kept + [e.value];
        }
      }
      ReadCases([]);
      KeptOfNone(keep);
      assert kept + [] == kept;
      return Ok(kept), keptBytes;
    }

    /** Rewrites the file with the entries numbered keep or higher; the next sequence number stays. */
    method Truncate(keep: u64) returns (r: Result<()>)
      modifies this
      ensures var (after, outcome) := TruncateStep(old(View()), keep);
              View() == after && r == (if outcome.Done? then Ok(()) else Err(outcome.error))
    {
      hide Encode, Read, EncodeAll, Kept;
      var collected, keptBytes := CollectKept(keep);
      if collected.Err? {
        return Err(collected.error);
      }
      var kept := collected.value;
      TruncateFile();
      EmptyEncoding();
      if kept == [] {
        entryCount, sizeBytes := 0, FILE_HEADER_SIZE;
        return Ok(());
      }
      cursor := FILE_HEADER_SIZE;
      for i := 0 to |kept|
        invariant file == HeaderPart(old(file)) + EncodeAll(kept[..i])
        invariant nextSequence == old(nextSequence)
      {
        assert kept[i] in kept;
        AppendedEncoding(kept[..i], kept[i]);
        assert kept[..i + 1] == kept[..i] + [kept[i]];
        WriteEntry(kept[i]);
      }
      assert kept[..|kept|] == kept;
      entryCount, sizeBytes := |kept|, keptBytes;
      return Ok(());
    }

    static lemma ReadCases(rest: seq<byte>)
      ensures rest == [] ==> Read(rest) == Delivery([], Clean)
      ensures rest != [] && Decode(rest).Err? ==> Read(rest) == Delivery([], Failed(Decode(rest).error))
    {
    }

    static lemma StreamStep(sofar: seq<Entry>, rest: seq<byte>, next: seq<byte>, callback: Entry -> bool)
      requires rest != [] && Decode(rest).Ok? && next == rest[EntrySize(Decode(rest).value)..]
      ensures var e, d, d' := Decode(rest).value, ReadWhile(rest, callback), ReadWhile(next, callback);
              if callback(e) then sofar + d.entries == (sofar + [e]) + d'.entries && d.end == d'.end
              else sofar + d.entries == sofar + [e] && d.end == Clean
    {
    }

    static lemma StreamCases(rest: seq<byte>, callback: Entry -> bool)
      ensures rest == [] ==> ReadWhile(rest, callback) == Delivery([], Clean)
      ensures rest != [] && Decode(rest).Err? ==> ReadWhile(rest, callback) == Delivery([], Failed(Decode(rest).error))
    {
    }

    static lemma KeptOfNone(keep: u64)
      ensures Kept([], keep) == []
    {
    }

    static lemma KeptSplit(e: Entry, rest: seq<Entry>, keep: u64)
      ensures Kept([e] + rest, keep) == (if e.sequence >= keep then [e] else []) + Kept(rest, keep)
    {
      assert ([e] + rest)[1..] == rest;
    }

    method TruncateAll()
      modifies this
      ensures View() == TruncateAllStep(old(View())).0
    {
      TruncateFile();
      cursor := FILE_HEADER_SIZE;
      entryCount, sizeBytes := 0, FILE_HEADER_SIZE;
    }
  }
}
