/**
 What the bytes of a write-ahead log file mean: reading entries in order, scanning headers on open,
 and what happens to both when the file is cut or one byte is corrupted.
 */
module WalLog {
  import opened Bytes
  import opened WalCodec

  /** How a pass over the file ended. */
  datatype End = Clean | Failed(error: Error)

  /** The entries a pass delivers, in order, and how it ended. */
  datatype Delivery = Delivery(entries: seq<Entry>, end: End)

  /** Reading entries from the front of `rest` until it is used up or one cannot be read. */
  function Read(rest: seq<byte>): Delivery
    decreases |rest|
  {
    if rest == [] then Delivery([], Clean)
    else match Decode(rest)
      case Err(error) => Delivery([], Failed(error))
      case Ok(e) =>
        var d := Read(rest[EntrySize(e)..]);
        Delivery([e] + d.entries, d.end)
  }

  /** Reading that also stops, cleanly, at the first entry the callback answers false to. */
  function ReadWhile(rest: seq<byte>, callback: Entry -> bool): Delivery
    decreases |rest|
  {
    if rest == [] then Delivery([], Clean)
    else match Decode(rest)
      case Err(error) => Delivery([], Failed(error))
      case Ok(e) =>
        if !callback(e) then Delivery([e], Clean)
        else
          var d := ReadWhile(rest[EntrySize(e)..], callback);
          Delivery([e] + d.entries, d.end)
  }

  /** Index of the first entry the callback refuses, or the number of entries. */
  function FirstRefused(entries: seq<Entry>, callback: Entry -> bool): (n: nat)
    ensures n <= |entries|
  {
    if entries == [] || !callback(entries[0]) then 0 else 1 + FirstRefused(entries[1..], callback)
  }

  /**
   A streamed replay delivers what a full read would, up to and including the first entry the callback refuses;
   with an always-true callback it is the full read.
   */
  lemma {:induction false} StreamIsPrefixOfRead(rest: seq<byte>, callback: Entry -> bool)
    ensures var full, n := Read(rest), FirstRefused(Read(rest).entries, callback);
            ReadWhile(rest, callback)
              == if n == |full.entries| then full else Delivery(full.entries[..n + 1], Clean)
    decreases |rest|
  {
    hide Decode;
    if rest != [] && Decode(rest).Ok? {
      var e := Decode(rest).value;
      var next := rest[EntrySize(e)..];
      StreamIsPrefixOfRead(next, callback);
      ReadStep(rest, e, next);
      hide Read;
      ConsRefused(e, Read(next).entries, callback);
    }
  }

  /** An entry in front of others: either it is the first one refused, or all others move back by one. */
  lemma ConsRefused(e: Entry, rest: seq<Entry>, callback: Entry -> bool)
    ensures var all, n := [e] + rest, FirstRefused(rest, callback);
            && FirstRefused(all, callback) == (if callback(e) then n + 1 else 0)
            && all[..1] == [e] && (n < |rest| ==> all[..n + 2] == [e] + rest[..n + 1])
  {
    assert ([e] + rest)[1..] == rest;
  }

  /** Highest sequence number and number of the entry headers found by walking the length fields. */
  datatype Scan = Scan(maxSequence: u64, count: nat)

  function Max(a: u64, b: u64): u64 {
    if a > b then a else b
  }

  /** The scan on open: checks magic and schema only, and stops at the first header that does not fit. */
  function ScanBytes(rest: seq<byte>): Scan
    decreases |rest|
  {
    if |rest| < ENTRY_HEADER_SIZE || MagicOf(rest) != FILE_MAGIC || SchemaOf(rest) != SCHEMA_VERSION then Scan(0, 0)
    else
      var skip := 40 + ActionLen(rest) + PayloadLen(rest);
      var s := ScanBytes(if skip <= |rest| then rest[skip..] else []);
      Scan(Max(SequenceOf(rest), s.maxSequence), s.count + 1)
  }

  function MaxSequence(log: seq<Entry>): u64 {
    if log == [] then 0 else Max(log[0].sequence, MaxSequence(log[1..]))
  }

  predicate AllStorable(log: seq<Entry>) {
    forall e | e in log :: Storable(e)
  }

  // ---------- what was written ----------

  lemma {:induction false} EncodeAllConcat(a: seq<Entry>, b: seq<Entry>)
    ensures EncodeAll(a + b) == EncodeAll(a) + EncodeAll(b)
  {
    if a == [] {
      assert a + b == b;
    } else {
      assert (a + b)[0] == a[0] && (a + b)[1..] == a[1..] + b;
      EncodeAllConcat(a[1..], b);
    }
  }

  lemma AppendedEncoding(log: seq<Entry>, e: Entry)
    requires Storable(e)
    ensures EncodeAll(log + [e]) == EncodeAll(log) + Encode(e)
    ensures |Encode(e)| == ENTRY_HEADER_SIZE + |e.action| + |e.payload|
  {
    hide Encode, Clip;
    EncodeAllConcat(log, [e]);
    assert EncodeAll([e]) == Encode(e) + EncodeAll([]);
    ClipOfStorable(e);
  }

  /** The first of several written entries is read back, and the others follow it. */
  lemma FirstWritten(log: seq<Entry>, tail: seq<byte>)
    requires log != [] && Storable(log[0])
    ensures var all, rest := EncodeAll(log) + tail, EncodeAll(log[1..]) + tail;
            && Decode(all) == Ok(log[0]) && all[EntrySize(log[0])..] == rest
            && all == Encode(log[0]) + rest && |Encode(log[0])| == EntrySize(log[0])
  {
    hide Encode, Decode, Clip;
    var e, rest := log[0], EncodeAll(log[1..]) + tail;
    assert EncodeAll(log) + tail == Encode(e) + rest;
    DecodeOfEncode(e, rest);
    ClipOfStorable(e);
  }

  /** Written entries are delivered in order, followed by whatever the bytes after them deliver. */
  lemma {:induction false} ReadWritten(log: seq<Entry>, tail: seq<byte>)
    requires AllStorable(log)
    ensures Read(EncodeAll(log) + tail) == Delivery(log + Read(tail).entries, Read(tail).end)
    decreases |log|
  {
    hide Decode, Read, EncodeAll;
    var behind := Read(tail);
    if log == [] {
      NothingWritten(tail);
      assert log + behind.entries == behind.entries;
    } else {
      FirstWritten(log, tail);
      ReadWritten(log[1..], tail);
      ReadStep(EncodeAll(log) + tail, log[0], EncodeAll(log[1..]) + tail);
      ConsAppend(log, behind.entries);
    }
  }

  lemma NothingWritten(tail: seq<byte>)
    ensures EncodeAll([]) + tail == tail
  {
  }

  lemma ConsAppend(log: seq<Entry>, more: seq<Entry>)
    requires log != []
    ensures [log[0]] + (log[1..] + more) == log + more
  {
  }

  lemma ReadStep(all: seq<byte>, e: Entry, rest: seq<byte>)
    requires Decode(all) == Ok(e) && all[EntrySize(e)..] == rest
    ensures Read(all) == Delivery([e] + Read(rest).entries, Read(rest).end)
  {
  }

  /** The scan of written bytes finds every entry and carries on behind them. */
  lemma {:induction false} ScanWritten(log: seq<Entry>, tail: seq<byte>)
    requires AllStorable(log)
    ensures ScanBytes(EncodeAll(log) + tail)
         == Scan(Max(MaxSequence(log), ScanBytes(tail).maxSequence), |log| + ScanBytes(tail).count)
    decreases |log|
  {
    hide Encode, HeaderBody, Decode, Clip;
    if log == [] {
      assert EncodeAll(log) + tail == tail;
    } else {
      var e, rest := log[0], EncodeAll(log[1..]) + tail;
      FirstWritten(log, tail);
      EncodeParts(e, rest);
      ClipOfStorable(e);
      hide EncodeAll;
      HeaderFields(e, Encode(e) + rest);
      ScanWritten(log[1..], tail);
      ScanStep(Encode(e) + rest, e, rest);
    }
  }

  lemma ScanStep(all: seq<byte>, e: Entry, rest: seq<byte>)
    requires |all| >= EntrySize(e) && all[EntrySize(e)..] == rest
    requires MagicOf(all) == FILE_MAGIC && SchemaOf(all) == SCHEMA_VERSION && SequenceOf(all) == e.sequence
    requires ActionLen(all) == |e.action| && PayloadLen(all) == |e.payload|
    ensures ScanBytes(all) == Scan(Max(e.sequence, ScanBytes(rest).maxSequence), ScanBytes(rest).count + 1)
  {
    hide MagicOf, SchemaOf, SequenceOf, ActionLen, PayloadLen;
  }

  // ---------- arbitrary bytes ----------

  /** In any file at all, the scan's maximum is at least every sequence number a replay can deliver. */
  lemma {:induction false} ScanCoversRead(rest: seq<byte>)
    ensures forall e | e in Read(rest).entries :: e.sequence <= ScanBytes(rest).maxSequence
    ensures |Read(rest).entries| <= ScanBytes(rest).count
    decreases |rest|
  {
    if rest != [] && Decode(rest).Ok? {
      var e := Decode(rest).value;
      var next := rest[EntrySize(e)..];
      ReadStep(rest, e, next);
      ScanStep(rest, e, next);
      ScanCoversRead(next);
    }
  }

  /** In any file at all, writing back what a clean read delivered gives bytes that read the same. */
  lemma RewriteReads(log: seq<Entry>)
    requires AllStorable(log)
    ensures Read(EncodeAll(log)) == Delivery(log, Clean)
  {
    ReadWritten(log, []);
    assert EncodeAll(log) + [] == EncodeAll(log) && log + [] == log;
  }

  lemma {:induction false} ReadIsStorable(rest: seq<byte>)
    ensures AllStorable(Read(rest).entries)
    decreases |rest|
  {
    if rest != [] && Decode(rest).Ok? {
      ReadIsStorable(rest[EntrySize(Decode(rest).value)..]);
    }
  }

  // ---------- a cut log ----------

  /** File offset, behind the file header, at which entry n starts. */
  function Offset(log: seq<Entry>, n: nat): nat
    requires n <= |log|
  {
    |EncodeAll(log[..n])|
  }

  /** The entries of log that lie wholly inside the first c bytes. */
  function WholeEntries(log: seq<Entry>, c: nat): (n: nat)
    ensures n <= |log|
  {
    if log == [] || c < |Encode(log[0])| then 0 else 1 + WholeEntries(log[1..], c - |Encode(log[0])|)
  }

  /** WholeEntries is the number of the last entry boundary at or before c. */
  lemma {:induction false} WholeEntriesBoundary(log: seq<Entry>, c: nat)
    ensures var n := WholeEntries(log, c);
            && Offset(log, n) <= c
            && (n < |log| ==> c < Offset(log, n + 1))
    decreases |log|
  {
    hide Encode, HeaderBody, Decode, Clip;
    var n := WholeEntries(log, c);
    if log != [] {
      assert EncodeAll(log[..1]) == Encode(log[0]);
      if n > 0 {
        WholeEntriesBoundary(log[1..], c - |Encode(log[0])|);
        OffsetOfTail(log, n);
        if n < |log| {
          OffsetOfTail(log, n + 1);
        }
      }
    }
  }

  lemma OffsetOfTail(log: seq<Entry>, n: nat)
    requires 0 < n <= |log|
    ensures Offset(log, n) == |Encode(log[0])| + Offset(log[1..], n - 1)
  {
    assert log[..n][0] == log[0] && log[..n][1..] == log[1..][..n - 1];
  }

  lemma SplitAtEntry(log: seq<Entry>, n: nat)
    requires n < |log|
    ensures EncodeAll(log) == EncodeAll(log[..n]) + (Encode(log[n]) + EncodeAll(log[n + 1..]))
    ensures Offset(log, n + 1) == Offset(log, n) + |Encode(log[n])|
  {
    hide Encode, HeaderBody, Decode, Clip;
    assert log == log[..n] + log[n..];
    EncodeAllConcat(log[..n], log[n..]);
    assert log[n..][0] == log[n] && log[n..][1..] == log[n + 1..];
    assert log[..n + 1] == log[..n] + [log[n]];
    EncodeAllConcat(log[..n], [log[n]]);
    assert EncodeAll([log[n]]) == Encode(log[n]);
  }

  /** The bytes before a cut are whole encodings and a strict prefix of the next one. */
  lemma CutShape(log: seq<Entry>, c: nat) returns (torn: seq<byte>)
    requires c <= |EncodeAll(log)|
    ensures var n := WholeEntries(log, c);
            && Offset(log, n) <= c && |torn| == c - Offset(log, n)
            && EncodeAll(log)[..c] == EncodeAll(log[..n]) + torn
            && (n == |log| ==> torn == [])
            && (n < |log| ==> |torn| < |Encode(log[n])| && torn == Encode(log[n])[..|torn|])
  {
    hide Encode, HeaderBody, Decode, Clip;
    var n := WholeEntries(log, c);
    WholeEntriesBoundary(log, c);
    if n < |log| {
      SplitAtEntry(log, n);
      torn := Encode(log[n])[..c - Offset(log, n)];
    } else {
      assert log[..n] == log;
      torn := [];
    }
  }

  /**
   Crash safety: a log cut at any byte delivers exactly its whole entries, in order, and ends cleanly exactly
   when the cut is on an entry boundary.
   */
  lemma ReadOfCut(log: seq<Entry>, c: nat)
    requires AllStorable(log) && c <= |EncodeAll(log)|
    ensures var d, n := Read(EncodeAll(log)[..c]), WholeEntries(log, c);
            && d.entries == log[..n]
            && d.end == (if c == Offset(log, n) then Clean else Failed(TruncatedBuffer))
  {
    hide Encode, HeaderBody, Decode, Clip;
    var n := WholeEntries(log, c);
    var torn := CutShape(log, c);
    ReadWritten(log[..n], torn);
    assert log[..n] + [] == log[..n];
    if torn != [] {
      DecodeOfCut(log[n], |torn|);
    }
  }

  /** The entries whose headers lie wholly inside the first c bytes: the whole ones and at most one more. */
  function WholeHeaders(log: seq<Entry>, c: nat): (h: nat)
    ensures WholeEntries(log, c) <= h <= |log|
  {
    var n := WholeEntries(log, c);
    if n < |log| && Offset(log, n) + ENTRY_HEADER_SIZE <= c then n + 1 else n
  }

  /** The scan of a cut log counts exactly the entries whose headers are whole, and finds their maximum. */
  lemma ScanOfCut(log: seq<Entry>, c: nat)
    requires AllStorable(log) && c <= |EncodeAll(log)|
    ensures var h := WholeHeaders(log, c);
            ScanBytes(EncodeAll(log)[..c]) == Scan(MaxSequence(log[..h]), h)
  {
    hide Encode, HeaderBody, Decode, Clip, EncodeAll, ScanBytes, MaxSequence;
    var n := WholeEntries(log, c);
    var torn := CutShape(log, c);
    ScanWritten(log[..n], torn);
    hide WholeEntries, Offset;
    if |torn| >= ENTRY_HEADER_SIZE {
      ScanOfTorn(log[n], torn);
      assert log[..n + 1] == log[..n] + [log[n]];
      MaxSequenceAppend(log[..n], log[n]);
    } else {
      ScanOfFewBytes(torn);
    }
  }

  lemma ScanOfFewBytes(rest: seq<byte>)
    requires |rest| < ENTRY_HEADER_SIZE
    ensures ScanBytes(rest) == Scan(0, 0)
  {
  }

  /** The header of a torn entry is counted, and nothing behind it. */
  lemma ScanOfTorn(e: Entry, torn: seq<byte>)
    requires ENTRY_HEADER_SIZE <= |torn| < |Encode(e)| && torn == Encode(e)[..|torn|]
    ensures ScanBytes(torn) == Scan(e.sequence, 1)
  {
    TornHeader(e, torn);
    hide Encode, HeaderBody, Clip, MagicOf, SchemaOf, SequenceOf, ActionLen, PayloadLen;
    ScanLast(torn);
  }

  lemma TornHeader(e: Entry, torn: seq<byte>)
    requires ENTRY_HEADER_SIZE <= |torn| < |Encode(e)| && torn == Encode(e)[..|torn|]
    ensures MagicOf(torn) == FILE_MAGIC && SchemaOf(torn) == SCHEMA_VERSION && SequenceOf(torn) == e.sequence
    ensures |torn| < 40 + ActionLen(torn) + PayloadLen(torn)
  {
    assert torn[..36] == Encode(e)[..36] == HeaderBody(e);
    hide Encode, HeaderBody, Clip, MagicOf, SchemaOf, SequenceOf, ActionLen, PayloadLen;
    HeaderFields(e, torn);
  }

  lemma ScanLast(torn: seq<byte>)
    requires ENTRY_HEADER_SIZE <= |torn| < 40 + ActionLen(torn) + PayloadLen(torn)
    requires MagicOf(torn) == FILE_MAGIC && SchemaOf(torn) == SCHEMA_VERSION
    ensures ScanBytes(torn) == Scan(SequenceOf(torn), 1)
  {
    hide MagicOf, SchemaOf, SequenceOf, ActionLen, PayloadLen;
    assert ScanBytes([]) == Scan(0, 0);
  }

  lemma {:induction false} MaxSequenceAppend(log: seq<Entry>, e: Entry)
    ensures MaxSequence(log + [e]) == Max(MaxSequence(log), e.sequence)
  {
    if log == [] {
      assert [e][1..] == [] && MaxSequence([]) == 0;
    } else {
      assert (log + [e])[0] == log[0] && (log + [e])[1..] == log[1..] + [e];
      MaxSequenceAppend(log[1..], e);
    }
  }

  lemma UpdateMiddle(pre: seq<byte>, mid: seq<byte>, post: seq<byte>, i: nat, b: byte)
    requires i < |mid|
    ensures (pre + (mid + post))[|pre| + i := b] == pre + (mid[i := b] + post)
  {
  }

  lemma ReadCorruptTail(e: Entry, post: seq<byte>, i: nat, b: byte)
    requires i < |Encode(e)| && b != Encode(e)[i] && Checked(i)
    ensures Read(Encode(e)[i := b] + post) == Delivery([], Failed(DecodeFailed))
  {
    hide Encode, HeaderBody, Decode, Clip;
    CorruptionCaught(e, post, i, b);
  }

  /**
   Corruption safety: after one checked byte of entry n changes, a replay delivers exactly the entries
   before it and then reports the decoding failure.
   */
  lemma ReadOfCorrupted(log: seq<Entry>, n: nat, i: nat, b: byte)
    requires AllStorable(log) && n < |log| && i < |Encode(log[n])| && b != Encode(log[n])[i] && Checked(i)
    ensures var p := Offset(log, n) + i;
            p < |EncodeAll(log)| && Read(EncodeAll(log)[p := b]) == Delivery(log[..n], Failed(DecodeFailed))
  {
    hide Encode, HeaderBody, Decode, Clip, Read;
    var e, post := log[n], EncodeAll(log[n + 1..]);
    var tail, p := Encode(e)[i := b] + post, Offset(log, n) + i;
    SplitAtEntry(log, n);
    UpdateMiddle(EncodeAll(log[..n]), Encode(e), post, i, b);
    hide EncodeAll;
    ReadCorruptTail(e, post, i, b);
    ReadWritten(log[..n], tail);
    assert log[..n] + [] == log[..n];
  }
}
