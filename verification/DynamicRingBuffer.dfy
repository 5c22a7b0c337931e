/**
 The ring with a run-time capacity. Unlike RingBuffer it copies the four header bytes in one piece, so a header
 must not cross the edge of the storage.
 */
module DynamicRingBuffers {
  import opened Bytes
  import opened Ring

  /** The header at a position lies in one piece. */
  predicate Unsplit(pos: nat, cap: nat)
    requires cap > 0
  {
    pos % cap + HEADER_BYTES <= cap
  }

  predicate AllAligned(records: seq<seq<byte>>) {
    forall r | r in records :: |r| % 4 == 0
  }

  /** Everything on four-byte boundaries. */
  predicate AlignedFrom(tail: u64, records: seq<seq<byte>>) {
    tail % 4 == 0 && AllAligned(records)
  }

  /** The position behind all these records, written since construction. */
  predicate Behind(pos: u64, records: seq<seq<byte>>) {
    pos == |Flatten(records)| % U64
  }

  /** A ring as its callers know it: every record read so far, and every record still queued. */
  datatype Queue = Queue(taken: seq<seq<byte>>, queued: seq<seq<byte>>)

  datatype Call = WriteCall(data: seq<byte>) | ReadCall(room: nat)

  /** The call succeeds: the record and its header fit into the free space, or into the caller's buffer. */
  predicate Succeeds(q: Queue, call: Call, cap: nat) {
    match call
    case WriteCall(data) => |Flatten(q.queued)| + HEADER_BYTES + |data| <= cap
    case ReadCall(room) => q.queued != [] && |q.queued[0]| <= room
  }

  function After(q: Queue, call: Call, cap: nat): Queue {
    if !Succeeds(q, call, cap) then q
    else match call
      case WriteCall(data) => q.(queued := q.queued + [data])
      case ReadCall(_) => Queue(q.taken + [q.queued[0]], q.queued[1..])
  }

  /**
   The header that the call copies, if it copies one, lies in one piece. It starts behind all bytes written since
   construction, or read since construction.
   */
  predicate HeaderInBounds(q: Queue, call: Call, cap: nat)
    requires cap > 0
  {
    match call
    case WriteCall(_) => Succeeds(q, call, cap) ==> |Flatten(q.taken + q.queued)| % cap + HEADER_BYTES <= cap
    case ReadCall(_) => q.queued != [] ==> |Flatten(q.taken)| % cap + HEADER_BYTES <= cap
  }

  class DynamicRingBuffer {
    const capacity: nat
    const storage: array<byte>
    var head: u64
    var tail: u64
    ghost var taken: seq<seq<byte>>
    ghost var records: seq<seq<byte>>

    ghost function View(): Queue
      reads this
    {
      Queue(taken, records)
    }

    ghost predicate Valid()
      reads this, storage
    {
      && storage.Length == capacity && Queued(storage[..], head, tail, records)
      && Behind(tail, taken)
    }

    /** The documented layout invariant: everything lies on four-byte boundaries. */
    ghost predicate Aligned()
      reads this
    {
      AlignedFrom(tail, records)
    }

    constructor (capacity: nat)
      requires IsCapacity(capacity)
      ensures Valid() && Aligned() && fresh(storage) && this.capacity == capacity && View() == Queue([], [])
      ensures head == tail == 0
    {
      this.capacity := capacity;
      storage := new byte[capacity](_ => 0);
      head, tail := 0, 0;
      taken, records := [], [];
      new;
      EmptyQueued(storage[..], 0);
    }

    /** Head and tail point behind the bytes written and read since construction, however often they overflowed. */
    lemma HeaderPositions()
      requires Valid()
      ensures Unsplit(head, capacity) <==> |Flatten(taken + records)| % capacity + HEADER_BYTES <= capacity
      ensures Unsplit(tail, capacity) <==> |Flatten(taken)| % capacity + HEADER_BYTES <= capacity
    {
      CapacityFacts(capacity, tail);
      FlattenConcat(taken, records);
      hide Flatten, Holds, Index, IsCapacity;
      PositionsWrap(capacity, head, tail, |Flatten(taken)|, |Flatten(records)|);
    }

    /** In an aligned ring both the next header to write and the next one to read lie in one piece. */
    lemma AlignedHeadersAreUnsplit()
      requires Valid() && Aligned()
      ensures Unsplit(head, capacity) && Unsplit(tail, capacity)
    {
      CapacityFacts(capacity, tail);
      AlignedLength(records);
      hide Flatten, Holds, Index;
      AlignedIsUnsplit(tail, capacity);
      assert head % 4 == 0 by {
        WrapKeepsAlignment(tail, |Flatten(records)|);
      }
      AlignedIsUnsplit(head, capacity);
    }

    /** memcpy into the storage, in one piece. */
    method CopyIn(at: nat, src: seq<byte>)
      requires at + |src| <= storage.Length
      modifies storage
      ensures storage[..] == old(storage[..])[..at] + src + old(storage[..])[at + |src|..]
    {
      forall i | 0 <= i < |src| {
        storage[at + i] := src[i];
      }
    }

    /** Copies the record's bytes behind the header cell, in two pieces when they cross the edge. */
    method CopyData(dataPos: nat, data: seq<byte>)
      requires dataPos < storage.Length && |data| <= storage.Length
      modifies storage
      ensures Written(old(storage[..]), storage[..], dataPos, data)
    {
      ghost var before := storage[..];
      if dataPos + |data| <= storage.Length {
        CopyIn(dataPos, data);
        OnePieceWritten(before, storage[..], dataPos, data);
      } else {
        var first := storage.Length - dataPos;
        CopyIn(dataPos, data[..first]);
        ghost var mid := storage[..];
        CopyIn(0, data[first..]);
        TwoPiecesWritten(before, mid, storage[..], dataPos, data);
      }
    }

    /** Copies header and data of one record behind the live bytes. */
    method StoreFrame(data: seq<byte>)
      requires Valid() && Unsplit(head, capacity) && |Flatten(records)| + HEADER_BYTES + |data| <= capacity
      modifies storage
      ensures Queued(storage[..], (head + HEADER_BYTES + |data|) % U64, tail, records + [data])
    {
      hide LE, Flatten, And, Written, Index, Holds, Counted, IsCapacity;
      ghost var s0 := storage[..];
      DataCell(head, capacity);
      var idx := Index(head, capacity);
      var header: seq<byte> := LE(|data|, 4);
      CopyIn(idx, header);
      ghost var s1 := storage[..];
      OnePieceWritten(s0, s1, idx, header);
      var dataPos := Index((idx + HEADER_BYTES) % U64, capacity);
      CopyData(dataPos, data);
      PushQueued(s0, s1, storage[..], head, tail, records, data);
    }

    /**
     Same results as the fixed-capacity ring, and every copy is in bounds, unless the record is accepted and its
     header would cross the edge; records of aligned length keep the ring aligned.
     */
    method Write(data: seq<byte>) returns (r: Result<()>)
      requires Valid() && HeaderInBounds(View(), WriteCall(data), capacity)
      modifies this, storage
      ensures Valid() && View() == After(old(View()), WriteCall(data), capacity)
      ensures r == if |data| > capacity - HEADER_BYTES then Err(PayloadTooLarge)
                   else if |Flatten(old(records))| + HEADER_BYTES + |data| > capacity then Err(MemoryExhausted)
                   else Ok(())
      ensures r.Ok? ==> records == old(records) + [data] && tail == old(tail)
      ensures r.Err? ==> unchanged(this) && unchanged(storage)
      ensures old(Aligned()) && |data| % 4 == 0 ==> Aligned()
    {
      UsedBytes(storage[..], head, tail, records);
      if |data| > capacity - HEADER_BYTES {
        return Err(PayloadTooLarge);
      }
      var need := HEADER_BYTES + |data|;
      var h, t := head, tail;
      if capacity - (h + U64 - t) % U64 < need {
        return Err(MemoryExhausted);
      }
      HeaderPositions();
      StoreFrame(data);
      hide Queued;
      head := (h + need) % U64;
      records := records + [data];
      r := Ok(());
    }

    /** Same results as the fixed-capacity ring, unless there is a record and its header crosses the edge. */
    method Read(out: array<byte>) returns (r: Result<nat>)
      requires Valid() && HeaderInBounds(View(), ReadCall(out.Length), capacity) && out != storage
      modifies this, out
      ensures Valid() && View() == After(old(View()), ReadCall(out.Length), capacity)
      ensures r == if old(records) == [] then Err(MemoryExhausted)
                   else if out.Length < |old(records)[0]| then Err(TruncatedBuffer)
                   else Ok(|old(records)[0]|)
      ensures r.Ok? ==> records == old(records)[1..] && head == old(head)
      ensures r.Ok? ==> out[..r.value] == old(records)[0] && out[r.value..] == old(out[r.value..])
      ensures r.Err? ==> unchanged(this) && unchanged(out)
      ensures old(Aligned()) ==> Aligned()
    {
      UsedBytes(storage[..], head, tail, records);
      if head == tail {
        return Err(MemoryExhausted);
      }
      HeaderPositions();
      DataCell(tail, capacity);
      var idx := Index(tail, capacity);
      var header := storage[idx..idx + HEADER_BYTES];
      HeaderQueued(storage[..], head, tail, records, header);
      var len := FromLE(header);
      if out.Length < len {
        return Err(TruncatedBuffer);
      }
      Deliver(out, len);
      r := Ok(len);
    }

    /** The bytes from a cell on, in two pieces when they cross the edge. */
    method ReadData(dataPos: nat, len: nat) returns (body: seq<byte>)
      requires dataPos < storage.Length && len <= storage.Length
      ensures |body| == len && Holds(storage[..], dataPos, body)
    {
      if dataPos + len <= storage.Length {
        body := storage[dataPos..dataPos + len];
      } else {
        var first := storage.Length - dataPos;
        body := storage[dataPos..] + storage[..len - first];
      }
    }

    /** Copies out the oldest record and moves the tail behind it. */
    method Deliver(out: array<byte>, len: nat)
      requires Valid() && out != storage && records != [] && len == |records[0]| <= out.Length
      modifies this`tail, this`taken, this`records, out
      ensures Valid() && records == old(records)[1..] && taken == old(taken) + [old(records)[0]]
      ensures out[..len] == old(records)[0] && out[len..] == old(out[len..])
      ensures old(Aligned()) ==> Aligned()
    {
      hide Queued, Holds, Flatten, AlignedFrom, Behind, Index, IsCapacity;
      QueuedFacts(storage[..], head, tail, records);
      StaysAligned(tail, records);
      TakenBytes(taken, records[0], tail);
      CapacityFacts(capacity, (tail + HEADER_BYTES) % U64);
      ghost var s := storage[..];
      var dataPos := Index((tail + HEADER_BYTES) % U64, capacity);
      var body := ReadData(dataPos, len);
      PopQueued(s, head, tail, records, body);
      CopyOut(out, body);
      assert storage[..] == s;
      tail := (tail + HEADER_BYTES + len) % U64;
      taken, records := taken + [records[0]], records[1..];
    }
  }

  /** The cell of a wrapped position is that of the unwrapped one. */
  lemma PositionsWrap(cap: nat, head: u64, tail: u64, n: nat, m: nat)
    requires cap > 0 && U64 % cap == 0
    requires tail == n % U64 && head == (tail + m) % U64
    ensures tail % cap == n % cap && head % cap == (n + m) % cap
  {
    AdvanceTwice(0, n, m);
    ModOfMod(n, cap);
    ModOfMod(n + m, cap);
  }

  lemma TakenBytes(taken: seq<seq<byte>>, record: seq<byte>, tail: u64)
    requires Behind(tail, taken)
    ensures Behind((tail + HEADER_BYTES + |record|) % U64, taken + [record])
  {
    FlattenAppend(taken, record);
    hide Flatten, Frame;
    AdvanceTwice(0, |Flatten(taken)|, HEADER_BYTES + |record|);
  }

  /** A copy in one piece writes its bytes and nothing else. */
  lemma OnePieceWritten(before: seq<byte>, after: seq<byte>, at: nat, bytes: seq<byte>)
    requires at < |before| && at + |bytes| <= |before|
    requires after == before[..at] + bytes + before[at + |bytes|..]
    ensures Written(before, after, at, bytes)
  {
  }

  /** So do a copy up to the edge and a copy of the rest from the first cell on. */
  lemma TwoPiecesWritten(before: seq<byte>, mid: seq<byte>, after: seq<byte>, at: nat, bytes: seq<byte>)
    requires at < |before| < at + |bytes| && |bytes| <= |before|
    requires mid == before[..at] + bytes[..|before| - at] + before[|before|..]
    requires after == mid[..0] + bytes[|before| - at..] + mid[at + |bytes| - |before|..]
    ensures Written(before, after, at, bytes)
  {
    var first, cap := |before| - at, |before|;
    forall i | 0 <= i < cap
      ensures after[Cell(at, i, cap)] == if i < |bytes| then bytes[i] else before[Cell(at, i, cap)]
    {
      if i < first {
        assert after[at + i] == mid[at + i] == bytes[i];
      } else if i < |bytes| {
        assert after[i - first] == bytes[i];
      } else {
        assert after[i - first] == mid[i - first] == before[i - first];
      }
    }
  }

  /** With an unsplit header the data cell is the one behind it, found by masking. */
  lemma DataCell(pos: u64, cap: nat)
    requires IsCapacity(cap) && cap > 0 && Unsplit(pos, cap)
    ensures Index(pos, cap) == pos % cap && pos % cap + HEADER_BYTES <= cap
    ensures Index((pos % cap + HEADER_BYTES) % U64, cap) == (pos + HEADER_BYTES) % U64 % cap
  {
    CapacityFacts(cap, pos);
    hide And;
    var idx := pos % cap;
    CapacityFacts(cap, (idx + HEADER_BYTES) % U64);
    Advance(idx, HEADER_BYTES, cap);
    Advance(pos, HEADER_BYTES, cap);
    DivModUnique(idx, cap, 0, idx);
  }

  lemma AlignedIsUnsplit(pos: nat, cap: nat)
    requires 4 <= cap && cap % 4 == 0 && pos % 4 == 0
    ensures Unsplit(pos, cap)
  {
    var q, r := pos / cap, pos % cap;
    var w := cap / 4;
    assert pos == q * cap + r && cap == 4 * w;
    MulAssoc(q, w, 4);
    assert r == 4 * (pos / 4 - q * w);
  }

  lemma {:induction false} AlignedLength(records: seq<seq<byte>>)
    requires AllAligned(records)
    ensures |Flatten(records)| % 4 == 0
  {
    if records != [] {
      AlignedLength(records[1..]);
      var n, m := |records[0]|, |Flatten(records[1..])|;
      hide Frame;
      assert |Flatten(records)| == 4 + n + m;
      hide Flatten;
      AlignedSum(n, m);
    }
  }

  lemma AlignedSum(n: nat, m: nat)
    requires n % 4 == 0 && m % 4 == 0
    ensures (4 + n + m) % 4 == 0
  {
  }

  /** Moving an aligned tail behind an aligned record keeps the ring aligned. */
  lemma StaysAligned(tail: u64, records: seq<seq<byte>>)
    requires records != []
    ensures AlignedFrom(tail, records) ==> AlignedFrom((tail + HEADER_BYTES + |records[0]|) % U64, records[1..])
  {
    if tail % 4 == 0 && AllAligned(records) {
      var n := |records[0]|;
      assert records[0] in records;
      assert n % 4 == 0;
      AlignedSum(n, 0);
      WrapKeepsAlignment(tail, HEADER_BYTES + n);
    }
  }

  lemma WrapKeepsAlignment(pos: u64, n: nat)
    ensures pos % 4 == 0 && n % 4 == 0 ==> (pos + n) % U64 % 4 == 0
  {
    ModOfMod(pos + n, 4);
  }

  // ---------- which runs keep their headers in one piece ----------

  ghost predicate RunInBounds(q: Queue, calls: seq<Call>, cap: nat)
    requires cap > 0
    decreases calls
  {
    calls != [] ==> HeaderInBounds(q, calls[0], cap) && RunInBounds(After(q, calls[0], cap), calls[1..], cap)
  }

  ghost predicate WritesLengths(calls: seq<Call>, lengths: iset<nat>) {
    forall c | c in calls && c.WriteCall? :: |c.data| in lengths
  }

  /**
   Programs that write records of the given lengths never copy a header across the edge, in whatever order they
   write and read, exactly when every length that fits into the ring at all is a multiple of four.
   */
  lemma HeadersInBoundsIff(cap: nat, lengths: iset<nat>)
    requires IsCapacity(cap)
    ensures cap > 0
    ensures (forall calls | WritesLengths(calls, lengths) :: RunInBounds(Queue([], []), calls, cap))
       <==> (forall n | n in lengths && HEADER_BYTES + n <= cap :: n % 4 == 0)
  {
    CapacityFacts(cap, 0);
    hide IsCapacity, Index;
    if forall n | n in lengths && HEADER_BYTES + n <= cap :: n % 4 == 0 {
      forall calls | WritesLengths(calls, lengths)
        ensures RunInBounds(Queue([], []), calls, cap)
      {
        AlignedRun(Queue([], []), calls, cap, lengths);
      }
    } else {
      var n :| n in lengths && HEADER_BYTES + n <= cap && n % 4 != 0;
      var record: seq<byte> := seq(n, _ => 0);
      var i := SplitPosition(n, cap);
      var calls := PingPong(record, i) + [WriteCall(record)];
      assert WritesLengths(calls, lengths);
      if RunInBounds(Queue([], []), calls, cap) {
        PingPongEnd(Queue([], []), record, i, cap);
      }
    }
  }

  /** For records of one length that fits: all headers are in bounds exactly when the length is a multiple of four. */
  lemma OneLengthInBoundsIff(cap: nat, n: nat)
    requires IsCapacity(cap) && HEADER_BYTES + n <= cap
    ensures (forall calls | WritesLengths(calls, iset{n}) :: RunInBounds(Queue([], []), calls, cap)) <==> n % 4 == 0
  {
    HeadersInBoundsIff(cap, iset{n});
    assert n in iset{n};
  }

  lemma {:induction false} AlignedRun(q: Queue, calls: seq<Call>, cap: nat, lengths: iset<nat>)
    requires 4 <= cap && cap % 4 == 0 && WritesLengths(calls, lengths)
    requires forall n | n in lengths && HEADER_BYTES + n <= cap :: n % 4 == 0
    requires AllAligned(q.taken) && AllAligned(q.queued)
    ensures RunInBounds(q, calls, cap)
    decreases calls
  {
    if calls != [] {
      AlignedLength(q.taken);
      AlignedLength(q.taken + q.queued);
      hide Flatten;
      AlignedIsUnsplit(|Flatten(q.taken)|, cap);
      AlignedIsUnsplit(|Flatten(q.taken + q.queued)|, cap);
      AfterStaysAligned(q, calls, cap, lengths);
      hide After, WritesLengths, AllAligned;
      AlignedRun(After(q, calls[0], cap), calls[1..], cap, lengths);
    }
  }

  lemma AfterStaysAligned(q: Queue, calls: seq<Call>, cap: nat, lengths: iset<nat>)
    requires calls != [] && WritesLengths(calls, lengths) && AllAligned(q.taken) && AllAligned(q.queued)
    requires forall n | n in lengths && HEADER_BYTES + n <= cap :: n % 4 == 0
    ensures var after := After(q, calls[0], cap);
            AllAligned(after.taken) && AllAligned(after.queued) && WritesLengths(calls[1..], lengths)
  {
    assert calls[0] in calls;
    hide Flatten;
  }

  /** A record written and read i times in turn. */
  function PingPong(record: seq<byte>, i: nat): (calls: seq<Call>)
    ensures forall c | c in calls && c.WriteCall? :: c.data == record
  {
    if i == 0 then [] else [WriteCall(record), ReadCall(|record|)] + PingPong(record, i - 1)
  }

  /** After i records the header of the next one starts i frames behind the first. */
  lemma {:induction false} PingPongEnd(q: Queue, record: seq<byte>, i: nat, cap: nat)
    requires q.queued == [] && HEADER_BYTES + |record| <= cap
    requires RunInBounds(q, PingPong(record, i) + [WriteCall(record)], cap)
    ensures (|Flatten(q.taken)| + i * (HEADER_BYTES + |record|)) % cap + HEADER_BYTES <= cap
    decreases i
  {
    if i == 0 {
      assert q.taken + q.queued == q.taken;
    } else {
      PingPongOnce(q, record, i, cap);
      hide RunInBounds, Flatten, PingPong;
      PingPongEnd(Queue(q.taken + [record], []), record, i - 1, cap);
      OneMore(i, HEADER_BYTES + |record|);
    }
  }

  lemma OneMore(i: nat, m: nat)
    requires i > 0
    ensures i * m == m + (i - 1) * m
  {
  }

  lemma PingPongOnce(q: Queue, record: seq<byte>, i: nat, cap: nat)
    requires q.queued == [] && HEADER_BYTES + |record| <= cap && i > 0
    requires RunInBounds(q, PingPong(record, i) + [WriteCall(record)], cap)
    ensures RunInBounds(Queue(q.taken + [record], []), PingPong(record, i - 1) + [WriteCall(record)], cap)
    ensures |Flatten(q.taken + [record])| == |Flatten(q.taken)| + (HEADER_BYTES + |record|)
  {
    FlattenAppend(q.taken, record);
    EmptyFlatten();
    hide Flatten, HeaderInBounds;
    var rest := PingPong(record, i - 1) + [WriteCall(record)];
    var calls := PingPong(record, i) + [WriteCall(record)];
    assert calls == [WriteCall(record), ReadCall(|record|)] + rest;
    assert calls[1..] == [ReadCall(|record|)] + rest && calls[1..][1..] == rest;
    var q1 := After(q, calls[0], cap);
    assert q1 == Queue(q.taken, [record]);
    assert After(q1, calls[1], cap) == Queue(q.taken + [record], []);
  }

  lemma EmptyFlatten()
    ensures Flatten([]) == []
  {
  }

  /** Frames of an unaligned length reach a position less than four bytes before the edge. */
  lemma SplitPosition(n: nat, cap: nat) returns (i: nat)
    requires IsCapacity(cap) && n % 4 != 0
    ensures i * (HEADER_BYTES + n) % cap + HEADER_BYTES > cap
  {
    var k: nat :| 2 <= k <= 32 && cap == Pow2(k);
    if n % 2 == 1 {
      i := ReachesLast(HEADER_BYTES + n, k);
    } else {
      var half := n / 2 + 2;
      assert HEADER_BYTES + n == 2 * half && half % 2 == 1;
      i := ReachesLastTwo(half, k - 1);
    }
  }

  lemma ReachesLast(m: nat, k: nat) returns (i: nat)
    requires m % 2 == 1
    ensures i * m % Pow2(k) == Pow2(k) - 1
  {
    var q: nat;
    i, q := OddReaches(m, k);
    BelowMultiple(i * m, q, Pow2(k), 1);
  }

  lemma ReachesLastTwo(m: nat, k: nat) returns (i: nat)
    requires m % 2 == 1
    ensures i * (2 * m) % (2 * Pow2(k)) == 2 * Pow2(k) - 2
  {
    var q: nat;
    i, q := OddReaches(m, k);
    TwiceReaches(i, m, q, Pow2(k));
    BelowMultiple(i * (2 * m), q, 2 * Pow2(k), 2);
  }

  lemma BelowMultiple(a: nat, q: nat, cap: nat, d: nat)
    requires 0 < d <= cap && a + d == q * cap
    ensures a % cap == cap - d
  {
    assert a == (q - 1) * cap + (cap - d);
    DivModUnique(a, cap, q - 1, cap - d);
  }

  lemma TwiceReaches(i: nat, m: nat, q: nat, p: nat)
    requires i * m + 1 == q * p
    ensures i * (2 * m) + 2 == q * (2 * p)
  {
  }

  /** Some multiple of an odd number is one less than a multiple of 2^k. */
  lemma {:induction false} OddReaches(m: nat, k: nat) returns (i: nat, q: nat)
    requires m % 2 == 1
    ensures i * m + 1 == q * Pow2(k)
  {
    if k == 0 {
      return 0, 1;
    }
    i, q := OddReaches(m, k - 1);
    i, q := Doubled(i, m, q, Pow2(k - 1));
  }

  /** From one less than a multiple of p to one less than a multiple of twice p. */
  lemma Doubled(i: nat, m: nat, q: nat, p: nat) returns (j: nat, r: nat)
    requires m % 2 == 1 && i * m + 1 == q * p
    ensures j * m + 1 == r * (2 * p)
  {
    j, r := i, q;
    if q % 2 == 1 {
      AddMultiple(i, m, q, p);
      j, r := i + p, q + m;
    }
    HalfTwice(r, p);
    r := r / 2;
  }

  lemma AddMultiple(i: nat, m: nat, q: nat, p: nat)
    requires i * m + 1 == q * p
    ensures (i + p) * m + 1 == (q + m) * p
  {
  }

  lemma HalfTwice(q: nat, p: nat)
    requires q % 2 == 0
    ensures q * p == (q / 2) * (2 * p)
  {
    var h := q / 2;
    assert q == h * 2;
    MulAssoc(h, 2, p);
  }

  /** In a ring of 8 cells one record of one byte is enough: the header of the next one crosses the edge. */
  method UnalignedRecordSplitsHeader() returns (ring: DynamicRingBuffer)
    ensures fresh(ring) && ring.Valid() && ring.capacity == 8 && ring.View() == Queue([[7]], [])
    ensures !Unsplit(ring.head, 8) && !HeaderInBounds(ring.View(), WriteCall([]), 8)
  {
    OneByteInEight();
    hide Flatten, IsCapacity, Frame;
    ring := new DynamicRingBuffer(8);
    var out := new byte[1](_ => 0);
    assert ring.taken + ring.records == [];
    var written := ring.Write([7]);
    var read := ring.Read(out);
    ring.HeaderPositions();
    assert ring.taken + ring.records == [[7]];
  }

  lemma OneByteInEight()
    ensures IsCapacity(8)
    ensures Flatten([]) == [] && |Flatten([[7]])| == 5
  {
    assert Pow2(3) == 8;
    assert Flatten([[7]]) == Frame([7]) + Flatten([]);
  }
}
