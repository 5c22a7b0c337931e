/** Arithmetic and layout of the byte ring: free-running 64-bit positions over a power-of-two storage. */
module Ring {
  import opened Bytes

  const HEADER_BYTES := 4

  datatype Error = PayloadTooLarge | MemoryExhausted | TruncatedBuffer
  datatype Result<+T> = Ok(value: T) | Err(error: Error)

  /** The supported capacities: powers of two from 4 to 2^32. */
  ghost predicate IsCapacity(cap: nat) {
    exists k: nat :: 2 <= k <= 32 && cap == Pow2(k)
  }

  lemma {:induction false} Pow2Sum(a: nat, b: nat)
    ensures Pow2(a + b) == Pow2(a) * Pow2(b)
  {
    if a > 0 {
      Pow2Sum(a - 1, b);
    }
  }

  lemma {:induction false} Pow2Monotone(a: nat, b: nat)
    requires a <= b
    ensures Pow2(a) <= Pow2(b)
  {
    if a < b {
      Pow2Monotone(a, b - 1);
    }
  }

  /** A capacity divides 2^64, so positions may wrap around, and masking selects the cell. */
  lemma CapacityFacts(cap: nat, pos: u64)
    requires IsCapacity(cap)
    ensures 4 <= cap <= U32 && cap % 4 == 0 && U64 % cap == 0
    ensures Index(pos, cap) == pos % cap
  {
    var k: nat :| 2 <= k <= 32 && cap == Pow2(k);
    hide Pow2, And;
    CapacityBounds(k);
    MaskIsMod(pos, k, 64);
  }

  lemma CapacityBounds(k: nat)
    requires 2 <= k <= 32
    ensures 4 <= Pow2(k) <= U32 && Pow2(k) % 4 == 0 && U64 % Pow2(k) == 0
  {
    Pow2Of32();
    Pow2Monotone(2, k);
    Pow2Monotone(k, 32);
    assert Pow2(2) == 4;
    Pow2Of64();
    Pow2Divides(2, k);
    Pow2Divides(k, 64);
  }

  lemma Pow2Of64()
    ensures Pow2(64) == U64
  {
    Pow2Of32();
    Pow2Sum(32, 32);
  }

  lemma Pow2Divides(a: nat, b: nat)
    requires a <= b
    ensures Pow2(b) % Pow2(a) == 0
  {
    Pow2Sum(b - a, a);
    DivModUnique(Pow2(b), Pow2(a), Pow2(b - a), 0);
  }

  /** The free-running difference of two positions is their distance, also across overflow. */
  lemma Distance(tail: u64, used: nat)
    requires used < U64
    ensures ((tail + used) % U64 + U64 - tail) % U64 == used
  {
    if tail + used < U64 {
      assert (tail + used) % U64 == tail + used;
      assert (used + U64) % U64 == used;
    } else {
      assert (tail + used) % U64 == tail + used - U64;
    }
  }

  /** Advancing twice is advancing by the sum. */
  lemma AdvanceTwice(pos: u64, m: nat, n: nat)
    ensures ((pos + m) % U64 + n) % U64 == (pos + m + n) % U64
  {
    var q, r := (pos + m) / U64, (pos + m) % U64;
    assert pos + m == q * U64 + r;
    var q', r' := (r + n) / U64, (r + n) % U64;
    assert pos + m + n == (q + q') * U64 + r';
    DivModUnique(pos + m + n, U64, q + q', r');
  }

  /** The storage cell of a position: the mask keeps its low bits. */
  function Index(pos: u64, cap: nat): nat
    requires cap > 0
  {
    And(pos, cap - 1, 64)
  }

  /** The cell i places after the cell `base`, around the edge of the storage. */
  function Cell(base: nat, i: nat, cap: nat): nat {
    if base + i < cap then base + i else base + i - cap
  }

  /** Advancing a position by at most one lap advances its cell around the edge, even when the position overflows. */
  lemma Advance(pos: u64, n: nat, cap: nat)
    requires 4 <= cap <= U32 && U64 % cap == 0 && n <= cap
    ensures (pos + n) % U64 % cap == Cell(pos % cap, n, cap)
  {
    var b := pos % cap;
    var q := pos / cap;
    ModOfMod(pos + n, cap);
    assert pos + n == q * cap + (b + n);
    if b + n < cap {
      DivModUnique(pos + n, cap, q, b + n);
    } else {
      assert pos + n == (q + 1) * cap + (b + n - cap);
      DivModUnique(pos + n, cap, q + 1, b + n - cap);
    }
  }

  lemma ModOfMod(n: nat, cap: nat)
    requires cap > 0 && U64 % cap == 0
    ensures n % U64 % cap == n % cap
  {
    var r := n % U64;
    var w := U64 / cap;
    assert U64 == w * cap;
    var q := r / cap;
    assert r == q * cap + r % cap;
    calc {
      n;
      (n / U64) * U64 + r;
      (n / U64) * (w * cap) + r;
      { MulAssoc(n / U64, w, cap); }
      ((n / U64) * w) * cap + q * cap + r % cap;
      ((n / U64) * w + q) * cap + r % cap;
    }
    DivModUnique(n, cap, (n / U64) * w + q, r % cap);
  }

  lemma MulAssoc(a: int, b: int, c: int)
    ensures a * (b * c) == (a * b) * c
  {
  }

  /** Positions less than a lap apart use different cells. */
  lemma CellsDiffer(p: nat, q: nat, cap: nat)
    requires p < q < p + cap
    ensures p % cap != q % cap
  {
    if p % cap == q % cap {
      assert q - p == (q / cap - p / cap) * cap;
      MulSign(q / cap - p / cap, cap);
    }
  }

  // ---------- records ----------

  /** A record in the ring: its length in four bytes, then its bytes. */
  function Frame(record: seq<byte>): (r: seq<byte>)
    ensures |r| == HEADER_BYTES + |record|
  {
    LE(|record|, 4) + record
  }

  function Flatten(records: seq<seq<byte>>): seq<byte> {
    if records == [] then [] else Frame(records[0]) + Flatten(records[1..])
  }

  lemma {:induction false} FlattenConcat(a: seq<seq<byte>>, b: seq<seq<byte>>)
    ensures Flatten(a + b) == Flatten(a) + Flatten(b)
  {
    if a == [] {
      assert a + b == b;
    } else {
      assert (a + b)[0] == a[0] && (a + b)[1..] == a[1..] + b;
      FlattenConcat(a[1..], b);
    }
  }

  lemma FlattenEmpty(records: seq<seq<byte>>)
    ensures |Flatten(records)| == 0 <==> records == []
    ensures records != [] ==> Flatten(records) == Frame(records[0]) + Flatten(records[1..])
  {
  }

  lemma FlattenAppend(records: seq<seq<byte>>, data: seq<byte>)
    ensures Flatten(records + [data]) == Flatten(records) + Frame(data)
  {
    FlattenConcat(records, [data]);
    assert Flatten([data]) == Frame(data) + Flatten([]);
  }

  /** Where a new frame behind `used` bytes goes. */
  lemma PushPositions(cap: nat, head: u64, tail: u64, used: nat, n: nat)
    requires IsCapacity(cap) && cap > 0 && head == (tail + used) % U64 && used + HEADER_BYTES + n <= cap
    ensures head % cap == Cell(tail % cap, used, cap)
    ensures (head + HEADER_BYTES) % U64 % cap == Cell(Cell(tail % cap, used, cap), HEADER_BYTES, cap)
  {
    CapacityFacts(cap, tail);
    hide IsCapacity, Index;
    Advance(tail, used, cap);
    Advance(head, HEADER_BYTES, cap);
  }

  /** Where the oldest record's bytes are, and where the next frame starts. */
  lemma PopPositions(cap: nat, tail: u64, len: nat)
    requires IsCapacity(cap) && cap > 0 && HEADER_BYTES + len <= cap
    ensures (tail + HEADER_BYTES) % U64 % cap == Cell(tail % cap, HEADER_BYTES, cap)
    ensures (tail + HEADER_BYTES + len) % U64 % cap == Cell(tail % cap, HEADER_BYTES + len, cap)
  {
    CapacityFacts(cap, tail);
    hide IsCapacity, Index;
    Advance(tail, HEADER_BYTES, cap);
    Advance(tail, HEADER_BYTES + len, cap);
  }

  /** The frame of record m starts where the frames of the records before it end. */
  lemma FlattenAt(records: seq<seq<byte>>, m: nat)
    requires m < |records|
    ensures var t := |Flatten(records[..m])|;
            && t + 4 + |records[m]| <= |Flatten(records)|
            && Flatten(records)[t..t + 4] == LE(|records[m]|, 4)
            && Flatten(records)[t + 4..t + 4 + |records[m]|] == records[m]
            && |Flatten(records[..m + 1])| == t + 4 + |records[m]|
  {
    assert records == records[..m] + records[m..];
    FlattenConcat(records[..m], records[m..]);
    assert records[m..][0] == records[m];
    assert records[..m + 1] == records[..m] + [records[m]];
    FlattenAppend(records[..m], records[m]);
  }

  /** The cells from `base` on hold the given bytes. */
  ghost predicate Holds(storage: seq<byte>, base: nat, bytes: seq<byte>) {
    && base < |storage| && |bytes| <= |storage|
    && forall i {:trigger bytes[i]} | 0 <= i < |bytes| :: storage[Cell(base, i, |storage|)] == bytes[i]
  }

  /** A part of what the cells hold is held from the cell where it starts. */
  lemma HoldsPart(storage: seq<byte>, base: nat, bytes: seq<byte>, i: nat, j: nat)
    requires Holds(storage, base, bytes) && i <= j <= |bytes| && |storage| > 0
    ensures Holds(storage, Cell(base, i, |storage|), bytes[i..j])
  {
    forall n | 0 <= n < j - i
      ensures storage[Cell(Cell(base, i, |storage|), n, |storage|)] == bytes[i..j][n]
    {
      assert bytes[i..j][n] == bytes[i + n];
      assert Cell(Cell(base, i, |storage|), n, |storage|) == Cell(base, i + n, |storage|);
    }
  }

  /** Bytes held behind other bytes are held with them. */
  lemma HoldsConcat(storage: seq<byte>, base: nat, a: seq<byte>, b: seq<byte>)
    requires Holds(storage, base, a) && |a| + |b| <= |storage|
    requires Holds(storage, Cell(base, |a|, |storage|), b)
    ensures Holds(storage, base, a + b)
  {
    forall n | 0 <= n < |a + b|
      ensures storage[Cell(base, n, |storage|)] == (a + b)[n]
    {
      if n < |a| {
        assert (a + b)[n] == a[n];
      } else {
        assert (a + b)[n] == b[n - |a|];
        assert Cell(Cell(base, |a|, |storage|), n - |a|, |storage|) == Cell(base, n, |storage|);
      }
    }
  }

  /** What two memcpy calls around the edge write: the given bytes from `base` on, and nothing else. */
  ghost predicate Written(before: seq<byte>, after: seq<byte>, base: nat, bytes: seq<byte>) {
    && |before| == |after| && Holds(after, base, bytes)
    && forall i | |bytes| <= i < |before| ::
         after[Cell(base, i, |before|)] == before[Cell(base, i, |before|)]
  }

  /** Writing behind held bytes, within one lap, keeps them. */
  lemma WrittenKeeps(before: seq<byte>, after: seq<byte>, base: nat, a: seq<byte>, b: seq<byte>)
    requires Holds(before, base, a) && |a| + |b| <= |before|
    requires Written(before, after, Cell(base, |a|, |before|), b)
    ensures Holds(after, base, a + b)
  {
    var cap := |before|;
    var base' := Cell(base, |a|, cap);
    forall n | 0 <= n < |a|
      ensures after[Cell(base, n, cap)] == a[n]
    {
      assert before[Cell(base, n, cap)] == a[n];
      assert Cell(base', cap - |a| + n, cap) == Cell(base, n, cap);
    }
    assert Holds(after, base, a);
    HoldsConcat(after, base, a, b);
  }

  lemma WrittenBounds(s0: seq<byte>, s1: seq<byte>, base: nat, live: seq<byte>, header: seq<byte>)
    requires Holds(s0, base, live) && Written(s0, s1, Cell(base, |live|, |s0|), header)
    ensures |s1| == |s0| && base < |s0|
  {
  }

  /** Writing header and data behind the live bytes adds the record's frame to them. */
  lemma PushLayout(s0: seq<byte>, s1: seq<byte>, s2: seq<byte>, base: nat, live: seq<byte>, data: seq<byte>)
    requires Holds(s0, base, live) && |live| + HEADER_BYTES + |data| <= |s0|
    requires Written(s0, s1, Cell(base, |live|, |s0|), LE(|data|, 4))
    requires Written(s1, s2, Cell(Cell(base, |live|, |s0|), HEADER_BYTES, |s0|), data)
    ensures Holds(s2, base, live + Frame(data))
  {
    hide Holds, Written, LE;
    var header := LE(|data|, 4);
    WrittenKeeps(s0, s1, base, live, header);
    WrittenBounds(s0, s1, base, live, header);
    assert Cell(Cell(base, |live|, |s0|), HEADER_BYTES, |s0|) == Cell(base, |live + header|, |s1|);
    WrittenKeeps(s1, s2, base, live + header, data);
    assert live + header + data == live + Frame(data);
  }

  /** What is read behind the header is the record; the bytes behind it stay held from the next tail on. */
  lemma PopLayout(storage: seq<byte>, base: nat, record: seq<byte>, rest: seq<byte>, body: seq<byte>)
    requires Holds(storage, base, Frame(record) + rest)
    requires Holds(storage, Cell(base, HEADER_BYTES, |storage|), body) && |body| == |record|
    ensures body == record
    ensures Holds(storage, Cell(base, HEADER_BYTES + |record|, |storage|), rest)
  {
    var live, n := Frame(record) + rest, HEADER_BYTES + |record|;
    HoldsPart(storage, base, live, HEADER_BYTES, n);
    HoldsPart(storage, base, live, n, |live|);
    assert live[HEADER_BYTES..n] == record && live[n..] == rest;
    HeldBytesAgree(storage, Cell(base, HEADER_BYTES, |storage|), body, record);
  }

  /** The four bytes at the tail are the oldest record's length. */
  lemma HeaderOfOldest(storage: seq<byte>, base: nat, records: seq<seq<byte>>, header: seq<byte>)
    requires records != [] && IsCapacity(|storage|) && Holds(storage, base, Flatten(records))
    requires |header| == 4 && Holds(storage, base, header)
    ensures FromLE(header) == |records[0]|
  {
    CapacityFacts(|storage|, 0);
    FlattenAt(records, 0);
    assert records[..0] == [];
    hide Frame, LE;
    var all := Flatten(records);
    hide Flatten;
    assert Holds(storage, base, all[0..4]);
    HeldBytesAgree(storage, base, header, all[0..4]);
    LE4(|records[0]|);
  }

  /** What cells hold is determined by the cells. */
  lemma HeldBytesAgree(storage: seq<byte>, base: nat, a: seq<byte>, b: seq<byte>)
    requires Holds(storage, base, a) && Holds(storage, base, b) && |a| == |b|
    ensures a == b
  {
    forall i | 0 <= i < |a|
      ensures a[i] == b[i]
    {
      assert storage[Cell(base, i, |storage|)] == a[i];
    }
  }

  // ---------- the queue in the storage ----------

  /** Head is behind the records that start at tail, and they take at most one lap. */
  ghost predicate Counted(cap: nat, head: u64, tail: u64, records: seq<seq<byte>>) {
    |Flatten(records)| <= cap && head == (tail + |Flatten(records)|) % U64
  }

  /** The storage and the two positions hold exactly these records. */
  ghost predicate Queued(storage: seq<byte>, head: u64, tail: u64, records: seq<seq<byte>>) {
    && IsCapacity(|storage|) && |storage| > 0
    && Counted(|storage|, head, tail, records)
    && Holds(storage, tail % |storage|, Flatten(records))
  }

  lemma EmptyQueued(storage: seq<byte>, start: u64)
    requires IsCapacity(|storage|)
    ensures Queued(storage, start, start, [])
  {
    CapacityFacts(|storage|, start);
  }

  /** Header and data written at the head add the record to the queue. */
  lemma PushQueued(
    s0: seq<byte>, s1: seq<byte>, s2: seq<byte>, head: u64, tail: u64, records: seq<seq<byte>>, data: seq<byte>)
    requires Queued(s0, head, tail, records) && |Flatten(records)| + HEADER_BYTES + |data| <= |s0|
    requires Written(s0, s1, head % |s0|, LE(|data|, 4))
    requires Written(s1, s2, (head + HEADER_BYTES) % U64 % |s0|, data)
    ensures Queued(s2, (head + HEADER_BYTES + |data|) % U64, tail, records + [data])
  {
    hide IsCapacity, Flatten, Holds, LE, Counted;
    PushHolds(s0, s1, s2, head, tail, records, data);
    PushCounted(|s0|, head, tail, records, data);
  }

  lemma PushHolds(
    s0: seq<byte>, s1: seq<byte>, s2: seq<byte>, head: u64, tail: u64, records: seq<seq<byte>>, data: seq<byte>)
    requires Queued(s0, head, tail, records) && |Flatten(records)| + HEADER_BYTES + |data| <= |s0|
    requires Written(s0, s1, head % |s0|, LE(|data|, 4))
    requires Written(s1, s2, (head + HEADER_BYTES) % U64 % |s0|, data)
    ensures Holds(s2, tail % |s0|, Flatten(records + [data]))
  {
    hide Written, Holds, LE, Frame, Flatten, Cell;
    PushPositions(|s0|, head, tail, |Flatten(records)|, |data|);
    PushLayout(s0, s1, s2, tail % |s0|, Flatten(records), data);
    FlattenAppend(records, data);
  }

  lemma PushCounted(cap: nat, head: u64, tail: u64, records: seq<seq<byte>>, data: seq<byte>)
    requires Counted(cap, head, tail, records) && |Flatten(records)| + HEADER_BYTES + |data| <= cap
    ensures Counted(cap, (head + HEADER_BYTES + |data|) % U64, tail, records + [data])
  {
    FlattenAppend(records, data);
    hide Frame, Flatten;
    AdvanceTwice(tail, |Flatten(records)|, HEADER_BYTES + |data|);
  }

  /** The bytes behind the oldest header are the oldest record; with the tail behind it, the others are queued. */
  lemma PopQueued(storage: seq<byte>, head: u64, tail: u64, records: seq<seq<byte>>, body: seq<byte>)
    requires Queued(storage, head, tail, records) && records != [] && |body| == |records[0]|
    requires Holds(storage, (tail + HEADER_BYTES) % U64 % |storage|, body)
    ensures body == records[0]
    ensures Queued(storage, head, (tail + HEADER_BYTES + |body|) % U64, records[1..])
  {
    hide IsCapacity, Flatten, Holds, Counted;
    PopHolds(storage, head, tail, records, body);
    PopCounted(|storage|, head, tail, records);
  }

  lemma PopHolds(storage: seq<byte>, head: u64, tail: u64, records: seq<seq<byte>>, body: seq<byte>)
    requires Queued(storage, head, tail, records) && records != [] && |body| == |records[0]|
    requires Holds(storage, (tail + HEADER_BYTES) % U64 % |storage|, body)
    ensures body == records[0]
    ensures Holds(storage, (tail + HEADER_BYTES + |body|) % U64 % |storage|, Flatten(records[1..]))
  {
    FlattenEmpty(records);
    assert HEADER_BYTES + |body| <= |storage|;
    hide IsCapacity, Flatten, Frame, Holds, Cell, Counted;
    PopPositions(|storage|, tail, |body|);
    PopLayout(storage, tail % |storage|, records[0], Flatten(records[1..]), body);
  }

  lemma PopCounted(cap: nat, head: u64, tail: u64, records: seq<seq<byte>>)
    requires Counted(cap, head, tail, records) && records != []
    ensures Counted(cap, head, (tail + HEADER_BYTES + |records[0]|) % U64, records[1..])
  {
    FlattenEmpty(records);
    hide Flatten, Frame;
    AdvanceTwice(tail, HEADER_BYTES + |records[0]|, |Flatten(records[1..])|);
  }

  /** The four bytes at the tail are the oldest record's length. */
  lemma HeaderQueued(storage: seq<byte>, head: u64, tail: u64, records: seq<seq<byte>>, header: seq<byte>)
    requires Queued(storage, head, tail, records) && records != []
    requires |header| == 4 && Holds(storage, tail % |storage|, header)
    ensures FromLE(header) == |records[0]|
  {
    HeaderOfOldest(storage, tail % |storage|, records, header);
  }

  lemma QueuedFacts(storage: seq<byte>, head: u64, tail: u64, records: seq<seq<byte>>)
    requires Queued(storage, head, tail, records)
    ensures IsCapacity(|storage|) && 4 <= |storage| <= U32
    ensures records != [] ==> HEADER_BYTES + |records[0]| <= |storage|
  {
    CapacityFacts(|storage|, tail);
    FlattenEmpty(records);
  }

  /** The counters tell the bytes in use, and are equal exactly when no record is queued. */
  lemma UsedBytes(storage: seq<byte>, head: u64, tail: u64, records: seq<seq<byte>>)
    requires Queued(storage, head, tail, records)
    ensures (head + U64 - tail) % U64 == |Flatten(records)| <= |storage|
    ensures head == tail <==> records == []
    ensures 4 <= |storage| <= U32
  {
    QueuedFacts(storage, head, tail, records);
    hide IsCapacity, Flatten, Holds;
    assert Counted(|storage|, head, tail, records);
    hide Queued;
    CountedBytes(|storage|, head, tail, records);
  }

  lemma CountedBytes(cap: nat, head: u64, tail: u64, records: seq<seq<byte>>)
    requires Counted(cap, head, tail, records) && cap <= U32
    ensures (head + U64 - tail) % U64 == |Flatten(records)| <= cap
    ensures head == tail <==> records == []
  {
    FlattenEmpty(records);
    hide Flatten;
    Distance(tail, |Flatten(records)|);
  }

  /** memcpy into the caller's buffer. */
  method CopyOut(out: array<byte>, body: seq<byte>)
    requires |body| <= out.Length
    modifies out
    ensures out[..|body|] == body && out[|body|..] == old(out[|body|..])
  {
    forall i | 0 <= i < |body| {
      out[i] := body[i];
    }
  }
}
