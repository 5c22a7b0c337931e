/**
 The byte ring between two threads: one producer and one consumer run RingBuffer's write and read, interleaved at
 every load, byte copy and store, in a sequentially consistent memory.
 */
module Spsc {
  import opened Bytes
  import opened Ring

  /**
   Where the producer is inside write: h is its copy of head, t its possibly outdated copy of tail. The proof
   also remembers how many bytes had been released when t was loaded; no step depends on that number.
   */
  datatype Producer =
    | WIdle
    | WLoadHead(data: seq<byte>)
    | WLoadTail(data: seq<byte>, h: u64)
    | WCheck(data: seq<byte>, h: u64, t: u64, seen: nat)
    | WCopy(data: seq<byte>, h: u64, done: nat)

  /** Where the consumer is inside read; t is its copy of tail, h its possibly outdated copy of head. */
  datatype Consumer =
    | RIdle
    | RLoadTail(room: nat)
    | RLoadHead(room: nat, t: u64)
    | RCheck(room: nat, t: u64, h: u64)
    | RHeader(room: nat, t: u64, got: seq<byte>)
    | RBody(t: u64, len: nat, got: seq<byte>)

  /**
   Shared memory, both program counters, the history of accepted and consumed records, and whether a copy ever
   touched a cell outside the storage.
   */
  datatype State = State(
    storage: seq<byte>, head: u64, tail: u64,
    producer: Producer, consumer: Consumer,
    accepted: seq<seq<byte>>, consumed: seq<seq<byte>>, fault: bool)

  datatype Action = CallWrite(data: seq<byte>) | CallRead(room: nat) | ProducerStep | ConsumerStep

  function Init(cap: nat): State {
    State(seq(cap, _ => 0), 0, 0, WIdle, RIdle, [], [], false)
  }

  /** The cell that byte `done` of the frame goes to: header bytes are placed from h, data bytes from h + 4. */
  function WriteCell(h: u64, done: nat, cap: nat): nat
    requires cap > 0
  {
    if done < HEADER_BYTES then Cell(h % cap, done, cap)
    else Cell((h + HEADER_BYTES) % U64 % cap, done - HEADER_BYTES, cap)
  }

  function ReadHeaderCell(t: u64, got: nat, cap: nat): nat
    requires cap > 0
  {
    Cell(t % cap, got, cap)
  }

  function ReadBodyCell(t: u64, got: nat, cap: nat): nat
    requires cap > 0
  {
    Cell((t + HEADER_BYTES) % U64 % cap, got, cap)
  }

  function ProducerNext(s: State): State
    requires |s.storage| > 0
  {
    var cap := |s.storage|;
    match s.producer
    case WIdle => s
    case WLoadHead(data) => s.(producer := WLoadTail(data, s.head))
    case WLoadTail(data, h) => s.(producer := WCheck(data, h, s.tail, Released(s)))
    case WCheck(data, h, t, _) =>
      if cap - (h + U64 - t) % U64 < HEADER_BYTES + |data| then s.(producer := WIdle)
      else s.(producer := WCopy(data, h, 0))
    case WCopy(data, h, done) =>
      if done < HEADER_BYTES + |data| then
        var cell := WriteCell(h, done, cap);
        if cell < cap then
          s.(storage := s.storage[cell := Frame(data)[done]], producer := WCopy(data, h, done + 1))
        else s.(fault := true)
      else s.(head := (h + HEADER_BYTES + |data|) % U64, producer := WIdle, accepted := s.accepted + [data])
  }

  function ConsumerNext(s: State): State
    requires |s.storage| > 0
  {
    var cap := |s.storage|;
    match s.consumer
    case RIdle => s
    case RLoadTail(room) => s.(consumer := RLoadHead(room, s.tail))
    case RLoadHead(room, t) => s.(consumer := RCheck(room, t, s.head))
    case RCheck(room, t, h) => if h == t then s.(consumer := RIdle) else s.(consumer := RHeader(room, t, []))
    case RHeader(room, t, got) =>
      if |got| < HEADER_BYTES then
        var cell := ReadHeaderCell(t, |got|, cap);
        if cell < cap then s.(consumer := RHeader(room, t, got + [s.storage[cell]])) else s.(fault := true)
      else if room < FromLE(got) then s.(consumer := RIdle)
      else s.(consumer := RBody(t, FromLE(got), []))
    case RBody(t, len, got) =>
      if |got| < len then
        var cell := ReadBodyCell(t, |got|, cap);
        if cell < cap then s.(consumer := RBody(t, len, got + [s.storage[cell]])) else s.(fault := true)
      else s.(tail := (t + HEADER_BYTES + len) % U64, consumer := RIdle, consumed := s.consumed + [got])
  }

  /** One step of one thread; a call is only made by a thread that is not inside one. */
  function Next(s: State, a: Action): State
    requires |s.storage| > 0
  {
    match a
    case CallWrite(data) =>
      if s.producer.WIdle? && |data| + HEADER_BYTES <= |s.storage| then s.(producer := WLoadHead(data)) else s
    case CallRead(room) => if s.consumer.RIdle? then s.(consumer := RLoadTail(room)) else s
    case ProducerStep => ProducerNext(s)
    case ConsumerStep => ConsumerNext(s)
  }

  // ---------- the invariant ----------

  /** Bytes published so far, and bytes given back so far. */
  function Published(s: State): nat {
    |Flatten(s.accepted)|
  }

  function Released(s: State): nat {
    |Flatten(s.consumed)|
  }

  /** The byte in the cell of an unwrapped position. */
  function At(storage: seq<byte>, p: nat): byte
    requires |storage| > 0
  {
    storage[p % |storage|]
  }

  /** The consumed records are the first accepted ones; head and tail are their byte counts, at most a lap apart. */
  ghost predicate Counters(cap: nat, head: u64, tail: u64, accepted: seq<seq<byte>>, consumed: seq<seq<byte>>) {
    var published, released := |Flatten(accepted)|, |Flatten(consumed)|;
    && |consumed| <= |accepted| && consumed == accepted[..|consumed|]
    && released <= published <= released + cap
    && head == published % U64 && tail == released % U64
  }

  /** The shared memory: the counters, and the published, not yet released bytes in their cells. */
  ghost predicate SharedOk(
    storage: seq<byte>, head: u64, tail: u64, accepted: seq<seq<byte>>, consumed: seq<seq<byte>>)
  {
    && IsCapacity(|storage|) && |storage| > 0
    && Counters(|storage|, head, tail, accepted, consumed)
    && LiveBytes(storage, |Flatten(consumed)|, Flatten(accepted))
  }

  /** The bytes of a stream from a position on are in their cells. */
  ghost predicate LiveBytes(storage: seq<byte>, from: nat, stream: seq<byte>)
    requires |storage| > 0
  {
    forall p | from <= p < |stream| :: At(storage, p) == stream[p]
  }

  ghost predicate ProducerOk(producer: Producer, storage: seq<byte>, head: u64, published: nat, released: nat)
    requires |storage| > 0
  {
    var cap := |storage|;
    match producer
    case WIdle => true
    case WLoadHead(data) => HEADER_BYTES + |data| <= cap
    case WLoadTail(data, h) => HEADER_BYTES + |data| <= cap && h == head
    case WCheck(data, h, t, seen) =>
      && HEADER_BYTES + |data| <= cap && h == head
      && published - cap <= seen <= released && t == seen % U64
    case WCopy(data, h, done) =>
      && HEADER_BYTES + |data| <= cap && h == head && done <= HEADER_BYTES + |data|
      && published + HEADER_BYTES + |data| <= released + cap
      && forall i | 0 <= i < done :: At(storage, published + i) == Frame(data)[i]
  }

  ghost predicate ConsumerOk(consumer: Consumer, tail: u64, accepted: seq<seq<byte>>, m: nat) {
    match consumer
    case RIdle => true
    case RLoadTail(_) => true
    case RLoadHead(_, t) => t == tail
    case RCheck(_, t, h) => t == tail && (h != t ==> m < |accepted|)
    case RHeader(_, t, got) =>
      && t == tail && m < |accepted|
      && |got| <= HEADER_BYTES && got == LE(|accepted[m]|, 4)[..|got|]
    case RBody(t, len, got) =>
      && t == tail && m < |accepted|
      && len == |accepted[m]| && |got| <= len && got == accepted[m][..|got|]
  }

  ghost predicate Inv(s: State) {
    && !s.fault && |s.storage| > 0
    && SharedOk(s.storage, s.head, s.tail, s.accepted, s.consumed)
    && ProducerOk(s.producer, s.storage, s.head, Published(s), Released(s))
    && ConsumerOk(s.consumer, s.tail, s.accepted, |s.consumed|)
  }

  lemma InitInv(cap: nat)
    requires IsCapacity(cap)
    ensures cap > 0 && Inv(Init(cap))
  {
    CapacityFacts(cap, 0);
  }

  /** The cell the code computes for byte `done` of a frame is the cell of its unwrapped position. */
  lemma WriteCellIsPosition(start: nat, done: nat, cap: nat)
    requires IsCapacity(cap) && cap > 0 && done < cap
    ensures WriteCell(start % U64, done, cap) == (start + done) % cap
  {
    CapacityFacts(cap, start % U64);
    hide Index, And;
    PositionCell(start, done, cap);
    if done >= HEADER_BYTES {
      AdvanceTwice(0, start, HEADER_BYTES);
      assert (start % U64 + HEADER_BYTES) % U64 == (start + HEADER_BYTES) % U64;
      PositionCell(start + HEADER_BYTES, done - HEADER_BYTES, cap);
    }
  }

  /** i cells behind the cell of a wrapped position is the cell of the unwrapped position plus i. */
  lemma PositionCell(start: nat, i: nat, cap: nat)
    requires 4 <= cap <= U32 && U64 % cap == 0 && i <= cap
    ensures Cell(start % U64 % cap, i, cap) == (start + i) % cap
  {
    Advance(start % U64, i, cap);
    AdvanceTwice(0, start, i);
    assert (start % U64 + i) % U64 == (start + i) % U64;
    ModOfMod(start + i, cap);
  }

  // ---------- every step keeps the invariant ----------

  lemma CallKeeps(s: State, a: Action)
    requires Inv(s) && (a.CallWrite? || a.CallRead?)
    ensures Inv(Next(s, a))
  {
    hide IsCapacity, Flatten, Frame, LE;
  }

  lemma ProducerKeepsLocal(s: State)
    requires Inv(s) && (s.producer.WIdle? || s.producer.WLoadHead? || s.producer.WLoadTail?)
    ensures Inv(ProducerNext(s))
  {
    hide IsCapacity, Flatten, Frame, LE;
  }

  /** The check passes exactly when the frame fits behind the bytes not known to be released. */
  lemma CheckStep(s: State)
    requires Inv(s) && s.producer.WCheck?
    ensures var (data, h, seen) := (s.producer.data, s.producer.h, s.producer.seen);
            ProducerNext(s) == s.(producer := if Published(s) + HEADER_BYTES + |data| <= seen + |s.storage|
                                              then WCopy(data, h, 0) else WIdle)
  {
    LapBounds(s);
    assert |s.storage| <= U32 by {
      CapacityFacts(|s.storage|, s.head);
    }
    hide Flatten, SharedOk, ConsumerOk;
    DistanceOf(s.producer.seen, Published(s));
  }

  lemma ProducerKeepsCheck(s: State)
    requires Inv(s) && s.producer.WCheck?
    ensures Inv(ProducerNext(s))
  {
    CheckStep(s);
    hide Flatten, Frame, SharedOk, ConsumerOk, ProducerNext;
  }

  lemma DistanceOf(from: nat, to: nat)
    requires from <= to < from + U64
    ensures (to % U64 + U64 - from % U64) % U64 == to - from
  {
    AdvanceTwice(0, from, to - from);
    assert (from % U64 + (to - from)) % U64 == to % U64;
    Distance(from % U64, to - from);
  }

  /** A copy step stores the frame's next byte in the cell of its position, which no live byte uses. */
  lemma CopyStep(s: State)
    requires Inv(s) && s.producer.WCopy? && s.producer.done < HEADER_BYTES + |s.producer.data|
    ensures var (data, h, done) := (s.producer.data, s.producer.h, s.producer.done);
            && Published(s) + done < Released(s) + |s.storage|
            && ProducerNext(s) == s.(storage := s.storage[(Published(s) + done) % |s.storage| := Frame(data)[done]],
                                     producer := WCopy(data, h, done + 1))
  {
    hide Flatten, Frame, LE, WriteCell, LiveBytes, ConsumerOk;
    WriteCellIsPosition(Published(s), s.producer.done, |s.storage|);
  }

  lemma ProducerKeepsCopy(s: State)
    requires Inv(s) && s.producer.WCopy? && s.producer.done < HEADER_BYTES + |s.producer.data|
    ensures Inv(ProducerNext(s))
  {
    var data, h, done := s.producer.data, s.producer.h, s.producer.done;
    var q := Published(s) + done;
    CopyStep(s);
    hide SharedOk, ProducerOk, ConsumerOk, ProducerNext, Frame;
    StoreKeepsShared(s.storage, s.head, s.tail, s.accepted, s.consumed, q, Frame(data)[done]);
    StoreKeepsProducer(s.storage, s.head, Published(s), Released(s), data, h, done);
  }

  lemma StoreKeepsShared(
    storage: seq<byte>, head: u64, tail: u64, accepted: seq<seq<byte>>, consumed: seq<seq<byte>>, q: nat, b: byte)
    requires SharedOk(storage, head, tail, accepted, consumed)
    requires |Flatten(accepted)| <= q < |Flatten(consumed)| + |storage|
    ensures |storage| > 0 && SharedOk(storage[q % |storage| := b], head, tail, accepted, consumed)
  {
    hide IsCapacity, Flatten, LiveBytes, Counters;
    StoreKeepsLive(storage, |Flatten(consumed)|, Flatten(accepted), q, b);
  }

  lemma StoreKeepsProducer(
    storage: seq<byte>, head: u64, published: nat, released: nat, data: seq<byte>, h: u64, done: nat)
    requires |storage| > 0 && done < HEADER_BYTES + |data|
    requires ProducerOk(WCopy(data, h, done), storage, head, published, released)
    ensures ProducerOk(WCopy(data, h, done + 1), storage[(published + done) % |storage| := Frame(data)[done]],
                       head, published, released)
  {
    hide Frame, At;
    StoreAddsByte(storage, published, done, data);
  }

  lemma StoreKeepsLive(storage: seq<byte>, from: nat, stream: seq<byte>, q: nat, b: byte)
    requires |storage| > 0 && LiveBytes(storage, from, stream) && |stream| <= q < from + |storage|
    ensures LiveBytes(storage[q % |storage| := b], from, stream)
  {
    forall p | from <= p < |stream|
      ensures At(storage[q % |storage| := b], p) == stream[p]
    {
      StoreKeepsOthers(storage, q, b, p);
    }
  }

  lemma StoreAddsByte(storage: seq<byte>, h: nat, done: nat, data: seq<byte>)
    requires |storage| > 0 && done < HEADER_BYTES + |data| <= |storage|
    requires forall i | 0 <= i < done :: At(storage, h + i) == Frame(data)[i]
    ensures var after := storage[(h + done) % |storage| := Frame(data)[done]];
            forall i | 0 <= i < done + 1 :: At(after, h + i) == Frame(data)[i]
  {
    hide Frame;
    var b := Frame(data)[done];
    forall i | 0 <= i < done + 1
      ensures At(storage[(h + done) % |storage| := b], h + i) == Frame(data)[i]
    {
      if i < done {
        StoreKeepsOthers(storage, h + done, b, h + i);
      }
    }
  }

  lemma StoreKeepsOthers(storage: seq<byte>, q: nat, b: byte, p: nat)
    requires |storage| > 0 && p < q < p + |storage|
    ensures At(storage[q % |storage| := b], p) == At(storage, p)
  {
    CellsDiffer(p, q, |storage|);
  }

  /** Publishing makes the copied frame part of the live bytes. */
  lemma ProducerKeepsPublish(s: State)
    requires Inv(s) && s.producer.WCopy? && s.producer.done == HEADER_BYTES + |s.producer.data|
    ensures Inv(ProducerNext(s))
  {
    hide IsCapacity, LE, Flatten, At, LiveBytes, ConsumerOk, Counters, WriteCell;
    var data := s.producer.data;
    LiveAppend(s.storage, Released(s), Flatten(s.accepted), Frame(data));
    PublishCounters(|s.storage|, s.head, s.tail, s.accepted, s.consumed, data);
    PublishHelpsConsumer(s.consumer, s.tail, s.accepted, data, |s.consumed|);
    hide Frame;
  }

  lemma PublishCounters(
    cap: nat, head: u64, tail: u64, accepted: seq<seq<byte>>, consumed: seq<seq<byte>>, data: seq<byte>)
    requires Counters(cap, head, tail, accepted, consumed)
    requires |Flatten(accepted)| + HEADER_BYTES + |data| <= |Flatten(consumed)| + cap
    ensures Counters(cap, (head + HEADER_BYTES + |data|) % U64, tail, accepted + [data], consumed)
    ensures Flatten(accepted + [data]) == Flatten(accepted) + Frame(data)
  {
    FlattenAppend(accepted, data);
    hide Frame, Flatten;
    AdvanceTwice(0, |Flatten(accepted)|, HEADER_BYTES + |data|);
    assert consumed == (accepted + [data])[..|consumed|];
  }

  lemma LiveAppend(storage: seq<byte>, from: nat, stream: seq<byte>, more: seq<byte>)
    requires |storage| > 0 && LiveBytes(storage, from, stream)
    requires forall i | 0 <= i < |more| :: At(storage, |stream| + i) == more[i]
    ensures LiveBytes(storage, from, stream + more)
  {
    hide At;
    forall p | from <= p < |stream + more|
      ensures At(storage, p) == (stream + more)[p]
    {
      if p >= |stream| {
        assert At(storage, |stream| + (p - |stream|)) == more[p - |stream|];
      }
    }
  }

  lemma PublishHelpsConsumer(c: Consumer, tail: u64, accepted: seq<seq<byte>>, data: seq<byte>, m: nat)
    requires ConsumerOk(c, tail, accepted, m)
    ensures ConsumerOk(c, tail, accepted + [data], m)
  {
    hide LE;
  }

  lemma ConsumerKeepsLocal(s: State)
    requires Inv(s) && (s.consumer.RIdle? || s.consumer.RLoadTail? || s.consumer.RLoadHead? || s.consumer.RCheck?)
    ensures Inv(ConsumerNext(s))
  {
    hide IsCapacity, Flatten, Frame, LE;
    if s.consumer.RLoadHead? && s.head != s.tail {
      assert s.accepted[..|s.accepted|] == s.accepted;
    }
  }

  /** The next unread byte of the oldest record's frame is live. */
  lemma NextByteIsLive(s: State, i: nat)
    requires Inv(s) && |s.consumed| < |s.accepted| && i < HEADER_BYTES + |s.accepted[|s.consumed|]|
    ensures Released(s) + i < Published(s)
    ensures At(s.storage, Released(s) + i)
         == if i < HEADER_BYTES then LE(|s.accepted[|s.consumed|]|, 4)[i]
            else s.accepted[|s.consumed|][i - HEADER_BYTES]
  {
    var m, t := |s.consumed|, Released(s);
    FlattenAt(s.accepted, m);
    hide IsCapacity, Flatten, Frame, LE;
    var all, record := Flatten(s.accepted), s.accepted[m];
    assert At(s.storage, t + i) == all[t + i];
    if i < HEADER_BYTES {
      assert all[t..t + 4][i] == all[t + i];
    } else {
      assert all[t + 4..t + 4 + |record|][i - 4] == all[t + i];
    }
  }

  /** A header step appends the next byte of the oldest record's length to what was read. */
  lemma HeaderStep(s: State)
    requires Inv(s) && s.consumer.RHeader? && |s.consumer.got| < HEADER_BYTES
    ensures |s.consumed| < |s.accepted|
    ensures ConsumerNext(s) == s.(consumer := RHeader(s.consumer.room, s.consumer.t,
                                    s.consumer.got + [LE(|s.accepted[|s.consumed|]|, 4)[|s.consumer.got|]]))
  {
    hide Flatten, Frame, LE, LiveBytes, ProducerOk, ReadHeaderCell;
    HeaderCellIsPosition(Released(s), |s.consumer.got|, |s.storage|);
    NextByteIsLive(s, |s.consumer.got|);
  }

  /** With the whole header read, the length decides. */
  lemma LengthStep(s: State)
    requires Inv(s) && s.consumer.RHeader? && |s.consumer.got| == HEADER_BYTES
    ensures |s.consumed| < |s.accepted|
    ensures var len := |s.accepted[|s.consumed|]|;
            ConsumerNext(s) == s.(consumer := if s.consumer.room < len then RIdle else RBody(s.consumer.t, len, []))
  {
    LengthFits(s);
    hide SharedOk, ProducerOk, FromLE, LE, Flatten;
    LE4(|s.accepted[|s.consumed|]|);
    assert s.consumer.got == LE(|s.accepted[|s.consumed|]|, 4);
  }

  lemma ConsumerKeepsHeader(s: State)
    requires Inv(s) && s.consumer.RHeader?
    ensures Inv(ConsumerNext(s))
  {
    hide IsCapacity, Flatten, Frame, LE, SharedOk, ProducerOk, ConsumerNext;
    var n, header := |s.consumer.got|, LE(|s.accepted[|s.consumed|]|, 4);
    if n < HEADER_BYTES {
      HeaderStep(s);
      assert header[..n + 1] == header[..n] + [header[n]];
    } else {
      LengthStep(s);
    }
  }

  /** A body step appends the record's next byte to what was read. */
  lemma BodyStep(s: State)
    requires Inv(s) && s.consumer.RBody? && |s.consumer.got| < s.consumer.len
    ensures |s.consumed| < |s.accepted| && s.consumer.len == |s.accepted[|s.consumed|]|
    ensures var (t, len, got) := (s.consumer.t, s.consumer.len, s.consumer.got);
            ConsumerNext(s) == s.(consumer := RBody(t, len, got + [s.accepted[|s.consumed|][|got|]]))
    ensures ReadBodyCell(s.consumer.t, |s.consumer.got|, |s.storage|)
         == (Released(s) + HEADER_BYTES + |s.consumer.got|) % |s.storage|
  {
    var n, t := |s.consumer.got|, Released(s);
    hide Flatten, Frame, LE, ReadBodyCell, ProducerOk, LiveBytes;
    NextByteIsLive(s, HEADER_BYTES + n);
    BodyCellIsPosition(t, n, |s.storage|);
  }

  lemma ConsumerKeepsBody(s: State)
    requires Inv(s) && s.consumer.RBody? && |s.consumer.got| < s.consumer.len
    ensures Inv(ConsumerNext(s))
  {
    hide IsCapacity, Flatten, Frame, LE, ReadBodyCell, SharedOk, ProducerOk, ConsumerNext;
    BodyStep(s);
    var record, n := s.accepted[|s.consumed|], |s.consumer.got|;
    assert record[..n + 1] == record[..n] + [record[n]];
  }

  lemma BodyCellIsPosition(start: nat, n: nat, cap: nat)
    requires IsCapacity(cap) && cap > 0 && n < cap
    ensures ReadBodyCell(start % U64, n, cap) == (start + HEADER_BYTES + n) % cap
  {
    CapacityFacts(cap, start % U64);
    hide Index, And;
    AdvanceTwice(0, start, HEADER_BYTES);
    assert (start % U64 + HEADER_BYTES) % U64 == (start + HEADER_BYTES) % U64;
    PositionCell(start + HEADER_BYTES, n, cap);
  }

  /** Releasing gives back exactly the frame that was read. */
  lemma ReleaseStep(s: State)
    requires Inv(s) && s.consumer.RBody? && |s.consumer.got| == s.consumer.len
    ensures |s.consumed| < |s.accepted|
    ensures var record := s.accepted[|s.consumed|];
            ConsumerNext(s) == s.(tail := (s.tail + HEADER_BYTES + |record|) % U64, consumer := RIdle,
                                  consumed := s.consumed + [record])
  {
    hide SharedOk, ProducerOk, Flatten;
    assert s.consumer.got == s.accepted[|s.consumed|];
  }

  lemma ConsumerKeepsRelease(s: State)
    requires Inv(s) && s.consumer.RBody? && |s.consumer.got| == s.consumer.len
    ensures Inv(ConsumerNext(s))
    ensures ConsumerNext(s).consumed == s.accepted[..|s.consumed| + 1]
  {
    hide IsCapacity, Flatten, Counters, ProducerOk, ConsumerNext;
    ReleaseStep(s);
    var t, n := Released(s), HEADER_BYTES + |s.accepted[|s.consumed|]|;
    ReleaseCounters(|s.storage|, s.head, s.tail, s.accepted, s.consumed);
    LiveBytesBehind(s.storage, t, t + n, Flatten(s.accepted));
    ReleaseHelpsProducer(s.producer, s.storage, s.head, Published(s), t, t + n);
    hide LiveBytes;
  }

  lemma ReleaseCounters(cap: nat, head: u64, tail: u64, accepted: seq<seq<byte>>, consumed: seq<seq<byte>>)
    requires Counters(cap, head, tail, accepted, consumed) && |consumed| < |accepted|
    ensures var record := accepted[|consumed|];
            && Counters(cap, head, (tail + HEADER_BYTES + |record|) % U64, accepted, consumed + [record])
            && |Flatten(consumed + [record])| == |Flatten(consumed)| + (HEADER_BYTES + |record|)
            && consumed + [record] == accepted[..|consumed| + 1]
  {
    hide Flatten;
    NextReleased(accepted, |consumed|);
    AdvanceTwice(0, |Flatten(consumed)|, HEADER_BYTES + |accepted[|consumed|]|);
  }

  lemma NextReleased(accepted: seq<seq<byte>>, m: nat)
    requires m < |accepted|
    ensures accepted[..m] + [accepted[m]] == accepted[..m + 1]
    ensures |Flatten(accepted[..m + 1])| == |Flatten(accepted[..m])| + (HEADER_BYTES + |accepted[m]|)
    ensures |Flatten(accepted[..m + 1])| <= |Flatten(accepted)|
  {
    FlattenAt(accepted, m);
  }

  lemma LiveBytesBehind(storage: seq<byte>, from: nat, later: nat, stream: seq<byte>)
    requires |storage| > 0 && LiveBytes(storage, from, stream) && from <= later
    ensures LiveBytes(storage, later, stream)
  {
  }

  lemma ReleaseHelpsProducer(p: Producer, storage: seq<byte>, head: u64, published: nat, before: nat, after: nat)
    requires |storage| > 0 && ProducerOk(p, storage, head, published, before) && before <= after
    ensures ProducerOk(p, storage, head, published, after)
  {
  }

  /** Every step of either thread keeps the invariant. */
  lemma NextKeeps(s: State, a: Action)
    requires Inv(s)
    ensures Inv(Next(s, a))
  {
    hide IsCapacity, Flatten, Frame, LE, WriteCell, ReadHeaderCell, ReadBodyCell;
    match a
    case CallWrite(_) => CallKeeps(s, a);
    case CallRead(_) => CallKeeps(s, a);
    case ProducerStep =>
      match s.producer {
        case WCheck(_, _, _, _) => ProducerKeepsCheck(s);
        case WCopy(data, _, done) =>
          if done < HEADER_BYTES + |data| {
            ProducerKeepsCopy(s);
          } else {
            ProducerKeepsPublish(s);
          }
        case _ => ProducerKeepsLocal(s);
      }
    case ConsumerStep =>
      match s.consumer {
        case RHeader(_, _, _) => ConsumerKeepsHeader(s);
        case RBody(_, len, got) =>
          if |got| < len {
            ConsumerKeepsBody(s);
          } else {
            ConsumerKeepsRelease(s);
          }
        case _ => ConsumerKeepsLocal(s);
      }
  }

  // ---------- whole runs ----------

  lemma NextKeepsSize(s: State, a: Action)
    requires |s.storage| > 0
    ensures |Next(s, a).storage| == |s.storage|
  {
    hide Frame, LE, WriteCell, ReadHeaderCell, ReadBodyCell;
  }

  function Run(s: State, actions: seq<Action>): State
    requires |s.storage| > 0
    decreases actions
  {
    if actions == [] then s else
      NextKeepsSize(s, actions[0]);
      Run(Next(s, actions[0]), actions[1..])
  }

  lemma {:induction false} RunKeeps(s: State, actions: seq<Action>)
    requires Inv(s)
    ensures Inv(Run(s, actions))
    decreases actions
  {
    hide Next;
    if actions != [] {
      NextKeeps(s, actions[0]);
      RunKeeps(Next(s, actions[0]), actions[1..]);
    }
  }

  /**
   In every interleaving the consumed records are byte for byte the first accepted ones, no copy leaves the
   storage, and at most one lap of bytes is outstanding.
   */
  lemma ConsumedIsPrefixOfAccepted(cap: nat, actions: seq<Action>)
    requires IsCapacity(cap)
    ensures cap > 0
    ensures var s := Run(Init(cap), actions);
            && |s.consumed| <= |s.accepted| && s.consumed == s.accepted[..|s.consumed|]
            && !s.fault
            && Published(s) - Released(s) <= |s.storage|
  {
    InitInv(cap);
    hide Run, Init;
    RunKeeps(Init(cap), actions);
  }

  /** The cell the producer's next step would store to. */
  function NextStore(s: State): (cells: set<nat>)
    requires |s.storage| > 0
  {
    match s.producer
    case WCopy(data, h, done) => if done < HEADER_BYTES + |data| then {WriteCell(h, done, |s.storage|)} else {}
    case _ => {}
  }

  /** The cell the consumer's next step would load from. */
  function NextLoad(s: State): (cells: set<nat>)
    requires |s.storage| > 0
  {
    match s.consumer
    case RHeader(_, t, got) => if |got| < HEADER_BYTES then {ReadHeaderCell(t, |got|, |s.storage|)} else {}
    case RBody(t, len, got) => if |got| < len then {ReadBodyCell(t, |got|, |s.storage|)} else {}
    case _ => {}
  }

  /** All cells of the frame that the producer is copying, header and data, stored already or not. */
  function WrittenFrame(s: State): (cells: set<nat>)
    requires |s.storage| > 0
  {
    match s.producer
    case WCopy(data, h, _) => set i | 0 <= i < HEADER_BYTES + |data| :: WriteCell(h, i, |s.storage|)
    case _ => {}
  }

  /** All cells of the frame that the consumer is reading, header and body, loaded already or not. */
  function ReadFrame(s: State): (cells: set<nat>)
    requires |s.storage| > 0
  {
    if |s.consumed| < |s.accepted| then
      match s.consumer
      case RHeader(_, t, _) => FrameCells(t, |s.accepted[|s.consumed|]|, |s.storage|)
      case RBody(t, _, _) => FrameCells(t, |s.accepted[|s.consumed|]|, |s.storage|)
      case _ => {}
    else {}
  }

  function FrameCells(t: u64, len: nat, cap: nat): (cells: set<nat>)
    requires cap > 0
  {
    (set i | 0 <= i < HEADER_BYTES :: ReadHeaderCell(t, i, cap)) + (set i | 0 <= i < len :: ReadBodyCell(t, i, cap))
  }

  /**
   Neither side touches a byte the other may be using: in every reachable state the frame being written and the
   frame being read share no cell, and each side's next access is inside its own frame.
   */
  lemma NoRace(cap: nat, actions: seq<Action>)
    requires IsCapacity(cap)
    ensures cap > 0
    ensures var s := Run(Init(cap), actions);
            && |s.storage| > 0 && WrittenFrame(s) !! ReadFrame(s)
            && NextStore(s) <= WrittenFrame(s) && NextLoad(s) <= ReadFrame(s)
  {
    InitInv(cap);
    RunKeeps(Init(cap), actions);
    var s := Run(Init(cap), actions);
    hide Run, Init;
    FramesDiffer(s);
    NextInFrame(s);
  }

  lemma NextInFrame(s: State)
    requires Inv(s)
    ensures NextStore(s) <= WrittenFrame(s) && NextLoad(s) <= ReadFrame(s)
  {
    hide SharedOk, Flatten, Frame, LE, WriteCell, ReadHeaderCell, ReadBodyCell;
  }

  /** The same in every state that satisfies the invariant. */
  lemma FramesDiffer(s: State)
    requires Inv(s)
    ensures WrittenFrame(s) !! ReadFrame(s)
  {
    if s.producer.WCopy? && |s.consumed| < |s.accepted| && (s.consumer.RHeader? || s.consumer.RBody?) {
      var cap, size := |s.storage|, HEADER_BYTES + |s.producer.data|;
      forall w, r | w in WrittenFrame(s) && r in ReadFrame(s)
        ensures w != r
      {
        var j := WrittenPosition(s, w);
        var i := ReadPosition(s, r);
        hide Inv, WrittenFrame, ReadFrame;
        CellsDiffer(i, j, cap);
      }
    }
  }

  /** Every cell being written is that of a position behind the published bytes, within a lap of the released ones. */
  lemma WrittenPosition(s: State, cell: nat) returns (p: nat)
    requires Inv(s) && cell in WrittenFrame(s)
    ensures cell == p % |s.storage| && Published(s) <= p < Released(s) + |s.storage|
  {
    hide WriteCell;
    var i :| 0 <= i < HEADER_BYTES + |s.producer.data| && cell == WriteCell(s.producer.h, i, |s.storage|);
    WriteCellIsPosition(Published(s), i, |s.storage|);
    p := Published(s) + i;
  }

  /** Every cell being read is that of a published position that is not yet released. */
  lemma ReadPosition(s: State, cell: nat) returns (p: nat)
    requires Inv(s) && cell in ReadFrame(s)
    ensures cell == p % |s.storage| && Released(s) <= p < Published(s)
  {
    var cap, t, len := |s.storage|, Released(s), |s.accepted[|s.consumed|]|;
    var tail := s.tail;
    NextByteIsLive(s, HEADER_BYTES + len - 1);
    CapacityFacts(cap, tail);
    hide ReadHeaderCell, ReadBodyCell, Index, And;
    if i :| 0 <= i < HEADER_BYTES && cell == ReadHeaderCell(tail, i, cap) {
      HeaderCellIsPosition(t, i, cap);
      p := t + i;
    } else {
      var i :| 0 <= i < len && cell == ReadBodyCell(tail, i, cap);
      BodyCellIsPosition(t, i, cap);
      p := t + HEADER_BYTES + i;
    }
  }

  lemma HeaderCellIsPosition(start: nat, n: nat, cap: nat)
    requires IsCapacity(cap) && cap > 0 && n < HEADER_BYTES
    ensures ReadHeaderCell(start % U64, n, cap) == (start + n) % cap
  {
    CapacityFacts(cap, start % U64);
    hide Index, And;
    PositionCell(start, n, cap);
  }

  // ---------- what a call achieves, however it is interleaved ----------

  /** How often an action occurs. */
  function Count(actions: seq<Action>, a: Action): nat
    decreases actions
  {
    if actions == [] then 0 else (if actions[0] == a then 1 else 0) + Count(actions[1..], a)
  }

  /** No further read is begun. */
  predicate NoReads(actions: seq<Action>) {
    forall a | a in actions :: !a.CallRead?
  }

  /** No further write is begun. */
  predicate NoWrites(actions: seq<Action>) {
    forall a | a in actions :: !a.CallWrite?
  }

  lemma FirstOf(actions: seq<Action>)
    requires actions != []
    ensures NoReads(actions) ==> !actions[0].CallRead? && NoReads(actions[1..])
    ensures NoWrites(actions) ==> !actions[0].CallWrite? && NoWrites(actions[1..])
  {
    assert actions[0] in actions;
  }

  lemma HeadMeetsTailIffEmpty(s: State)
    requires Inv(s)
    ensures s.head != s.tail <==> |s.consumed| < |s.accepted|
  {
    LapBounds(s);
    if |s.consumed| < |s.accepted| {
      FlattenAt(s.accepted, |s.consumed|);
    } else {
      assert s.accepted[..|s.accepted|] == s.accepted;
    }
    hide SharedOk, ProducerOk, ConsumerOk, Flatten, Frame, LE;
    SamePosition(Released(s), Published(s));
  }

  lemma LapBounds(s: State)
    requires Inv(s)
    ensures s.consumed == s.accepted[..|s.consumed|] && |s.consumed| <= |s.accepted|
    ensures s.head == Published(s) % U64 && s.tail == Released(s) % U64
    ensures Released(s) <= Published(s) < Released(s) + U64
  {
    CapacityFacts(|s.storage|, s.head);
    hide IsCapacity, Index, And, ProducerOk, ConsumerOk, Flatten;
  }

  /** Positions less than 2^64 apart wrap to the same value only if they are the same. */
  lemma SamePosition(from: nat, to: nat)
    requires from <= to < from + U64
    ensures from % U64 == to % U64 <==> from == to
  {
    DistanceOf(from, to);
  }

  lemma LengthFits(s: State)
    requires Inv(s) && |s.consumed| < |s.accepted|
    ensures |s.accepted[|s.consumed|]| < U32
  {
    CapacityFacts(|s.storage|, s.head);
    FlattenAt(s.accepted, |s.consumed|);
  }

  /** The producer leaves the consumer's part of the state alone; accepted records stay. */
  lemma ProducerLeavesConsumer(s: State, a: Action)
    requires |s.storage| > 0 && (a.CallWrite? || a.ProducerStep?)
    ensures var r := Next(s, a);
            && r.consumer == s.consumer && r.consumed == s.consumed && r.tail == s.tail
            && s.accepted <= r.accepted
  {
    hide Frame, WriteCell;
  }

  /** The consumer leaves the producer's part of the state alone; what it released stays released. */
  lemma ConsumerLeavesProducer(s: State, a: Action)
    requires Inv(s) && (a.CallRead? || a.ConsumerStep?)
    ensures var r := Next(s, a);
            && r.producer == s.producer && r.accepted == s.accepted && r.head == s.head
            && |r.storage| == |s.storage| && Released(s) <= Released(r)
  {
    hide ReadHeaderCell, ReadBodyCell, Flatten, SharedOk, ProducerOk;
    if a.ConsumerStep? && s.consumer.RBody? && |s.consumer.got| == s.consumer.len {
      FlattenAppend(s.consumed, s.consumer.got);
    }
  }

  /** The oldest queued record is delivered if the caller has room for it. */
  function Delivered(s: State, room: nat): seq<seq<byte>>
    requires |s.consumed| < |s.accepted|
  {
    var record := s.accepted[|s.consumed|];
    if |record| <= room then s.consumed + [record] else s.consumed
  }

  /** The read's outcome is decided: its positions are loaded, or something is queued already. */
  ghost predicate ReadDecided(s: State) {
    (s.consumer.RLoadTail? || s.consumer.RLoadHead?) ==> |s.consumed| < |s.accepted|
  }

  /** What will have been consumed when the read ends. */
  ghost function ReadOutcome(s: State): seq<seq<byte>>
    requires Inv(s) && ReadDecided(s)
  {
    match s.consumer
    case RIdle => s.consumed
    case RLoadTail(room) => Delivered(s, room)
    case RLoadHead(room, _) => Delivered(s, room)
    case RCheck(room, t, h) => if h == t then s.consumed else Delivered(s, room)
    case RHeader(room, _, _) => Delivered(s, room)
    case RBody(_, len, _) => Delivered(s, len)
  }

  /** How many consumer steps are left at most. */
  ghost function ReadStepsLeft(s: State): nat
    requires Inv(s) && ReadDecided(s)
  {
    var len := if |s.consumed| < |s.accepted| then |s.accepted[|s.consumed|]| else 0;
    match s.consumer
    case RIdle => 0
    case RLoadTail(_) => 9 + len
    case RLoadHead(_, _) => 8 + len
    case RCheck(_, t, h) => if h == t then 1 else 7 + len
    case RHeader(_, _, got) => 6 + len - |got|
    case RBody(_, _, got) => 1 + len - |got|
  }

  /** No action of either thread changes the outcome of a decided read, and each consumer step brings it nearer. */
  lemma ReadStays(s: State, a: Action)
    requires Inv(s) && ReadDecided(s) && !a.CallRead?
    ensures var r := Next(s, a);
            && Inv(r) && ReadDecided(r) && ReadOutcome(r) == ReadOutcome(s)
            && (a.ConsumerStep? ==> ReadStepsLeft(r) <= if ReadStepsLeft(s) > 0 then ReadStepsLeft(s) - 1 else 0)
            && (!a.ConsumerStep? ==> ReadStepsLeft(r) == ReadStepsLeft(s))
  {
    NextKeeps(s, a);
    if a.ConsumerStep? {
      ConsumerStays(s);
    } else {
      ProducerLeavesConsumer(s, a);
      hide SharedOk, ProducerOk, Next;
    }
  }

  lemma ConsumerStays(s: State)
    requires Inv(s) && ReadDecided(s) && Inv(ConsumerNext(s))
    ensures var r := ConsumerNext(s);
            && ReadDecided(r) && ReadOutcome(r) == ReadOutcome(s)
            && ReadStepsLeft(r) <= if ReadStepsLeft(s) > 0 then ReadStepsLeft(s) - 1 else 0
  {
    if s.consumer.RLoadHead? {
      HeadMeetsTailIffEmpty(s);
    }
    hide SharedOk, ProducerOk;
    if s.consumer.RHeader? {
      HeaderStays(s);
    } else if s.consumer.RBody? {
      BodyStays(s);
    }
  }

  lemma HeaderStays(s: State)
    requires Inv(s) && s.consumer.RHeader? && Inv(ConsumerNext(s))
    ensures var r := ConsumerNext(s);
            && ReadDecided(r) && ReadOutcome(r) == ReadOutcome(s)
            && ReadStepsLeft(s) > 0 && ReadStepsLeft(r) <= ReadStepsLeft(s) - 1
  {
    hide SharedOk, ProducerOk, ConsumerNext, LE;
    if |s.consumer.got| < HEADER_BYTES {
      HeaderStep(s);
    } else {
      LengthStep(s);
    }
  }

  lemma BodyStays(s: State)
    requires Inv(s) && s.consumer.RBody? && Inv(ConsumerNext(s))
    ensures var r := ConsumerNext(s);
            && ReadDecided(r) && ReadOutcome(r) == ReadOutcome(s)
            && ReadStepsLeft(s) > 0 && ReadStepsLeft(r) <= ReadStepsLeft(s) - 1
  {
    hide SharedOk, ProducerOk, ConsumerNext;
    if |s.consumer.got| < s.consumer.len {
      BodyStep(s);
    } else {
      ReleaseStep(s);
    }
  }

  lemma {:induction false} ReadEnds(s: State, actions: seq<Action>)
    requires Inv(s) && ReadDecided(s) && NoReads(actions) && Count(actions, ConsumerStep) >= ReadStepsLeft(s)
    ensures Inv(Run(s, actions)) && Run(s, actions).consumer.RIdle? && Run(s, actions).consumed == ReadOutcome(s)
    decreases actions
  {
    hide SharedOk, ProducerOk, Next, NoReads;
    if actions != [] {
      FirstOf(actions);
      ReadStays(s, actions[0]);
      ReadEnds(Next(s, actions[0]), actions[1..]);
    }
  }

  /**
   A read of a queued record is never lost: whatever the producer does in between, once the consumer has made all
   its steps the call has delivered exactly that record, or left everything queued if the caller has no room.
   */
  lemma ReadDelivers(s: State, room: nat, actions: seq<Action>)
    requires Inv(s) && s.consumer.RIdle? && |s.consumed| < |s.accepted|
    requires NoReads(actions) && Count(actions, ConsumerStep) >= 9 + |s.accepted[|s.consumed|]|
    ensures var r, record := Run(Next(s, CallRead(room)), actions), s.accepted[|s.consumed|];
            && Inv(r) && r.consumer.RIdle?
            && r.consumed == if |record| <= room then s.consumed + [record] else s.consumed
  {
    var called := Next(s, CallRead(room));
    NextKeeps(s, CallRead(room));
    assert called == s.(consumer := RLoadTail(room));
    hide SharedOk, ProducerOk, Next;
    ReadEnds(called, actions);
  }

  /** Between loading tail and loading head the consumer makes one step; nothing is consumed. */
  lemma {:induction false} LoadsTail(s: State, room: nat, actions: seq<Action>)
    requires Inv(s) && NoReads(actions)
    requires || (s.consumer == RLoadTail(room) && Count(actions, ConsumerStep) == 1)
             || (s.consumer == RLoadHead(room, s.tail) && Count(actions, ConsumerStep) == 0)
    ensures var r := Run(s, actions);
            && Inv(r) && r.consumer == RLoadHead(room, r.tail) && r.consumed == s.consumed && s.accepted <= r.accepted
    decreases actions
  {
    if actions != [] {
      FirstOf(actions);
      NextKeeps(s, actions[0]);
      if !actions[0].ConsumerStep? {
        ProducerLeavesConsumer(s, actions[0]);
      }
      var next := Next(s, actions[0]);
      assert s.accepted <= next.accepted && next.consumed == s.consumed;
      hide Inv, Next, NoReads;
      LoadsTail(next, room, actions[1..]);
    }
  }

  /**
   The exact result of any interleaved read, by what was queued when it loaded head: the oldest record is delivered
   if there was one and the caller has room for it; otherwise nothing is consumed.
   */
  lemma ReadInterleaved(s: State, room: nat, before: seq<Action>, after: seq<Action>)
    requires Inv(s) && s.consumer.RIdle? && NoReads(before) && NoReads(after) && Count(before, ConsumerStep) == 1
    requires var loaded, m := Run(Next(s, CallRead(room)), before), |s.consumed|;
             Count(after, ConsumerStep) >= 7 + if m < |loaded.accepted| then |loaded.accepted[m]| else 0
    ensures var loaded, m := Run(Next(s, CallRead(room)), before), |s.consumed|;
            && |loaded.storage| > 0
            && var r := Run(Next(loaded, ConsumerStep), after);
               && Inv(r) && r.consumer.RIdle?
               && r.consumed == if m < |loaded.accepted| && |loaded.accepted[m]| <= room
                                then s.consumed + [loaded.accepted[m]] else s.consumed
  {
    var called := Next(s, CallRead(room));
    NextKeeps(s, CallRead(room));
    LoadsTail(called, room, before);
    var loaded := Run(called, before);
    NextKeeps(loaded, ConsumerStep);
    HeadMeetsTailIffEmpty(loaded);
    var checked := Next(loaded, ConsumerStep);
    assert checked == loaded.(consumer := RCheck(room, loaded.tail, loaded.head));
    hide SharedOk, ProducerOk, Next, Run;
    ReadEnds(checked, after);
  }

  // ---------- writes ----------

  /** The write's outcome is decided: tail is loaded, or the frame fits already. */
  ghost predicate WriteDecided(s: State) {
    match s.producer
    case WLoadHead(data) => Published(s) + HEADER_BYTES + |data| <= Released(s) + |s.storage|
    case WLoadTail(data, _) => Published(s) + HEADER_BYTES + |data| <= Released(s) + |s.storage|
    case _ => true
  }

  /** What will have been accepted when the write ends. */
  ghost function WriteOutcome(s: State): seq<seq<byte>> {
    match s.producer
    case WIdle => s.accepted
    case WLoadHead(data) => s.accepted + [data]
    case WLoadTail(data, _) => s.accepted + [data]
    case WCheck(data, _, _, seen) =>
      if Published(s) + HEADER_BYTES + |data| <= seen + |s.storage| then s.accepted + [data] else s.accepted
    case WCopy(data, _, _) => s.accepted + [data]
  }

  /** How many producer steps are left at most. */
  ghost function WriteStepsLeft(s: State): nat
    requires Inv(s)
  {
    match s.producer
    case WIdle => 0
    case WLoadHead(data) => 8 + |data|
    case WLoadTail(data, _) => 7 + |data|
    case WCheck(data, _, _, _) => 6 + |data|
    case WCopy(data, _, done) => 5 + |data| - done
  }

  /** No action of either thread changes the outcome of a decided write, and each producer step brings it nearer. */
  lemma WriteStays(s: State, a: Action)
    requires Inv(s) && WriteDecided(s) && !a.CallWrite?
    ensures var r := Next(s, a);
            && Inv(r) && WriteDecided(r) && WriteOutcome(r) == WriteOutcome(s)
            && (a.ProducerStep? ==> WriteStepsLeft(r) <= if WriteStepsLeft(s) > 0 then WriteStepsLeft(s) - 1 else 0)
            && (!a.ProducerStep? ==> WriteStepsLeft(r) == WriteStepsLeft(s))
  {
    NextKeeps(s, a);
    if a.ProducerStep? {
      ProducerStays(s);
    } else {
      ConsumerLeavesProducer(s, a);
      hide SharedOk, ConsumerOk, Next, Flatten;
    }
  }

  lemma ProducerStays(s: State)
    requires Inv(s) && WriteDecided(s) && Inv(ProducerNext(s))
    ensures var r := ProducerNext(s);
            && WriteDecided(r) && WriteOutcome(r) == WriteOutcome(s)
            && WriteStepsLeft(r) <= if WriteStepsLeft(s) > 0 then WriteStepsLeft(s) - 1 else 0
  {
    hide SharedOk, ConsumerOk, Flatten, Frame;
    match s.producer
    case WCheck(_, _, _, _) =>
      CheckStep(s);
      hide ProducerNext;
    case WCopy(data, _, done) =>
      if done < HEADER_BYTES + |data| {
        CopyStep(s);
        hide ProducerNext;
      }
    case _ =>
  }

  lemma {:induction false} WriteEnds(s: State, actions: seq<Action>)
    requires Inv(s) && WriteDecided(s) && NoWrites(actions) && Count(actions, ProducerStep) >= WriteStepsLeft(s)
    ensures Inv(Run(s, actions)) && Run(s, actions).producer.WIdle? && Run(s, actions).accepted == WriteOutcome(s)
    decreases actions
  {
    hide SharedOk, ConsumerOk, Next, NoWrites, WriteDecided, Flatten;
    if actions != [] {
      FirstOf(actions);
      WriteStays(s, actions[0]);
      WriteEnds(Next(s, actions[0]), actions[1..]);
    }
  }

  /** A write that fits when it is called is accepted, whatever the consumer does in between. */
  lemma WriteAccepts(s: State, data: seq<byte>, actions: seq<Action>)
    requires Inv(s) && s.producer.WIdle? && Published(s) + HEADER_BYTES + |data| <= Released(s) + |s.storage|
    requires NoWrites(actions) && Count(actions, ProducerStep) >= 8 + |data|
    ensures var r := Run(Next(s, CallWrite(data)), actions);
            Inv(r) && r.producer.WIdle? && r.accepted == s.accepted + [data]
  {
    LapBounds(s);
    var called := Next(s, CallWrite(data));
    NextKeeps(s, CallWrite(data));
    assert called == s.(producer := WLoadHead(data));
    hide SharedOk, ConsumerOk, Next, Flatten;
    WriteEnds(called, actions);
  }

  /** Between the call and loading tail the producer makes one step; nothing is accepted. */
  lemma {:induction false} LoadsHead(s: State, data: seq<byte>, actions: seq<Action>)
    requires Inv(s) && NoWrites(actions)
    requires || (s.producer == WLoadHead(data) && Count(actions, ProducerStep) == 1)
             || (s.producer == WLoadTail(data, s.head) && Count(actions, ProducerStep) == 0)
    ensures var r := Run(s, actions);
            && Inv(r) && r.producer == WLoadTail(data, r.head) && r.accepted == s.accepted
            && |r.storage| == |s.storage| && Released(s) <= Released(r)
    decreases actions
  {
    if actions != [] {
      FirstOf(actions);
      NextKeeps(s, actions[0]);
      if !actions[0].ProducerStep? {
        ConsumerLeavesProducer(s, actions[0]);
      }
      var next := Next(s, actions[0]);
      assert next.accepted == s.accepted && |next.storage| == |s.storage|;
      hide Inv, Next, NoWrites, Flatten;
      LoadsHead(next, data, actions[1..]);
    }
  }

  lemma {:induction false} RunKeepsSize(s: State, actions: seq<Action>)
    requires |s.storage| > 0
    ensures |Run(s, actions).storage| == |s.storage|
    decreases actions
  {
    if actions != [] {
      NextKeepsSize(s, actions[0]);
      hide Next;
      RunKeepsSize(Next(s, actions[0]), actions[1..]);
    }
  }

  /**
   The exact result of any interleaved write, by what was released when it loaded tail: the record is accepted if its
   frame fits into the space free then; otherwise nothing is. One too large for the ring is refused before any load.
   */
  lemma WriteInterleaved(s: State, data: seq<byte>, before: seq<Action>, after: seq<Action>)
    requires Inv(s) && s.producer.WIdle?
    requires NoWrites(before) && NoWrites(after) && Count(before, ProducerStep) == 1
    requires Count(after, ProducerStep) >= 6 + |data|
    ensures var loaded := Run(Next(s, CallWrite(data)), before);
            && |loaded.storage| == |s.storage| && loaded.accepted == s.accepted
            && var r := Run(Next(loaded, ProducerStep), after);
               && Inv(r) && r.producer.WIdle?
               && r.accepted == if Published(s) + HEADER_BYTES + |data| <= Released(loaded) + |s.storage|
                                then s.accepted + [data] else s.accepted
  {
    var called := Next(s, CallWrite(data));
    NextKeeps(s, CallWrite(data));
    RunKeepsSize(called, before);
    var loaded := Run(called, before);
    if HEADER_BYTES + |data| <= |s.storage| {
      LoadsHead(called, data, before);
      NextKeeps(loaded, ProducerStep);
      var checked := Next(loaded, ProducerStep);
      assert checked == loaded.(producer := WCheck(data, loaded.head, loaded.tail, Released(loaded)));
      hide SharedOk, ConsumerOk, Next, Run, Flatten;
      WriteEnds(checked, after);
    } else {
      assert called == s;
      WriteEnds(s, before);
      LapBounds(loaded);
      assert Next(loaded, ProducerStep) == loaded;
      hide SharedOk, ConsumerOk, Next, Run, Flatten;
      WriteEnds(loaded, after);
    }
  }
}
