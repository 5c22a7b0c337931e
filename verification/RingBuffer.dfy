/** The single-producer single-consumer byte ring, used from one thread: a bounded queue of byte records. */
module RingBuffers {
  import opened Bytes
  import opened Ring

  class RingBuffer {
    const capacity: nat
    const storage: array<byte>
    var head: u64
    var tail: u64
    ghost var records: seq<seq<byte>>

    ghost predicate Valid()
      reads this, storage
    {
      storage.Length == capacity && Queued(storage[..], head, tail, records)
    }

    /** An empty ring whose positions start anywhere; the program starts both at 0. */
    constructor (capacity: nat, start: u64)
      requires IsCapacity(capacity)
      ensures Valid() && fresh(storage) && this.capacity == capacity && records == []
    {
      this.capacity := capacity;
      storage := new byte[capacity](_ => 0);
      head, tail := start, start;
      records := [];
      new;
      EmptyQueued(storage[..], start);
    }

    method Size() returns (n: nat)
      requires Valid()
      ensures n == |Flatten(records)| <= capacity
    {
      UsedBytes(storage[..], head, tail, records);
      n := (head + U64 - tail) % U64;
    }

    method FreeSpace() returns (n: nat)
      requires Valid()
      ensures n == capacity - |Flatten(records)|
    {
      var used := Size();
      n := capacity - used;
    }

    /** Copies bytes to a position, in two pieces when they cross the edge of the storage. */
    method WriteAt(pos: u64, src: seq<byte>)
      requires IsCapacity(capacity) && storage.Length == capacity && |src| <= capacity
      modifies storage
      ensures capacity > 0 && Written(old(storage[..]), storage[..], pos % capacity, src)
    {
      CapacityFacts(capacity, pos);
      var idx := Index(pos, capacity);
      var first := if |src| <= capacity - idx then |src| else capacity - idx;
      forall i | 0 <= i < first {
        storage[idx + i] := src[i];
      }
      if first < |src| {
        forall i | 0 <= i < |src| - first {
          storage[i] := src[first + i];
        }
      }
    }

    /** Copies bytes from a position, in two pieces when they cross the edge of the storage. */
    method ReadAt(pos: u64, size: nat) returns (dst: seq<byte>)
      requires IsCapacity(capacity) && storage.Length == capacity && size <= capacity
      ensures capacity > 0 && |dst| == size && Holds(storage[..], pos % capacity, dst)
    {
      CapacityFacts(capacity, pos);
      var idx := Index(pos, capacity);
      var first := if size <= capacity - idx then size else capacity - idx;
      dst := storage[idx..idx + first];
      if first < size {
        dst := dst + storage[..size - first];
      }
    }

    /** Accepts the record exactly when it and its header fit into the free space; a refusal changes nothing. */
    method Write(data: seq<byte>) returns (r: Result<()>)
      requires Valid()
      modifies this, storage
      ensures Valid()
      ensures r == if |data| > capacity - HEADER_BYTES then Err(PayloadTooLarge)
                   else if |Flatten(old(records))| + HEADER_BYTES + |data| > capacity then Err(MemoryExhausted)
                   else Ok(())
      ensures r.Ok? ==> records == old(records) + [data] && tail == old(tail)
      ensures r.Err? ==> unchanged(this) && unchanged(storage)
    {
      UsedBytes(storage[..], head, tail, records);
      if |data| > capacity - HEADER_BYTES {
        return Err(PayloadTooLarge);
      }
      var need := HEADER_BYTES + |data|;
      var h, t := head, tail;
      if capacity - (h + U64 - t) % U64 < need {
        return Err(MemoryExhausted);
      }
      hide Queued, Written, LE;
      ghost var s0 := storage[..];
      var header: seq<byte> := LE(|data|, 4);
      WriteAt(h, header);
      ghost var s1 := storage[..];
      WriteAt((h + HEADER_BYTES) % U64, data);
      PushQueued(s0, s1, storage[..], h, t, records, data);
      head := (h + HEADER_BYTES + |data|) % U64;
      records := records + [data];
      r := Ok(());
    }

    /** Reads the length of the oldest record. */
    method PeekSize() returns (r: Result<nat>)
      requires Valid()
      ensures r == if records == [] then Err(MemoryExhausted) else Ok(|records[0]|)
    {
      UsedBytes(storage[..], head, tail, records);
      if head == tail {
        return Err(MemoryExhausted);
      }
      hide Holds, FromLE;
      var header := ReadAt(tail, HEADER_BYTES);
      HeaderQueued(storage[..], head, tail, records, header);
      r := Ok(FromLE(header));
    }

    /** Copies out the oldest record, whose length has been read, and moves the tail behind it. */
    method Deliver(out: array<byte>, len: nat)
      requires Valid() && out != storage && records != [] && len == |records[0]| <= out.Length
      modifies this`tail, this`records, out
      ensures Valid() && records == old(records)[1..]
      ensures out[..len] == old(records)[0] && out[len..] == old(out[len..])
    {
      hide Queued, Holds;
      QueuedFacts(storage[..], head, tail, records);
      ghost var s := storage[..];
      var body := ReadAt((tail + HEADER_BYTES) % U64, len);
      PopQueued(s, head, tail, records, body);
      CopyOut(out, body);
      assert storage[..] == s;
      tail := (tail + HEADER_BYTES + len) % U64;
      records := records[1..];
    }

    /** Delivers the oldest record if the buffer has room for it; a refusal changes nothing. */
    method Read(out: array<byte>) returns (r: Result<nat>)
      requires Valid() && out != storage
      modifies this, out
      ensures Valid()
      ensures r == if old(records) == [] then Err(MemoryExhausted)
                   else if out.Length < |old(records)[0]| then Err(TruncatedBuffer)
                   else Ok(|old(records)[0]|)
      ensures r.Ok? ==> records == old(records)[1..] && head == old(head)
      ensures r.Ok? ==> out[..r.value] == old(records)[0] && out[r.value..] == old(out[r.value..])
      ensures r.Err? ==> unchanged(this) && unchanged(out)
    {
      UsedBytes(storage[..], head, tail, records);
      var t, h := tail, head;
      if h == t {
        return Err(MemoryExhausted);
      }
      hide Holds, FromLE, Counted;
      var header := ReadAt(t, HEADER_BYTES);
      HeaderQueued(storage[..], h, t, records, header);
      var len := FromLE(header);
      if out.Length < len {
        return Err(TruncatedBuffer);
      }
      hide Queued;
      Deliver(out, len);
      r := Ok(len);
    }
  }
}
