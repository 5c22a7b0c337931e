/** The discovery frame: built by an advertiser, checked, de-duplicated, authenticated and registered by a scanner. */
module Discovery {
  import opened Bytes
  import opened Advertisement

  const MAGIC: u32 := 0x44434144
  const VERSION: u32 := 1
  const HEADER_SIZE := 48

  type Mac = m: seq<byte> | |m| == 32 witness seq(32, _ => 0)
  type Key = k: seq<byte> | |k| == 32 witness seq(32, _ => 0)

  /** The message authentication code is a parameter: any function to 32 bytes. */
  type Hmac = (Key, seq<byte>) -> Mac

  datatype Error = DecodeFailed | VersionMismatch
  datatype Verdict = Registered | Ignored | Bad(error: Error)

  datatype Entry = Entry(
    nodeId: seq<byte>, hostname: seq<byte>, bindAddress: seq<byte>, bindPort: u16, services: seq<seq<byte>>)

  function BE32(n: u32): (r: seq<byte>)
    ensures |r| == 4
  {
    [n / 0x100_0000, n / 0x1_0000 % 256, n / 256 % 256, n % 256]
  }

  function FromBE32(b: seq<byte>): nat
    requires |b| == 4
  {
    (b[0] as int) * 0x100_0000 + (b[1] as int) * 0x1_0000 + (b[2] as int) * 256 + b[3] as int
  }

  /** A pre-shared key of any other length than 32 is dropped, and zeros are used instead. */
  function MacKey(psk: seq<byte>): Key {
    if |psk| == 32 then psk else seq(32, _ => 0)
  }

  // ---------- building ----------

  /** The frame for a payload and a nonce: magic, version, nonce, code over nonce and payload, payload. */
  function BuildFrame(p: Payload, nonce: seq<byte>, psk: seq<byte>, hmac: Hmac): seq<byte>
    requires |nonce| == 8
  {
    BE32(MAGIC) + BE32(VERSION) + nonce + hmac(MacKey(psk), nonce + Serialize(p)) + Serialize(p)
  }

  /** Fills the header buffer field by field and puts the payload behind it. */
  method MakeFrame(p: Payload, nonce: seq<byte>, psk: seq<byte>, hmac: Hmac) returns (frame: seq<byte>)
    requires |nonce| == 8
    ensures frame == BuildFrame(p, nonce, psk, hmac)
  {
    var header := new byte[48](_ => 0);
    PutHead(header, nonce);
    ghost var head := header[..16];
    assert header[8..16] == head[8..16] == nonce;
    var body := SerializePayload(p);
    hide Serialize;
    var mac := hmac(MacKey(psk), header[8..16] + body);
    forall i | 0 <= i < 32 {
      header[16 + i] := mac[i];
    }
    assert header[..16] == head && header[16..] == mac;
    assert header[..] == header[..16] + header[16..];
    frame := header[..] + body;
  }

  /** Magic, version and nonce at the front of the header buffer. */
  method PutHead(header: array<byte>, nonce: seq<byte>)
    requires header.Length == 48 && |nonce| == 8
    modifies header
    ensures header[..16] == BE32(MAGIC) + BE32(VERSION) + nonce
  {
    PutBE32(header, 0, MAGIC);
    PutBE32(header, 4, VERSION);
    forall i | 0 <= i < 8 {
      header[8 + i] := nonce[i];
    }
    hide BE32;
    assert header[0..4] == BE32(MAGIC) && header[4..8] == BE32(VERSION) && header[8..16] == nonce;
    assert header[..16] == header[0..4] + header[4..8] + header[8..16];
  }

  /** Four bytes, most significant first. */
  method PutBE32(buffer: array<byte>, at: nat, n: u32)
    requires at + 4 <= buffer.Length
    modifies buffer
    ensures buffer[at..at + 4] == BE32(n)
    ensures forall i | 0 <= i < buffer.Length && !(at <= i < at + 4) :: buffer[i] == old(buffer[i])
  {
    buffer[at], buffer[at + 1] := n / 0x100_0000, n / 0x1_0000 % 256;
    buffer[at + 2], buffer[at + 3] := n / 256 % 256, n % 256;
  }

  // ---------- nonces ----------

  function HexDigit(n: nat): char
    requires n < 16
  {
    "0123456789abcdef"[n]
  }

  /** The cache key of a nonce: two hexadecimal digits for each byte. */
  function Hex(b: seq<byte>): string {
    if b == [] then "" else [HexDigit(b[0] / 16), HexDigit(b[0] % 16)] + Hex(b[1..])
  }

  lemma HexDigitInjective(m: nat, n: nat)
    requires m < 16 && n < 16 && HexDigit(m) == HexDigit(n)
    ensures m == n
  {
    assert forall i | 0 <= i < 10 :: HexDigit(i) == '0' + i as char;
    assert forall i | 10 <= i < 16 :: HexDigit(i) == 'a' + (i - 10) as char;
  }

  /** Different nonces have different cache keys. */
  lemma {:induction false} HexInjective(a: seq<byte>, b: seq<byte>)
    requires |a| == |b| && Hex(a) == Hex(b)
    ensures a == b
  {
    if a != [] {
      assert Hex(a)[0] == HexDigit(a[0] / 16) && Hex(a)[1] == HexDigit(a[0] % 16) && Hex(a)[2..] == Hex(a[1..]);
      assert Hex(b)[0] == HexDigit(b[0] / 16) && Hex(b)[1] == HexDigit(b[0] % 16) && Hex(b)[2..] == Hex(b[1..]);
      HexDigitInjective(a[0] / 16, b[0] / 16);
      HexDigitInjective(a[0] % 16, b[0] % 16);
      HexInjective(a[1..], b[1..]);
      assert a == [a[0]] + a[1..] && b == [b[0]] + b[1..];
    }
  }

  /** The cache without the nonces seen longer than a window ago. */
  function Purge(seen: map<string, int>, now: int, window: int): map<string, int> {
    map n | n in seen && now - seen[n] <= window :: seen[n]
  }

  /** One judgement: a nonce still in the purged cache is a replay, any other is fresh and remembered. */
  function Judge(seen: map<string, int>, nonce: string, now: int, window: int): (map<string, int>, bool) {
    var kept := Purge(seen, now, window);
    if nonce in kept then (kept, false) else (kept[nonce := now], true)
  }

  // ---------- handling ----------

  function FrameError(frame: seq<byte>): Option<Error> {
    if |frame| < HEADER_SIZE then Some(DecodeFailed)
    else if FromBE32(frame[0..4]) != MAGIC then Some(VersionMismatch)
    else if FromBE32(frame[4..8]) != VERSION then Some(VersionMismatch)
    else None
  }

  function ToEntry(p: Payload): Entry {
    Entry(p.nodeId, p.hostname, p.bindAddress, p.bindPort, p.services)
  }

  datatype State = State(seen: map<string, int>, registry: map<seq<byte>, Entry>)

  /** What a scanner does with one frame at one time. */
  function Handle(s: State, frame: seq<byte>, now: int, window: int, psk: seq<byte>, hmac: Hmac): (State, Verdict) {
    match FrameError(frame)
    case Some(error) => (s, Bad(error))
    case None =>
      var (seen, first) := Judge(s.seen, Hex(frame[8..16]), now, window);
      var s' := s.(seen := seen);
      if !first then (s', Ignored)
      else if hmac(MacKey(psk), frame[8..16] + frame[48..]) != frame[16..48] then (s', Ignored)
      else
        var p := Parse(frame[48..]);
        if p.nodeId == [] then (s', Bad(DecodeFailed))
        else (s'.(registry := s'.registry[p.nodeId := ToEntry(p)]), Registered)
  }

  class Scanner {
    const window: int
    const psk: seq<byte>
    const hmac: Hmac
    var seen: map<string, int>
    var registry: map<seq<byte>, Entry>

    ghost function View(): State
      reads this
    {
      State(seen, registry)
    }

    constructor (window: int, psk: seq<byte>, hmac: Hmac)
      ensures this.window == window && this.psk == psk && this.hmac == hmac && View() == State(map[], map[])
    {
      this.window := window;
      this.psk := psk;
      this.hmac := hmac;
      seen, registry := map[], map[];
    }

    /** Erases expired nonces while walking over the cache. */
    method PurgeExpired(now: int)
      modifies this`seen
      ensures seen == Purge(old(seen), now, window)
    {
      var todo := seen.Keys;
      while todo != {}
        invariant todo <= old(seen).Keys
        invariant seen == map n | n in old(seen) && (n in todo || now - old(seen)[n] <= window) :: old(seen)[n]
        decreases todo
      {
        var n :| n in todo;
        todo := todo - {n};
        if now - seen[n] > window {
          seen := seen - {n};
        }
      }
    }

    method HandleFrame(frame: seq<byte>, now: int) returns (r: Verdict)
      modifies this
      ensures (View(), r) == Handle(old(View()), frame, now, window, psk, hmac)
    {
      if |frame| < HEADER_SIZE {
        return Bad(DecodeFailed);
      }
      if FromBE32(frame[0..4]) != MAGIC {
        return Bad(VersionMismatch);
      }
      if FromBE32(frame[4..8]) != VERSION {
        return Bad(VersionMismatch);
      }
      var nonce := Hex(frame[8..16]);
      PurgeExpired(now);
      if nonce in seen {
        return Ignored;
      }
      seen := seen[nonce := now];
      var macData := frame[8..16] + frame[HEADER_SIZE..];
      if hmac(MacKey(psk), macData) != frame[16..48] {
        return Ignored;
      }
      var payload := ParsePayload(frame[HEADER_SIZE..]);
      if payload.nodeId == [] {
        return Bad(DecodeFailed);
      }
      registry := registry[payload.nodeId := ToEntry(payload)];
      return Registered;
    }
  }

  // ---------- end to end ----------

  lemma FrameParts(p: Payload, nonce: seq<byte>, psk: seq<byte>, hmac: Hmac)
    requires |nonce| == 8
    ensures var frame, body := BuildFrame(p, nonce, psk, hmac), Serialize(p);
            && FrameError(frame) == None
            && frame[8..16] == nonce && frame[48..] == body
            && frame[16..48] == hmac(MacKey(psk), nonce + body)
  {
    var frame := BuildFrame(p, nonce, psk, hmac);
    assert frame[0..4] == BE32(MAGIC) && frame[4..8] == BE32(VERSION);
    hide Serialize;
  }

  /** The registry holds the payload's five fields under its node id, and every other entry as before. */
  ghost predicate RegisteredAs(before: map<seq<byte>, Entry>, after: map<seq<byte>, Entry>, p: Payload) {
    && after.Keys == before.Keys + {p.nodeId}
    && (forall id | id in before && id != p.nodeId :: after[id] == before[id])
    && var e := after[p.nodeId];
       && e.nodeId == p.nodeId && e.hostname == p.hostname && e.bindAddress == p.bindAddress
       && e.bindPort == p.bindPort && e.services == p.services
  }

  /**
   A frame built with the same key and a nonce the scanner does not hold is registered under its node id with
   every field intact if the payload names a node and fits the wire format; if it does not fit, what is
   registered differs from it.
   */
  lemma FrameRegisters(p: Payload, nonce: seq<byte>, psk: seq<byte>, hmac: Hmac, s: State, now: int, window: int)
    requires |nonce| == 8 && Hex(nonce) !in Purge(s.seen, now, window)
    ensures var (after, verdict) := Handle(s, BuildFrame(p, nonce, psk, hmac), now, window, psk, hmac);
            && after.seen == Purge(s.seen, now, window)[Hex(nonce) := now]
            && (Fits(p) && p.nodeId != [] ==> verdict == Registered && RegisteredAs(s.registry, after.registry, p))
            && (!Fits(p) && verdict == Registered ==> exists q :: q != p && RegisteredAs(s.registry, after.registry, q))
            && (verdict != Registered ==> after.registry == s.registry)
  {
    FrameParts(p, nonce, psk, hmac);
    RoundTripIffFits(p);
    var frame := BuildFrame(p, nonce, psk, hmac);
    hide Serialize, Parse, Fits, BuildFrame, FrameError, Hex, Purge;
    hide RegisteredAs;
    if Handle(s, frame, now, window, psk, hmac).1 == Registered {
      EntryKeepsFields(s.registry, Parse(frame[48..]));
    }
  }

  lemma EntryKeepsFields(registry: map<seq<byte>, Entry>, p: Payload)
    ensures RegisteredAs(registry, registry[p.nodeId := ToEntry(p)], p)
  {
  }

  /** The key of the code: the pre-shared one if it has 32 bytes, and 32 zero bytes otherwise. */
  ghost predicate IsCode(code: seq<byte>, psk: seq<byte>, hmac: Hmac, data: seq<byte>) {
    && (|psk| == 32 ==> code == hmac(psk, data))
    && (|psk| != 32 ==> code == hmac(seq(32, _ => 0), data))
  }

  /**
   Every verdict: frames that are too short or begin otherwise than with magic number and version are refused and
   change nothing; replayed nonces and wrong codes are ignored; what is left is registered unless it names no node.
   */
  lemma VerdictCases(s: State, frame: seq<byte>, now: int, window: int, psk: seq<byte>, hmac: Hmac)
    ensures var (after, verdict) := Handle(s, frame, now, window, psk, hmac);
            if |frame| < 48 then verdict == Bad(DecodeFailed) && after == s
            else if frame[..8] != [0x44, 0x43, 0x41, 0x44, 0, 0, 0, 1] then
              verdict == Bad(VersionMismatch) && after == s
            else if Hex(frame[8..16]) in Purge(s.seen, now, window)
                    || !IsCode(frame[16..48], psk, hmac, frame[8..16] + frame[48..]) then
              verdict == Ignored && after.registry == s.registry
            else if Parse(frame[48..]).nodeId == [] then
              verdict == Bad(DecodeFailed) && after.registry == s.registry
            else verdict == Registered && RegisteredAs(s.registry, after.registry, Parse(frame[48..]))
  {
    if |frame| >= 48 {
      FrontIff(frame);
      EntryKeepsFields(s.registry, Parse(frame[48..]));
    }
    hide Parse, Hex, Purge, FromBE32, RegisteredAs, ToEntry;
  }

  lemma FrontIff(frame: seq<byte>)
    requires |frame| >= 8
    ensures FromBE32(frame[0..4]) == MAGIC && FromBE32(frame[4..8]) == VERSION
       <==> frame[..8] == [0x44, 0x43, 0x41, 0x44, 0, 0, 0, 1]
  {
    BE32Iff(frame[0..4], 0x44, 0x43, 0x41, 0x44);
    BE32Iff(frame[4..8], 0, 0, 0, 1);
    hide FromBE32;
    var front := frame[..8];
    assert front == frame[0..4] + frame[4..8];
    if front == [0x44, 0x43, 0x41, 0x44, 0, 0, 0, 1] {
      assert front[..4] == frame[0..4] && front[4..] == frame[4..8];
    }
  }

  lemma BE32Iff(b: seq<byte>, b0: byte, b1: byte, b2: byte, b3: byte)
    requires |b| == 4
    ensures FromBE32(b) == b0 * 0x100_0000 + b1 * 0x1_0000 + b2 * 256 + b3 <==> b == [b0, b1, b2, b3]
  {
  }

  /** A built frame, byte by byte. */
  lemma FrameLayout(p: Payload, nonce: seq<byte>, psk: seq<byte>, hmac: Hmac)
    requires |nonce| == 8
    ensures var frame := BuildFrame(p, nonce, psk, hmac);
            && |frame| == 48 + |Serialize(p)|
            && frame[..8] == [0x44, 0x43, 0x41, 0x44, 0, 0, 0, 1] && frame[8..16] == nonce
            && IsCode(frame[16..48], psk, hmac, nonce + Serialize(p)) && frame[48..] == Serialize(p)
  {
    FrameParts(p, nonce, psk, hmac);
    hide Serialize;
    FrontIff(BuildFrame(p, nonce, psk, hmac));
  }

  /** Only a frame with a matching code and a fresh nonce can change the registry, and only under the id it carries. */
  lemma OnlyAuthenticFramesRegister(s: State, frame: seq<byte>, now: int, window: int, psk: seq<byte>, hmac: Hmac)
    ensures var (after, verdict) := Handle(s, frame, now, window, psk, hmac);
            && (after.registry != s.registry ==> verdict == Registered)
            && (verdict == Registered ==>
                  && FrameError(frame) == None
                  && IsCode(frame[16..48], psk, hmac, frame[8..16] + frame[48..])
                  && Hex(frame[8..16]) !in Purge(s.seen, now, window)
                  && RegisteredAs(s.registry, after.registry, Parse(frame[48..])))
  {
    if |frame| >= 48 {
      EntryKeepsFields(s.registry, Parse(frame[48..]));
    }
    hide FromBE32, Parse, Hex, Purge, RegisteredAs, ToEntry;
  }

  /**
   A frame uses up its nonce before its code is checked: after a frame with a wrong code, a genuine frame with
   the same nonce is ignored for the length of the window.
   */
  lemma WrongCodeUsesUpNonce(
    s: State, bad: seq<byte>, good: seq<byte>, t: int, u: int, window: int, psk: seq<byte>, hmac: Hmac)
    requires FrameError(bad) == None && FrameError(good) == None && good[8..16] == bad[8..16]
    requires hmac(MacKey(psk), bad[8..16] + bad[48..]) != bad[16..48]
    requires Hex(bad[8..16]) !in Purge(s.seen, t, window)
    ensures var after := Handle(s, bad, t, window, psk, hmac).0;
            && after.registry == s.registry
            && (u - t <= window ==> Handle(after, good, u, window, psk, hmac).1 == Ignored)
            && (Judge(after.seen, Hex(good[8..16]), u, window).1 <==> u - t > window)
  {
    hide FrameError, Parse, Hex;
  }

  // ---------- replay protection against an unbounded history ----------

  /** A structurally valid frame's nonce key and time of arrival. */
  datatype Arrival = Arrival(nonce: string, time: int)

  predicate Chronological(arrivals: seq<Arrival>) {
    forall i, j | 0 <= i < j < |arrivals| :: arrivals[i].time <= arrivals[j].time
  }

  /** The cache after all arrivals, starting empty. */
  function Cache(arrivals: seq<Arrival>, window: int): map<string, int> {
    if arrivals == [] then map[]
    else
      var last := arrivals[|arrivals| - 1];
      Judge(Cache(arrivals[..|arrivals| - 1], window), last.nonce, last.time, window).0
  }

  /** The scanner's judgement of arrival i. */
  function JudgedFresh(arrivals: seq<Arrival>, i: nat, window: int): bool
    requires i < |arrivals|
  {
    Judge(Cache(arrivals[..i], window), arrivals[i].nonce, arrivals[i].time, window).1
  }

  /**
   The judgement by full history: an arrival is a replay if the same nonce was judged fresh at most a window
   before it.
   */
  ghost predicate FreshByHistory(arrivals: seq<Arrival>, i: nat, window: int)
    requires i < |arrivals|
    decreases i
  {
    forall j | 0 <= j < i :: !RecentFresh(arrivals, i, j, window)
  }

  ghost predicate RecentFresh(arrivals: seq<Arrival>, i: nat, j: nat, window: int)
    requires j < i < |arrivals|
    decreases i, 0
  {
    arrivals[j].nonce == arrivals[i].nonce && arrivals[i].time - arrivals[j].time <= window
    && FreshByHistory(arrivals, j, window)
  }

  /** Every cached time is that of a fresh arrival. */
  ghost predicate CachedAreFresh(arrivals: seq<Arrival>, n: nat, window: int)
    requires n <= |arrivals|
  {
    var seen := Cache(arrivals[..n], window);
    forall k | k in seen :: exists j | 0 <= j < n ::
      arrivals[j] == Arrival(k, seen[k]) && FreshByHistory(arrivals, j, window)
  }

  /** Every fresh arrival that is at most a window older than the latest arrival is cached, or a later one is. */
  ghost predicate RecentAreCached(arrivals: seq<Arrival>, n: nat, window: int)
    requires n <= |arrivals|
  {
    var seen := Cache(arrivals[..n], window);
    forall j | 0 <= j < n && FreshByHistory(arrivals, j, window)
               && arrivals[n - 1].time - arrivals[j].time <= window ::
      arrivals[j].nonce in seen && seen[arrivals[j].nonce] >= arrivals[j].time
  }

  lemma CacheStep(arrivals: seq<Arrival>, n: nat, window: int)
    requires n < |arrivals|
    ensures Cache(arrivals[..n + 1], window)
         == Judge(Cache(arrivals[..n], window), arrivals[n].nonce, arrivals[n].time, window).0
  {
    assert arrivals[..n + 1][..n] == arrivals[..n];
  }

  /** Given an exact cache, the scanner judges the next arrival as the full history does. */
  lemma NextJudgement(arrivals: seq<Arrival>, n: nat, window: int)
    requires Chronological(arrivals) && n < |arrivals|
    requires CachedAreFresh(arrivals, n, window) && RecentAreCached(arrivals, n, window)
    ensures JudgedFresh(arrivals, n, window) <==> FreshByHistory(arrivals, n, window)
  {
    var seen, a := Cache(arrivals[..n], window), arrivals[n];
    if a.nonce in Purge(seen, a.time, window) {
      var j :| 0 <= j < n && arrivals[j] == Arrival(a.nonce, seen[a.nonce]) && FreshByHistory(arrivals, j, window);
      assert RecentFresh(arrivals, n, j, window);
    } else {
      assert n > 0 ==> arrivals[n - 1].time <= a.time;
      assert forall j | 0 <= j < n :: !RecentFresh(arrivals, n, j, window);
    }
  }

  lemma {:induction false} CacheIsExact(arrivals: seq<Arrival>, n: nat, window: int)
    requires Chronological(arrivals) && n <= |arrivals|
    ensures CachedAreFresh(arrivals, n, window) && RecentAreCached(arrivals, n, window)
  {
    if n > 0 {
      var m := n - 1;
      CacheIsExact(arrivals, m, window);
      NextJudgement(arrivals, m, window);
      CacheStep(arrivals, m, window);
      hide FreshByHistory, Cache;
      KeepsCachedFresh(arrivals, m, window);
      KeepsRecentCached(arrivals, m, window);
    }
  }

  lemma KeepsCachedFresh(arrivals: seq<Arrival>, m: nat, window: int)
    requires m < |arrivals| && CachedAreFresh(arrivals, m, window)
    requires JudgedFresh(arrivals, m, window) <==> FreshByHistory(arrivals, m, window)
    ensures CachedAreFresh(arrivals, m + 1, window)
  {
    CacheStep(arrivals, m, window);
    hide FreshByHistory, Cache;
    var seen, seen', a := Cache(arrivals[..m], window), Cache(arrivals[..m + 1], window), arrivals[m];
    forall k | k in seen'
      ensures exists j | 0 <= j < m + 1 :: arrivals[j] == Arrival(k, seen'[k]) && FreshByHistory(arrivals, j, window)
    {
      if JudgedFresh(arrivals, m, window) && k == a.nonce {
        assert arrivals[m] == Arrival(k, seen'[k]);
      } else {
        var j :| 0 <= j < m && arrivals[j] == Arrival(k, seen[k]) && FreshByHistory(arrivals, j, window);
        assert seen'[k] == seen[k];
      }
    }
  }

  lemma KeepsRecentCached(arrivals: seq<Arrival>, m: nat, window: int)
    requires Chronological(arrivals) && m < |arrivals| && RecentAreCached(arrivals, m, window)
    requires JudgedFresh(arrivals, m, window) <==> FreshByHistory(arrivals, m, window)
    ensures RecentAreCached(arrivals, m + 1, window)
  {
    CacheStep(arrivals, m, window);
    hide FreshByHistory, Cache;
    var seen, seen', a := Cache(arrivals[..m], window), Cache(arrivals[..m + 1], window), arrivals[m];
    forall j | 0 <= j < m + 1 && FreshByHistory(arrivals, j, window) && a.time - arrivals[j].time <= window
      ensures arrivals[j].nonce in seen' && seen'[arrivals[j].nonce] >= arrivals[j].time
    {
      if j < m {
        assert arrivals[m - 1].time <= a.time && arrivals[j].time <= a.time;
        assert arrivals[j].nonce in seen && seen[arrivals[j].nonce] >= arrivals[j].time;
      }
    }
  }

  /** The evicting cache judges every arrival exactly as an unbounded history would. */
  lemma CacheDecidesLikeHistory(arrivals: seq<Arrival>, window: int)
    requires Chronological(arrivals)
    ensures forall i | 0 <= i < |arrivals| ::
              JudgedFresh(arrivals, i, window) <==> FreshByHistory(arrivals, i, window)
  {
    forall i | 0 <= i < |arrivals|
      ensures JudgedFresh(arrivals, i, window) <==> FreshByHistory(arrivals, i, window)
    {
      CacheIsExact(arrivals, i, window);
      NextJudgement(arrivals, i, window);
    }
  }

  /** Two arrivals with one nonce that are both let through lie more than a window apart. */
  lemma FreshTwiceIsFarApart(arrivals: seq<Arrival>, i: nat, j: nat, window: int)
    requires Chronological(arrivals) && i < j < |arrivals| && arrivals[i].nonce == arrivals[j].nonce
    requires JudgedFresh(arrivals, i, window) && JudgedFresh(arrivals, j, window)
    ensures arrivals[j].time - arrivals[i].time > window
  {
    CacheDecidesLikeHistory(arrivals, window);
    assert !RecentFresh(arrivals, j, i, window);
  }

  /** The arrivals of a sequence of timed frames: those that pass the frame checks. */
  function Arrivals(frames: seq<(seq<byte>, int)>): seq<Arrival> {
    if frames == [] then []
    else
      var (frame, time) := frames[|frames| - 1];
      var before := Arrivals(frames[..|frames| - 1]);
      if FrameError(frame).Some? then before else before + [Arrival(Hex(frame[8..16]), time)]
  }

  function HandleAll(s: State, frames: seq<(seq<byte>, int)>, window: int, psk: seq<byte>, hmac: Hmac): State {
    if frames == [] then s
    else
      var (frame, time) := frames[|frames| - 1];
      Handle(HandleAll(s, frames[..|frames| - 1], window, psk, hmac), frame, time, window, psk, hmac).0
  }

  /** A scanner's cache only depends on the arrivals: bad codes and payloads still use up their nonce. */
  lemma {:induction false} ScannerCacheIsCache(frames: seq<(seq<byte>, int)>, window: int, psk: seq<byte>, hmac: Hmac)
    ensures HandleAll(State(map[], map[]), frames, window, psk, hmac).seen == Cache(Arrivals(frames), window)
  {
    if frames != [] {
      var init := frames[..|frames| - 1];
      ScannerCacheIsCache(init, window, psk, hmac);
      var (frame, time) := frames[|frames| - 1];
      hide FrameError, Hex, Parse;
      if FrameError(frame).None? {
        var arrivals := Arrivals(frames);
        assert arrivals[..|arrivals| - 1] == Arrivals(init);
      }
    }
  }

  // ---------- replay protection for frames ----------

  type Timed = (seq<byte>, int)

  predicate InOrderOfTime(frames: seq<Timed>) {
    forall i, j | 0 <= i < j < |frames| :: frames[i].1 <= frames[j].1
  }

  /** What a scanner that starts empty answers to frame i. */
  function VerdictOf(frames: seq<Timed>, i: nat, window: int, psk: seq<byte>, hmac: Hmac): Verdict
    requires i < |frames|
  {
    var before := HandleAll(State(map[], map[]), frames[..i], window, psk, hmac);
    Handle(before, frames[i].0, frames[i].1, window, psk, hmac).1
  }

  /** Frame i passes the frame checks and is not taken for a replay. */
  predicate PassesReplayCheck(frames: seq<Timed>, i: nat, window: int, psk: seq<byte>, hmac: Hmac)
    requires i < |frames|
  {
    && FrameError(frames[i].0) == None
    && Judge(HandleAll(State(map[], map[]), frames[..i], window, psk, hmac).seen,
             Hex(frames[i].0[8..16]), frames[i].1, window).1
  }

  /** An earlier frame i with the same eight nonce bytes passed the replay check at most a window before frame j. */
  ghost predicate Replays(frames: seq<Timed>, i: nat, j: nat, window: int, psk: seq<byte>, hmac: Hmac)
    requires i < j < |frames|
  {
    && PassesReplayCheck(frames, i, window, psk, hmac) && FrameError(frames[j].0) == None
    && frames[i].0[8..16] == frames[j].0[8..16] && frames[j].1 - frames[i].1 <= window
  }

  /** The number of arrivals before frame i. */
  function Index(frames: seq<Timed>, i: nat): nat
    requires i <= |frames|
  {
    |Arrivals(frames[..i])|
  }

  /** A valid frame is the arrival behind those of the frames before it. */
  lemma ArrivalOfFrame(frames: seq<Timed>, i: nat)
    requires i < |frames|
    ensures FrameError(frames[i].0) == None ==>
              Arrivals(frames[..i + 1]) == Arrivals(frames[..i]) + [Arrival(Hex(frames[i].0[8..16]), frames[i].1)]
    ensures FrameError(frames[i].0) != None ==> Arrivals(frames[..i + 1]) == Arrivals(frames[..i])
  {
    assert frames[..i + 1][..i] == frames[..i];
    hide FrameError, Hex;
  }

  lemma {:induction false} ArrivalsPrefix(frames: seq<Timed>, i: nat, j: nat)
    requires i <= j <= |frames|
    ensures Index(frames, i) <= Index(frames, j) && Arrivals(frames[..j])[..Index(frames, i)] == Arrivals(frames[..i])
    decreases j - i
  {
    hide Arrivals, FrameError, Hex;
    if i < j {
      ArrivalsPrefix(frames, i, j - 1);
      ArrivalOfFrame(frames, j - 1);
    }
  }

  /** Every arrival comes from a valid frame. */
  lemma {:induction false} FrameOfArrival(frames: seq<Timed>, n: nat, a: nat) returns (i: nat)
    requires n <= |frames| && a < Index(frames, n)
    ensures i < n && FrameError(frames[i].0) == None && Index(frames, i) == a
    ensures Arrivals(frames[..n])[a] == Arrival(Hex(frames[i].0[8..16]), frames[i].1)
    decreases n
  {
    assert n > 0 by {
      assert Arrivals([]) == [];
    }
    ArrivalOfFrame(frames, n - 1);
    hide Arrivals, FrameError, Hex;
    if a < Index(frames, n - 1) {
      i := FrameOfArrival(frames, n - 1, a);
    } else {
      i := n - 1;
    }
  }

  lemma ArrivalsInOrder(frames: seq<Timed>)
    requires InOrderOfTime(frames)
    ensures Chronological(Arrivals(frames))
  {
    var all := Arrivals(frames);
    assert frames[..|frames|] == frames;
    forall a, b | 0 <= a < b < |all|
      ensures all[a].time <= all[b].time
    {
      var i := FrameOfArrival(frames, |frames|, a);
      var j := FrameOfArrival(frames, |frames|, b);
      hide Arrivals, FrameError, Hex, Index;
      if j < i {
        ArrivalsPrefix(frames, j, i);
      }
    }
  }

  /** The replay check of a valid frame is the judgement of its arrival. */
  lemma CheckIsJudgement(frames: seq<Timed>, i: nat, window: int, psk: seq<byte>, hmac: Hmac)
    requires i < |frames| && FrameError(frames[i].0) == None
    ensures var all, a := Arrivals(frames), Index(frames, i);
            && a < |all| && all[a] == Arrival(Hex(frames[i].0[8..16]), frames[i].1)
            && (PassesReplayCheck(frames, i, window, psk, hmac) <==> JudgedFresh(all, a, window))
  {
    ScannerCacheIsCache(frames[..i], window, psk, hmac);
    ArrivalOfFrame(frames, i);
    ArrivalsPrefix(frames, i, |frames|);
    ArrivalsPrefix(frames, i + 1, |frames|);
    hide Arrivals, FrameError, Hex, HandleAll, Cache, Judge;
    assert frames[..|frames|] == frames;
  }

  lemma EarlierIndex(frames: seq<Timed>, i: nat, j: nat)
    requires i < j <= |frames| && FrameError(frames[i].0) == None
    ensures Index(frames, i) < Index(frames, j)
  {
    ArrivalOfFrame(frames, i);
    hide Arrivals, FrameError, Hex;
    ArrivalsPrefix(frames, i + 1, j);
  }

  /** An arrival that is judged a replay has the fresh arrival it replays before it. */
  lemma ReplayedArrival(arrivals: seq<Arrival>, b: nat, window: int) returns (a: nat)
    requires Chronological(arrivals) && b < |arrivals| && !JudgedFresh(arrivals, b, window)
    ensures a < b && arrivals[a].nonce == arrivals[b].nonce && arrivals[b].time - arrivals[a].time <= window
    ensures JudgedFresh(arrivals, a, window)
  {
    CacheDecidesLikeHistory(arrivals, window);
    hide JudgedFresh, Chronological;
    assert !FreshByHistory(arrivals, b, window);
    a :| 0 <= a < b && RecentFresh(arrivals, b, a, window);
  }

  /** The earlier valid frame that frame j, when it is taken for a replay, was taken for a replay of. */
  lemma ReplayedFrame(frames: seq<Timed>, j: nat, window: int, psk: seq<byte>, hmac: Hmac) returns (i: nat)
    requires InOrderOfTime(frames) && j < |frames| && FrameError(frames[j].0) == None
    requires !PassesReplayCheck(frames, j, window, psk, hmac)
    ensures i < j && Replays(frames, i, j, window, psk, hmac)
  {
    var all := Arrivals(frames);
    ArrivalsInOrder(frames);
    CheckIsJudgement(frames, j, window, psk, hmac);
    hide Arrivals, FrameError, Hex, PassesReplayCheck, JudgedFresh, Chronological, InOrderOfTime;
    var a := ReplayedArrival(all, Index(frames, j), window);
    i := FrameOfArrival(frames, j, a);
    CheckIsJudgement(frames, i, window, psk, hmac);
    ValidLength(frames[i].0);
    ValidLength(frames[j].0);
    HexInjective(frames[i].0[8..16], frames[j].0[8..16]);
  }

  lemma ValidLength(frame: seq<byte>)
    ensures FrameError(frame) == None ==> |frame| >= HEADER_SIZE
  {
  }

  /**
   A structurally valid frame passes the replay check exactly when no earlier frame with the same eight nonce
   bytes passed it at most a window before.
   */
  lemma FrameReplayIff(frames: seq<Timed>, j: nat, window: int, psk: seq<byte>, hmac: Hmac)
    requires InOrderOfTime(frames) && j < |frames| && FrameError(frames[j].0) == None
    ensures PassesReplayCheck(frames, j, window, psk, hmac)
       <==> forall i | 0 <= i < j :: !Replays(frames, i, j, window, psk, hmac)
  {
    if PassesReplayCheck(frames, j, window, psk, hmac) {
      forall i | 0 <= i < j && PassesReplayCheck(frames, i, window, psk, hmac)
        ensures !Replays(frames, i, j, window, psk, hmac)
      {
        ArrivalsInOrder(frames);
        CheckIsJudgement(frames, i, window, psk, hmac);
        CheckIsJudgement(frames, j, window, psk, hmac);
        EarlierIndex(frames, i, j);
        hide Arrivals, Hex, FrameError, PassesReplayCheck, JudgedFresh, Chronological, InOrderOfTime, Index;
        if frames[i].0[8..16] == frames[j].0[8..16] {
          FreshTwiceIsFarApart(Arrivals(frames), Index(frames, i), Index(frames, j), window);
        }
      }
    } else {
      var i := ReplayedFrame(frames, j, window, psk, hmac);
    }
  }

  lemma RegisteredPasses(frames: seq<Timed>, i: nat, window: int, psk: seq<byte>, hmac: Hmac)
    requires i < |frames| && VerdictOf(frames, i, window, psk, hmac) == Registered
    ensures PassesReplayCheck(frames, i, window, psk, hmac) && |frames[i].0| >= HEADER_SIZE
  {
    hide Hex, HandleAll, Parse;
  }

  /** Two registered frames with the same eight nonce bytes lie more than a window apart. */
  lemma RegisteredTwiceIsFarApart(frames: seq<Timed>, i: nat, j: nat, window: int, psk: seq<byte>, hmac: Hmac)
    requires InOrderOfTime(frames) && i < j < |frames|
    requires VerdictOf(frames, i, window, psk, hmac) == VerdictOf(frames, j, window, psk, hmac) == Registered
    requires frames[i].0[8..16] == frames[j].0[8..16]
    ensures frames[j].1 - frames[i].1 > window
  {
    RegisteredPasses(frames, i, window, psk, hmac);
    RegisteredPasses(frames, j, window, psk, hmac);
    FrameReplayIff(frames, j, window, psk, hmac);
    hide FrameError, PassesReplayCheck, VerdictOf, InOrderOfTime;
    assert !Replays(frames, i, j, window, psk, hmac);
  }

  /** The registry of a scanner that starts empty, after the first n frames. */
  function RegistryAfter(frames: seq<Timed>, n: nat, window: int, psk: seq<byte>, hmac: Hmac): map<seq<byte>, Entry>
    requires n <= |frames|
  {
    HandleAll(State(map[], map[]), frames[..n], window, psk, hmac).registry
  }

  /**
   A frame built with the scanner's key from a payload that fits and names a node is registered, with every field
   intact, exactly when it replays no earlier frame; a frame that passed the replay check is one to be replayed
   whatever became of it.
   */
  lemma BuiltFrameRegistersIff(
    frames: seq<Timed>, j: nat, p: Payload, nonce: seq<byte>, window: int, psk: seq<byte>, hmac: Hmac)
    requires InOrderOfTime(frames) && j < |frames| && |nonce| == 8
    requires frames[j].0 == BuildFrame(p, nonce, psk, hmac) && Fits(p) && p.nodeId != []
    ensures VerdictOf(frames, j, window, psk, hmac) == Registered
       <==> forall i | 0 <= i < j :: !Replays(frames, i, j, window, psk, hmac)
    ensures var before, after :=
              RegistryAfter(frames, j, window, psk, hmac), RegistryAfter(frames, j + 1, window, psk, hmac);
            if VerdictOf(frames, j, window, psk, hmac) == Registered then RegisteredAs(before, after, p)
            else after == before
  {
    FrameParts(p, nonce, psk, hmac);
    FrameReplayIff(frames, j, window, psk, hmac);
    var s := HandleAll(State(map[], map[]), frames[..j], window, psk, hmac);
    NextHandled(frames, j, window, psk, hmac);
    hide BuildFrame, FrameError, Serialize, Parse, Fits, Hex, HandleAll, Replays, RegisteredAs, Purge;
    if Hex(nonce) !in Purge(s.seen, frames[j].1, window) {
      FrameRegisters(p, nonce, psk, hmac, s, frames[j].1, window);
    }
  }

  lemma NextHandled(frames: seq<Timed>, j: nat, window: int, psk: seq<byte>, hmac: Hmac)
    requires j < |frames|
    ensures var empty := State(map[], map[]);
            HandleAll(empty, frames[..j + 1], window, psk, hmac)
            == Handle(HandleAll(empty, frames[..j], window, psk, hmac), frames[j].0, frames[j].1, window, psk, hmac).0
  {
    hide Handle;
    assert frames[..j + 1][..j] == frames[..j];
  }
}
