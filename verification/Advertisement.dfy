/** The advertisement payload: length-prefixed big-endian fields, serialized and parsed byte by byte. */
module Advertisement {
  import opened Bytes

  /** Strings are byte strings; a payload that nothing was parsed into has empty fields. */
  datatype Payload = Payload(
    nodeId: seq<byte>, hostname: seq<byte>, bindAddress: seq<byte>, bindPort: u16, services: seq<seq<byte>>)

  const NO_PAYLOAD := Payload([], [], [], 0, [])

  // ---------- serializing ----------

  /** The low 16 bits of n, most significant byte first. */
  function BE16(n: nat): (r: seq<byte>)
    ensures |r| == 2
  {
    [n / 256 % 256, n % 256]
  }

  function FromBE16(hi: byte, lo: byte): u16 {
    256 * hi + lo
  }

  /** A string behind its length; the length field keeps the low 16 bits, the string is written whole. */
  function StrBytes(s: seq<byte>): (r: seq<byte>)
    ensures |r| == 2 + |s|
  {
    BE16(|s|) + s
  }

  function ListBytes(strings: seq<seq<byte>>): seq<byte> {
    if strings == [] then [] else StrBytes(strings[0]) + ListBytes(strings[1..])
  }

  function Serialize(p: Payload): seq<byte> {
    StrBytes(p.nodeId) + (StrBytes(p.hostname) + (StrBytes(p.bindAddress)
    + (BE16(p.bindPort) + (BE16(|p.services|) + ListBytes(p.services)))))
  }

  // ---------- parsing ----------

  /** The string at the front and the bytes behind it, if the bytes hold all of it. */
  function TakeStr(rest: seq<byte>): Option<(seq<byte>, seq<byte>)> {
    if |rest| < 2 then None
    else
      var len := FromBE16(rest[0], rest[1]);
      if |rest| < 2 + len then None else Some((rest[2..2 + len], rest[2 + len..]))
  }

  function TakeList(rest: seq<byte>, n: nat): seq<seq<byte>>
    decreases n
  {
    if n == 0 then []
    else match TakeStr(rest)
      case None => []
      case Some((s, rest')) => [s] + TakeList(rest', n - 1)
  }

  /** Port, count and services; whatever is missing keeps its default. */
  function ParseTail(p: Payload, rest: seq<byte>): Payload {
    if |rest| < 2 then p
    else
      var q := p.(bindPort := FromBE16(rest[0], rest[1]));
      if |rest| < 4 then q
      else q.(services := TakeList(rest[4..], FromBE16(rest[2], rest[3])))
  }

  function Parse(buf: seq<byte>): Payload {
    match TakeStr(buf)
    case None => NO_PAYLOAD
    case Some((nodeId, r1)) =>
      match TakeStr(r1)
      case None => NO_PAYLOAD.(nodeId := nodeId)
      case Some((hostname, r2)) =>
        match TakeStr(r2)
        case None => NO_PAYLOAD.(nodeId := nodeId, hostname := hostname)
        case Some((bindAddress, r3)) => ParseTail(Payload(nodeId, hostname, bindAddress, 0, []), r3)
  }

  // ---------- the imperative forms ----------

  method WriteStr(out: seq<byte>, s: seq<byte>) returns (r: seq<byte>)
    ensures r == out + StrBytes(s)
  {
    var len: u16 := |s| % U16;
    r := out + [len / 256 % 256];
    r := r + [len % 256];
    r := r + s;
    assert len / 256 % 256 == |s| / 256 % 256 && len % 256 == |s| % 256 by {
      LowBytes(|s|);
    }
    assert out + ([len / 256 % 256] + [len % 256] + s) == r;
  }

  lemma LowBytes(n: nat)
    ensures n % U16 / 256 % 256 == n / 256 % 256 && n % U16 % 256 == n % 256
  {
    var q, r := n / U16, n % U16;
    assert n == q * U16 + r;
    assert n / 256 == q * 256 + r / 256;
  }

  method SerializePayload(p: Payload) returns (out: seq<byte>)
    ensures out == Serialize(p)
  {
    out := WriteStr([], p.nodeId);
    out := WriteStr(out, p.hostname);
    out := WriteStr(out, p.bindAddress);
    out := out + BE16(p.bindPort);
    out := out + BE16(|p.services| % U16);
    LowBytes(|p.services|);
    ghost var front := out;
    for i := 0 to |p.services|
      invariant out == front + ListBytes(p.services[..i])
    {
      ListBytesAppend(p.services[..i], p.services[i]);
      assert p.services[..i + 1] == p.services[..i] + [p.services[i]];
      out := WriteStr(out, p.services[i]);
    }
    assert p.services[..|p.services|] == p.services;
    assert [] + StrBytes(p.nodeId) == StrBytes(p.nodeId);
    Reassociate(StrBytes(p.nodeId), StrBytes(p.hostname), StrBytes(p.bindAddress), BE16(p.bindPort),
                BE16(|p.services|), ListBytes(p.services));
  }

  lemma Reassociate(a: seq<byte>, b: seq<byte>, c: seq<byte>, d: seq<byte>, e: seq<byte>, f: seq<byte>)
    ensures a + b + c + d + e + f == a + (b + (c + (d + (e + f))))
  {
  }

  lemma {:induction false} ListBytesAppend(a: seq<seq<byte>>, s: seq<byte>)
    ensures ListBytes(a + [s]) == ListBytes(a) + StrBytes(s)
  {
    if a == [] {
      assert ListBytes([s]) == StrBytes(s) + ListBytes([]);
      assert a + [s] == [s];
    } else {
      assert (a + [s])[0] == a[0] && (a + [s])[1..] == a[1..] + [s];
      ListBytesAppend(a[1..], s);
    }
  }

  /** Reads a string at an offset; on failure the offset may already be behind the length. */
  method ReadStr(buf: seq<byte>, off: nat) returns (ok: bool, s: seq<byte>, next: nat)
    requires off <= |buf|
    ensures next <= |buf|
    ensures ok <==> TakeStr(buf[off..]).Some?
    ensures ok ==> TakeStr(buf[off..]).value == (s, buf[next..])
  {
    if off + 2 > |buf| {
      return false, [], off;
    }
    var len := FromBE16(buf[off], buf[off + 1]);
    if off + 2 + len > |buf| {
      return false, [], off + 2;
    }
    s := buf[off + 2..off + 2 + len];
    next := off + 2 + len;
    assert buf[off..][2..2 + len] == s && buf[off..][2 + len..] == buf[next..];
    ok := true;
  }

  /** Parses any byte string without leaving it. */
  method ParsePayload(buf: seq<byte>) returns (p: Payload)
    ensures p == Parse(buf)
  {
    p := NO_PAYLOAD;
    assert buf[0..] == buf;
    hide TakeStr, TakeList;
    var ok, s, off := ReadStr(buf, 0);
    if !ok {
      return;
    }
    p := p.(nodeId := s);
    ok, s, off := ReadStr(buf, off);
    if !ok {
      return;
    }
    p := p.(hostname := s);
    ok, s, off := ReadStr(buf, off);
    if !ok {
      return;
    }
    p := p.(bindAddress := s);
    ghost var tail, head := buf[off..], p;
    if off + 2 > |buf| {
      return;
    }
    p := p.(bindPort := FromBE16(buf[off], buf[off + 1]));
    off := off + 2;
    if off + 2 > |buf| {
      return;
    }
    var n := FromBE16(buf[off], buf[off + 1]);
    off := off + 2;
    assert tail[4..] == buf[off..];
    var services := ReadList(buf, off, n);
    p := p.(services := services);
  }

  method ReadList(buf: seq<byte>, start: nat, n: u16) returns (services: seq<seq<byte>>)
    requires start <= |buf|
    ensures services == TakeList(buf[start..], n)
  {
    services := [];
    var off: nat := start;
    for i := 0 to n
      invariant off <= |buf|
      invariant TakeList(buf[start..], n) == services + TakeList(buf[off..], n - i)
    {
      var ok, s, next := ReadStr(buf, off);
      if !ok {
        break;
      }
      assert services + ([s] + TakeList(buf[next..], n - i - 1)) == (services + [s]) + TakeList(buf[next..], n - i - 1);
      services := services + [s];
      off := next;
    }
  }

  // ---------- round trip ----------

  /** Every length and the number of services fit their 16-bit fields. */
  predicate Fits(p: Payload) {
    && |p.nodeId| < U16 && |p.hostname| < U16 && |p.bindAddress| < U16
    && |p.services| < U16 && AllShort(p.services)
  }

  predicate AllShort(strings: seq<seq<byte>>) {
    forall s | s in strings :: |s| < U16
  }

  lemma BE16RoundTrip(n: u16)
    ensures FromBE16(BE16(n)[0], BE16(n)[1]) == n
  {
  }

  /** How many of the encoded strings lie wholly inside the first c bytes. */
  function WholeStrings(strings: seq<seq<byte>>, c: nat): (k: nat)
    ensures k <= |strings|
  {
    if strings == [] || c < 2 + |strings[0]| then 0 else 1 + WholeStrings(strings[1..], c - 2 - |strings[0]|)
  }

  /** A cut encoding yields its string and what is left behind it, or nothing when the string itself is cut. */
  lemma TakeStrOfCut(s: seq<byte>, post: seq<byte>, c: nat)
    requires |s| < U16 && c <= |StrBytes(s) + post|
    ensures TakeStr((StrBytes(s) + post)[..c])
         == if c < 2 + |s| then None else Some((s, post[..c - 2 - |s|]))
  {
    var buf := (StrBytes(s) + post)[..c];
    if c >= 2 {
      assert buf[0] == BE16(|s|)[0] && buf[1] == BE16(|s|)[1];
      BE16RoundTrip(|s|);
      if c >= 2 + |s| {
        assert buf[2..2 + |s|] == s;
        assert buf[2 + |s|..] == post[..c - 2 - |s|];
      }
    }
  }

  lemma {:induction false} TakeListOfCut(strings: seq<seq<byte>>, c: nat)
    requires AllShort(strings) && c <= |ListBytes(strings)|
    ensures TakeList(ListBytes(strings)[..c], |strings|) == strings[..WholeStrings(strings, c)]
    decreases |strings|
  {
    hide StrBytes, TakeStr;
    if strings != [] {
      var s, rest := strings[0], ListBytes(strings[1..]);
      TakeStrOfCut(s, rest, c);
      if c >= 2 + |s| {
        TakeListOfCut(strings[1..], c - 2 - |s|);
        var k := WholeStrings(strings[1..], c - 2 - |s|);
        assert [s] + strings[1..][..k] == strings[..k + 1];
      }
    }
  }

  /** The first k fields of p, counting three strings, port, service count and then each service; defaults after. */
  function FirstFields(p: Payload, k: nat): Payload {
    Payload(
      if k >= 1 then p.nodeId else [],
      if k >= 2 then p.hostname else [],
      if k >= 3 then p.bindAddress else [],
      if k >= 4 then p.bindPort else 0,
      if k >= 5 then p.services[..if k - 5 <= |p.services| then k - 5 else |p.services|] else [])
  }

  /** How many fields of p lie wholly inside the first c bytes of its encoding. */
  function WholeFields(p: Payload, c: nat): nat {
    var o1, o2, o3 := 2 + |p.nodeId|, 4 + |p.nodeId| + |p.hostname|, 6 + |p.nodeId| + |p.hostname| + |p.bindAddress|;
    if c < o1 then 0
    else if c < o2 then 1
    else if c < o3 then 2
    else if c < o3 + 2 then 3
    else if c < o3 + 4 then 4
    else 5 + WholeStrings(p.services, c - o3 - 4)
  }

  lemma ParseTailOfCut(p: Payload, q: Payload, c: nat)
    requires Fits(p) && c <= |BE16(p.bindPort) + (BE16(|p.services|) + ListBytes(p.services))|
    ensures ParseTail(q, (BE16(p.bindPort) + (BE16(|p.services|) + ListBytes(p.services)))[..c])
         == if c < 2 then q
            else if c < 4 then q.(bindPort := p.bindPort)
            else q.(bindPort := p.bindPort, services := p.services[..WholeStrings(p.services, c - 4)])
  {
    var rest := (BE16(p.bindPort) + (BE16(|p.services|) + ListBytes(p.services)))[..c];
    BE16RoundTrip(p.bindPort);
    BE16RoundTrip(|p.services|);
    if c >= 2 {
      assert rest[0] == BE16(p.bindPort)[0] && rest[1] == BE16(p.bindPort)[1];
    }
    if c >= 4 {
      assert rest[2] == BE16(|p.services|)[0] && rest[3] == BE16(|p.services|)[1];
      assert rest[4..] == ListBytes(p.services)[..c - 4];
      TakeListOfCut(p.services, c - 4);
    }
  }

  /**
   A truncated payload parses to exactly its whole fields: an initial run of the fields, a prefix of the
   services, and defaults for the rest.
   */
  lemma ParseOfCut(p: Payload, c: nat)
    requires Fits(p) && c <= |Serialize(p)|
    ensures Parse(Serialize(p)[..c]) == FirstFields(p, WholeFields(p, c))
  {
    hide StrBytes, BE16, TakeStr, ListBytes, ParseTail, TakeList, Fits;
    assert |p.nodeId| < U16 && |p.hostname| < U16 && |p.bindAddress| < U16 by {
      FitsStrings(p);
    }
    var r3 := BE16(p.bindPort) + (BE16(|p.services|) + ListBytes(p.services));
    var r2 := StrBytes(p.bindAddress) + r3;
    var r1 := StrBytes(p.hostname) + r2;
    TakeStrOfCut(p.nodeId, r1, c);
    if c >= 2 + |p.nodeId| {
      var c1 := c - 2 - |p.nodeId|;
      TakeStrOfCut(p.hostname, r2, c1);
      if c1 >= 2 + |p.hostname| {
        var c2 := c1 - 2 - |p.hostname|;
        TakeStrOfCut(p.bindAddress, r3, c2);
        if c2 >= 2 + |p.bindAddress| {
          ParseTailOfCut(p, Payload(p.nodeId, p.hostname, p.bindAddress, 0, []), c2 - 2 - |p.bindAddress|);
        }
      }
    }
  }

  lemma FitsStrings(p: Payload)
    requires Fits(p)
    ensures |p.nodeId| < U16 && |p.hostname| < U16 && |p.bindAddress| < U16
  {
  }

  lemma {:induction false} AllStringsWhole(strings: seq<seq<byte>>)
    ensures WholeStrings(strings, |ListBytes(strings)|) == |strings|
  {
    if strings != [] {
      AllStringsWhole(strings[1..]);
    }
  }

  lemma {:induction false} TakenAreShort(rest: seq<byte>, n: nat)
    ensures |TakeList(rest, n)| <= n && AllShort(TakeList(rest, n))
    decreases n
  {
    if n > 0 && TakeStr(rest).Some? {
      TakenAreShort(TakeStr(rest).value.1, n - 1);
    }
  }

  /** Whatever is parsed fits: no input produces a field that could not have been encoded. */
  lemma ParseFits(buf: seq<byte>)
    ensures Fits(Parse(buf))
  {
    forall rest: seq<byte>, n: nat
      ensures |TakeList(rest, n)| <= n && AllShort(TakeList(rest, n))
    {
      TakenAreShort(rest, n);
    }
    hide TakeList;
  }

  /** A payload survives serializing and parsing exactly when its lengths and count fit their 16-bit fields. */
  lemma RoundTripIffFits(p: Payload)
    ensures Parse(Serialize(p)) == p <==> Fits(p)
  {
    if Fits(p) {
      var all := Serialize(p);
      ParseOfCut(p, |all|);
      assert all[..|all|] == all;
      AllFieldsWhole(p);
    } else {
      ParseFits(Serialize(p));
    }
  }

  /** What a receiver makes of the first c bytes of an encoding: the fields that lie wholly inside them. */
  predicate CutParses(p: Payload, c: nat)
    requires c <= |Serialize(p)|
  {
    Parse(Serialize(p)[..c]) == FirstFields(p, WholeFields(p, c))
  }

  /** However its encoding is cut, a payload parses to exactly its whole fields if and only if it fits the format. */
  lemma CutsParseIffFits(p: Payload)
    ensures (forall c | 0 <= c <= |Serialize(p)| :: CutParses(p, c)) <==> Fits(p)
  {
    if Fits(p) {
      forall c | 0 <= c <= |Serialize(p)|
        ensures CutParses(p, c)
      {
        ParseOfCut(p, c);
      }
    } else {
      var all := Serialize(p);
      AllFieldsWhole(p);
      RoundTripIffFits(p);
      assert all[..|all|] == all;
      assert !CutParses(p, |all|);
    }
  }

  lemma AllFieldsWhole(p: Payload)
    ensures FirstFields(p, WholeFields(p, |Serialize(p)|)) == p
  {
    AllStringsWhole(p.services);
    assert p.services[..|p.services|] == p.services;
  }

  /** A whole string is taken whatever follows it. */
  lemma TakeStrBefore(s: seq<byte>, post: seq<byte>)
    requires |s| < U16
    ensures TakeStr(StrBytes(s) + post) == Some((s, post))
  {
    var buf := StrBytes(s) + post;
    TakeStrOfCut(s, post, |buf|);
    assert buf[..|buf|] == buf && post[..|post|] == post;
  }

  lemma {:induction false} TakeListBefore(strings: seq<seq<byte>>, extra: seq<byte>)
    requires AllShort(strings)
    ensures TakeList(ListBytes(strings) + extra, |strings|) == strings
    decreases |strings|
  {
    hide StrBytes, TakeStr;
    if strings != [] {
      var s, rest := strings[0], ListBytes(strings[1..]) + extra;
      TakeStrBefore(s, rest);
      assert ListBytes(strings) + extra == StrBytes(s) + rest;
      TakeListBefore(strings[1..], extra);
    }
  }

  lemma ParseTailBefore(p: Payload, q: Payload, extra: seq<byte>)
    requires Fits(p)
    ensures ParseTail(q, BE16(p.bindPort) + (BE16(|p.services|) + (ListBytes(p.services) + extra)))
         == q.(bindPort := p.bindPort, services := p.services)
  {
    var list := ListBytes(p.services) + extra;
    var rest := BE16(p.bindPort) + (BE16(|p.services|) + list);
    BE16RoundTrip(p.bindPort);
    BE16RoundTrip(|p.services|);
    TakeListBefore(p.services, extra);
    hide BE16, TakeList, ListBytes, Fits;
    assert rest[0] == BE16(p.bindPort)[0] && rest[1] == BE16(p.bindPort)[1];
    assert rest[2] == BE16(|p.services|)[0] && rest[3] == BE16(|p.services|)[1];
    assert rest[4..] == list;
  }

  /** Bytes behind a whole payload are ignored. */
  lemma ParseIgnoresRest(p: Payload, extra: seq<byte>)
    requires Fits(p)
    ensures Parse(Serialize(p) + extra) == p
  {
    FitsStrings(p);
    hide Fits;
    var r3 := BE16(p.bindPort) + (BE16(|p.services|) + (ListBytes(p.services) + extra));
    var r2 := StrBytes(p.bindAddress) + r3;
    var r1 := StrBytes(p.hostname) + r2;
    hide StrBytes, BE16, TakeStr, ListBytes, ParseTail, TakeList;
    assert Serialize(p) + extra == StrBytes(p.nodeId) + r1;
    TakeStrBefore(p.nodeId, r1);
    TakeStrBefore(p.hostname, r2);
    TakeStrBefore(p.bindAddress, r3);
    ParseTailBefore(p, Payload(p.nodeId, p.hostname, p.bindAddress, 0, []), extra);
  }

  /** The wire format of a small payload: 16-bit integers are big-endian, and strings follow their lengths. */
  lemma WireExample()
    ensures Serialize(Payload([110], [104, 105], [97], 0x1234, [[115], []]))
         == [0, 1, 110, 0, 2, 104, 105, 0, 1, 97, 0x12, 0x34, 0, 2, 0, 1, 115, 0, 0]
  {
    TwoServices();
    hide ListBytes;
  }

  lemma TwoServices()
    ensures ListBytes([[115], []]) == [0, 1, 115, 0, 0]
  {
    var two: seq<seq<byte>> := [[115], []];
    var one := two[1..];
    assert one[1..] == [] && one[0] == [];
    assert ListBytes(one) == [0, 0];
  }
}
