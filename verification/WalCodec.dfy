/** The binary format of write-ahead log entries: FNV-1a checksum, encoder, decoder. */
module WalCodec {
  import opened Bytes

  const FILE_MAGIC: u32 := 0xDA1F00D5
  const SCHEMA_VERSION: u32 := 1
  const FILE_HEADER_SIZE := 16
  const ENTRY_HEADER_SIZE := 40
  const FNV_OFFSET: u32 := 0x811C9DC5
  const FNV_PRIME: u32 := 0x01000193

  datatype Error = Internal | InvalidArg | TruncatedBuffer | VersionMismatch | DecodeFailed | DiskFull
  datatype Result<+T> = Ok(value: T) | Err(error: Error)

  /** One log record. The schema version is not stored: the only value ever written or accepted is 1. */
  datatype Entry = Entry(sequence: u64, timestamp: i64, kind: byte, action: seq<byte>, payload: seq<byte>)

  // ---------- checksum ----------

  function FnvStep(h: u32, b: byte): u32 {
    Wrap32(Xor32(h, b) * FNV_PRIME)
  }

  /** FNV-1a (draft-eastlake-fnv, section 2): one step for each byte, first byte first. */
  function Fnv(data: seq<byte>): u32 {
    if data == [] then FNV_OFFSET else FnvStep(Fnv(data[..|data| - 1]), data[|data| - 1])
  }

  /** The checksum of an entry: empty parts contribute nothing. */
  function Sum(h36: seq<byte>, action: seq<byte>, payload: seq<byte>): u32 {
    var withAction := if action == [] then Fnv(h36) else Xor32(Fnv(h36), Fnv(action));
    if payload == [] then withAction else Xor32(withAction, Fnv(payload))
  }

  // ---------- encoder ----------

  function SignedToWord(n: i64): u64 {
    if n < 0 then n + U64 else n
  }

  function WordToSigned(n: u64): i64 {
    if n > I64_MAX then n - U64 else n
  }

  /** The 36 header bytes that the checksum covers. The length fields keep the low 32 bits of a length. */
  function HeaderBody(e: Entry): (r: seq<byte>)
    ensures |r| == 36
  {
    LE(FILE_MAGIC, 4) + LE(SCHEMA_VERSION, 4) + LE(e.sequence, 8) + LE(SignedToWord(e.timestamp), 8)
    + [e.kind] + LE(|e.action| % U32, 4) + LE(|e.payload| % U32, 4) + [0, 0, 0]
  }

  /** What the 32-bit length fields can describe: each part cut to its length modulo 2^32. */
  function Clip(e: Entry): (c: Entry)
    ensures |c.action| == |e.action| % U32 && |c.payload| == |e.payload| % U32 && Storable(c)
    ensures c.sequence == e.sequence
  {
    e.(action := e.action[..|e.action| % U32], payload := e.payload[..|e.payload| % U32])
  }

  predicate Storable(e: Entry) {
    |e.action| < U32 && |e.payload| < U32
  }

  /** The bytes that a write of e adds to the file. */
  function Encode(e: Entry): (r: seq<byte>)
    ensures |r| == EntrySize(Clip(e))
  {
    var c := Clip(e);
    HeaderBody(e) + LE(Sum(HeaderBody(e), c.action, c.payload), 4) + c.action + c.payload
  }

  function EntrySize(e: Entry): nat {
    ENTRY_HEADER_SIZE + |e.action| + |e.payload|
  }

  function EncodeAll(log: seq<Entry>): seq<byte> {
    if log == [] then [] else Encode(log[0]) + EncodeAll(log[1..])
  }

  // ---------- decoder ----------

  /** Positions of the header fields of an entry starting at byte 0 of h. */
  function MagicOf(h: seq<byte>): nat requires |h| >= 40 { FromLE(h[0..4]) }
  function SchemaOf(h: seq<byte>): nat requires |h| >= 40 { FromLE(h[4..8]) }
  function SequenceOf(h: seq<byte>): (n: nat) requires |h| >= 40 ensures n < U64 { Pow256Values(); FromLE(h[8..16]) }
  function TimeOf(h: seq<byte>): (n: nat) requires |h| >= 40 ensures n < U64 { Pow256Values(); FromLE(h[16..24]) }
  function ActionLen(h: seq<byte>): nat requires |h| >= 40 { FromLE(h[25..29]) }
  function PayloadLen(h: seq<byte>): nat requires |h| >= 40 { FromLE(h[29..33]) }
  function StoredSum(h: seq<byte>): nat requires |h| >= 40 { FromLE(h[36..40]) }

  /** Reads the entry at the front of the bytes that follow the file cursor. */
  function Decode(rest: seq<byte>): (r: Result<Entry>)
    ensures r.Ok? ==> EntrySize(r.value) <= |rest| && Storable(r.value)
  {
    if |rest| < ENTRY_HEADER_SIZE then Err(TruncatedBuffer)
    else if MagicOf(rest) != FILE_MAGIC then Err(VersionMismatch)
    else if SchemaOf(rest) != SCHEMA_VERSION then Err(VersionMismatch)
    else
      var al, pl := ActionLen(rest), PayloadLen(rest);
      if 0 < al && |rest| < 40 + al then Err(TruncatedBuffer)
      else if 0 < pl && |rest| < 40 + al + pl then Err(TruncatedBuffer)
      else
        var action, payload := rest[40..40 + al], rest[40 + al..40 + al + pl];
        if Sum(rest[..36], action, payload) != StoredSum(rest) then Err(DecodeFailed)
        else
          Pow256Values();
          Ok(Entry(SequenceOf(rest), WordToSigned(TimeOf(rest)), rest[24], action, payload))
  }

  /** Decoding fails at the first check that fails. */
  lemma DecodeFails(rest: seq<byte>)
    ensures |rest| < 40 ==> Decode(rest) == Err(TruncatedBuffer)
    ensures |rest| >= 40 && MagicOf(rest) != FILE_MAGIC ==> Decode(rest) == Err(VersionMismatch)
    ensures |rest| >= 40 && SchemaOf(rest) != SCHEMA_VERSION ==> Decode(rest) == Err(VersionMismatch)
    ensures |rest| >= 40 && MagicOf(rest) == FILE_MAGIC && SchemaOf(rest) == SCHEMA_VERSION ==>
              |rest| < 40 + ActionLen(rest) + PayloadLen(rest) ==> Decode(rest) == Err(TruncatedBuffer)
  {
    hide Sum, MagicOf, SchemaOf, ActionLen, PayloadLen, StoredSum, SequenceOf, TimeOf, WordToSigned;
  }

  /** A complete entry decodes exactly when the recomputed sum is the stored one. */
  lemma DecodeWhole(rest: seq<byte>, action: seq<byte>, payload: seq<byte>)
    requires |rest| >= 40 + |action| + |payload|
    requires MagicOf(rest) == FILE_MAGIC && SchemaOf(rest) == SCHEMA_VERSION
    requires |action| == ActionLen(rest) && action == rest[40..40 + |action|]
    requires |payload| == PayloadLen(rest) && payload == rest[40 + |action|..40 + |action| + |payload|]
    ensures Decode(rest) ==
            if Sum(rest[..36], action, payload) != StoredSum(rest) then Err(DecodeFailed)
            else Ok(Entry(SequenceOf(rest), WordToSigned(TimeOf(rest)), rest[24], action, payload))
  {
    hide Sum, MagicOf, SchemaOf, ActionLen, PayloadLen, StoredSum, SequenceOf, TimeOf, WordToSigned;
  }

  /** Field offsets only depend on the first 40 bytes. */
  lemma FieldsOfHeader(rest: seq<byte>, h: seq<byte>)
    requires |rest| >= 40 && h == rest[..40]
    ensures MagicOf(h) == MagicOf(rest) && SchemaOf(h) == SchemaOf(rest)
    ensures SequenceOf(h) == SequenceOf(rest) && TimeOf(h) == TimeOf(rest) && h[24] == rest[24]
    ensures ActionLen(h) == ActionLen(rest) && PayloadLen(h) == PayloadLen(rest)
    ensures StoredSum(h) == StoredSum(rest) && h[..36] == rest[..36]
  {
    hide FromLE;
    SubSlice(rest, 40, 0, 4);
    SubSlice(rest, 40, 4, 8);
    SubSlice(rest, 40, 8, 16);
    SubSlice(rest, 40, 16, 24);
    SubSlice(rest, 40, 25, 29);
    SubSlice(rest, 40, 29, 33);
    SubSlice(rest, 40, 36, 40);
  }

  // ---------- the decoder inverts the encoder ----------

  lemma SubSlice(s: seq<byte>, n: nat, i: nat, j: nat)
    requires i <= j <= n <= |s|
    ensures s[i..j] == s[..n][i..j]
  {
  }

  /** Where the fields are in a header. */
  lemma HeaderSlices(e: Entry)
    ensures var h := HeaderBody(e);
            && h[0..4] == LE(FILE_MAGIC, 4) && h[4..8] == LE(SCHEMA_VERSION, 4)
            && h[8..16] == LE(e.sequence, 8) && h[16..24] == LE(SignedToWord(e.timestamp), 8) && h[24] == e.kind
            && h[25..29] == LE(|e.action| % U32, 4) && h[29..33] == LE(|e.payload| % U32, 4)
  {
    hide LE;
  }

  /** The header fields read back from any bytes that begin with a written header. */
  lemma HeaderFields(e: Entry, rest: seq<byte>)
    requires |rest| >= 40 && rest[..36] == HeaderBody(e)
    ensures MagicOf(rest) == FILE_MAGIC && SchemaOf(rest) == SCHEMA_VERSION
    ensures SequenceOf(rest) == e.sequence && WordToSigned(TimeOf(rest)) == e.timestamp && rest[24] == e.kind
    ensures ActionLen(rest) == |e.action| % U32 && PayloadLen(rest) == |e.payload| % U32
  {
    HeaderSlices(e);
    hide HeaderBody, LE, FromLE;
    SubSlice(rest, 36, 0, 4);
    SubSlice(rest, 36, 4, 8);
    SubSlice(rest, 36, 8, 16);
    SubSlice(rest, 36, 16, 24);
    SubSlice(rest, 36, 25, 29);
    SubSlice(rest, 36, 29, 33);
    assert rest[24] == rest[..36][24];
    LE4(FILE_MAGIC);
    LE4(SCHEMA_VERSION);
    LE4(|e.action| % U32);
    LE4(|e.payload| % U32);
    LE8(e.sequence);
    LE8(SignedToWord(e.timestamp));
  }

  lemma EncodeParts(e: Entry, post: seq<byte>)
    ensures var r, c := Encode(e) + post, Clip(e);
            && r[..36] == HeaderBody(e)
            && r[36..40] == LE(Sum(HeaderBody(e), c.action, c.payload), 4)
            && r[40..40 + |c.action|] == c.action
            && r[40 + |c.action|..EntrySize(c)] == c.payload
            && r[EntrySize(c)..] == post
  {
    var c := Clip(e);
    FourParts(HeaderBody(e), LE(Sum(HeaderBody(e), c.action, c.payload), 4), c.action, c.payload, post);
  }

  lemma FourParts(a: seq<byte>, b: seq<byte>, c: seq<byte>, d: seq<byte>, post: seq<byte>)
    requires |a| == 36 && |b| == 4
    ensures var r := a + b + c + d + post;
            && r[..36] == a && r[36..40] == b && r[40..40 + |c|] == c
            && r[40 + |c|..40 + |c| + |d|] == d && r[40 + |c| + |d|..] == post
  {
  }

  /** Bytes laid out like the encoding of e decode to e, with both parts as the length fields describe them. */
  lemma DecodeOfParts(rest: seq<byte>, e: Entry, c: Entry, word: u32)
    requires c == Clip(e) && EntrySize(c) <= |rest| && rest[..36] == HeaderBody(e)
    requires rest[40..40 + |c.action|] == c.action && rest[40 + |c.action|..EntrySize(c)] == c.payload
    requires rest[36..40] == LE(word, 4) && word == Sum(rest[..36], c.action, c.payload)
    ensures Decode(rest) == Ok(c)
  {
    HeaderFields(e, rest);
    LE4(word);
    DecodeWhole(rest, c.action, c.payload);
  }

  /** Round trip: what was written is read back. */
  lemma DecodeOfEncode(e: Entry, post: seq<byte>)
    ensures Decode(Encode(e) + post) == Ok(Clip(e))
  {
    EncodeParts(e, post);
    var c := Clip(e);
    DecodeOfParts(Encode(e) + post, e, c, Sum(HeaderBody(e), c.action, c.payload));
  }

  /** A strict prefix of an encoding reads as a truncated buffer, wherever it was cut. */
  lemma DecodeOfCut(e: Entry, k: nat)
    requires k < |Encode(e)|
    ensures Decode(Encode(e)[..k]) == Err(TruncatedBuffer)
  {
    var r := Encode(e);
    if k >= 40 {
      assert r[..k][..36] == HeaderBody(e) by {
        EncodeParts(e, []);
        assert r + [] == r;
      }
      HeaderFields(e, r[..k]);
      DecodeFails(r[..k]);
    }
  }

  /** Only a part of 2^32 bytes or more is cut. */
  lemma ClipOfStorable(e: Entry)
    ensures Storable(e) <==> Clip(e) == e
  {
    if Storable(e) {
      assert e.action[..|e.action|] == e.action && e.payload[..|e.payload|] == e.payload;
    }
  }

  /** Re-encoding a decoded entry is lossless: the encoding decodes to it again. */
  lemma ClipIsIdempotent(e: Entry)
    ensures Storable(Clip(e)) && Clip(Clip(e)) == Clip(e) && Encode(Clip(e)) == Encode(e)
  {
    hide LE, Sum;
    ClipOfStorable(Clip(e));
    assert HeaderBody(Clip(e)) == HeaderBody(e);
  }

  // ---------- the format, byte by byte ----------

  /** The 36 header bytes, field by field. */
  lemma HeaderLayout(e: Entry)
    ensures var h, c := HeaderBody(e), Clip(e);
            && h[0..8] == [0xD5, 0x00, 0x1F, 0xDA, 1, 0, 0, 0]
            && h[8..16] == LE(e.sequence, 8) && h[16..24] == LE(SignedToWord(e.timestamp), 8) && h[24] == e.kind
            && h[25..29] == LE(|c.action|, 4) && h[29..33] == LE(|c.payload|, 4) && h[33..36] == [0, 0, 0]
  {
    var h := HeaderBody(e);
    HeaderSlices(e);
    assert h[33..36] == [0, 0, 0] by {
      hide LE;
    }
    hide HeaderBody, LE;
    MagicBytes();
    assert h[0..8] == h[0..4] + h[4..8];
  }

  /** An encoding: the header, the checksum of everything else, and both parts. Integers are little-endian. */
  lemma EncodedLayout(e: Entry)
    ensures var r, c := Encode(e), Clip(e);
            && |r| == 40 + |c.action| + |c.payload|
            && r[..36] == HeaderBody(e)
            && r[36..40] == LE(Sum(r[..36], c.action, c.payload), 4)
            && r[40..40 + |c.action|] == c.action && r[40 + |c.action|..] == c.payload
  {
    var r, c := Encode(e), Clip(e);
    EncodeParts(e, []);
    hide HeaderBody, LE, Sum, Clip, Encode;
    assert r + [] == r;
    assert r[40 + |c.action|..] == r[40 + |c.action|..EntrySize(c)];
  }

  lemma MagicBytes()
    ensures LE(FILE_MAGIC, 4) == [0xD5, 0x00, 0x1F, 0xDA] && LE(SCHEMA_VERSION, 4) == [1, 0, 0, 0]
  {
    LEFour(FILE_MAGIC);
    LEFour(SCHEMA_VERSION);
    hide LE;
  }

  lemma LEFour(n: u32)
    ensures LE(n, 4) == [n % 256, n / 256 % 256, n / 256 / 256 % 256, n / 256 / 256 / 256 % 256]
  {
    var b, c, d := n / 256, n / 256 / 256, n / 256 / 256 / 256;
    assert LE(d, 1) == [d % 256] + LE(d / 256, 0) == [d % 256];
    assert LE(c, 2) == [c % 256] + LE(d, 1) == [c % 256, d % 256];
    assert LE(b, 3) == [b % 256] + LE(c, 2);
  }

  /** FNV-1a of "", "a" and "fo", as published with the algorithm. */
  lemma FnvVectors()
    ensures Fnv([]) == 0x811C9DC5
    ensures Fnv([97]) == 0xE40C292C
    ensures Fnv([102, 111]) == 0x6222E842
  {
    FirstXor();
    SecondXor();
    ThirdXor();
    hide Xor32, Wrap32, FnvStep;
    HashStep(0x811C9DC5, 97, 0x811C9DA4, 0xE40C292C);
    HashStep(0x811C9DC5, 102, 0x811C9DA3, 0xE30C2799);
    HashStep(0xE30C2799, 111, 0xE30C27F6, 0x6222E842);
    assert [97][..0] == [] && [102, 111][..1] == [102] && [102][..0] == [];
  }

  lemma FirstXor()
    ensures Xor32(0x811C9DC5, 97) == 0x811C9DA4
  {
    Pow2Of24();
    hide Xor, Pow2;
    XorZero(0x811C9D, 24);
    XorBit(0x102393B, 0, 25, 0x811C9D);
    XorBit(0x2047277, 1, 26, 0x102393B);
    XorBit(0x408E4EE, 3, 27, 0x2047276);
    XorBit(0x811C9DC, 6, 28, 0x408E4ED);
    XorBit(0x102393B8, 12, 29, 0x811C9DA);
    XorBit(0x20472771, 24, 30, 0x102393B4);
    XorBit(0x408E4EE2, 48, 31, 0x20472769);
    XorBit(0x811C9DC5, 97, 32, 0x408E4ED2);
  }

  lemma SecondXor()
    ensures Xor32(0x811C9DC5, 102) == 0x811C9DA3
  {
    Pow2Of24();
    hide Xor, Pow2;
    XorZero(0x811C9D, 24);
    XorBit(0x102393B, 0, 25, 0x811C9D);
    XorBit(0x2047277, 1, 26, 0x102393B);
    XorBit(0x408E4EE, 3, 27, 0x2047276);
    XorBit(0x811C9DC, 6, 28, 0x408E4ED);
    XorBit(0x102393B8, 12, 29, 0x811C9DA);
    XorBit(0x20472771, 25, 30, 0x102393B4);
    XorBit(0x408E4EE2, 51, 31, 0x20472768);
    XorBit(0x811C9DC5, 102, 32, 0x408E4ED1);
  }

  lemma ThirdXor()
    ensures Xor32(0xE30C2799, 111) == 0xE30C27F6
  {
    Pow2Of24();
    hide Xor, Pow2;
    XorZero(0xE30C27, 24);
    XorBit(0x1C6184F, 0, 25, 0xE30C27);
    XorBit(0x38C309E, 1, 26, 0x1C6184F);
    XorBit(0x718613C, 3, 27, 0x38C309F);
    XorBit(0xE30C279, 6, 28, 0x718613F);
    XorBit(0x1C6184F3, 13, 29, 0xE30C27F);
    XorBit(0x38C309E6, 27, 30, 0x1C6184FE);
    XorBit(0x718613CC, 55, 31, 0x38C309FD);
    XorBit(0xE30C2799, 111, 32, 0x718613FB);
  }

  lemma Pow2Of24()
    ensures Pow2(24) == 0x100_0000
  {
    assert Pow2(8) == 256;
    assert Pow2(16) == 256 * Pow2(8);
    assert Pow2(24) == 256 * Pow2(16);
  }

  /** Magic number and schema version are what they should be exactly when the eight bytes are. */
  lemma MagicIff(b: seq<byte>)
    requires |b| >= 8
    ensures FromLE(b[0..4]) == FILE_MAGIC && FromLE(b[4..8]) == SCHEMA_VERSION
       <==> b[..8] == [0xD5, 0x00, 0x1F, 0xDA, 1, 0, 0, 0]
  {
    WordIff(b[0..4], FILE_MAGIC);
    WordIff(b[4..8], SCHEMA_VERSION);
    MagicBytes();
    hide LE, FromLE;
    HalvesIff(b[..8], b[0..4], b[4..8], [0xD5, 0x00, 0x1F, 0xDA], [1, 0, 0, 0]);
  }

  lemma WordIff(b: seq<byte>, n: u32)
    requires |b| == 4
    ensures FromLE(b) == n <==> b == LE(n, 4)
  {
    LE4(n);
    hide LE, FromLE;
    if FromLE(b) == n {
      FromLEInjective(b, LE(n, 4));
    }
  }

  lemma HalvesIff(whole: seq<byte>, a: seq<byte>, b: seq<byte>, x: seq<byte>, y: seq<byte>)
    requires |whole| == 8 && a == whole[..4] && b == whole[4..] && |x| == |y| == 4
    ensures a == x && b == y <==> whole == x + y
  {
    assert whole == a + b;
    assert (x + y)[..4] == x && (x + y)[4..] == y;
  }

  lemma HashStep(h: u32, b: byte, x: u32, r: u32)
    requires Xor32(h, b) == x && x * FNV_PRIME % U32 == r
    ensures FnvStep(h, b) == r
  {
    Wrap32IsMod(x * FNV_PRIME);
  }

  // ---------- corruption ----------

  const FNV_PRIME_INVERSE := 0x359C449B

  /** Multiplication by the FNV prime can be undone modulo 2^32. */
  lemma TimesPrimeInjective(h: u32, g: u32)
    requires Wrap32(h * FNV_PRIME) == Wrap32(g * FNV_PRIME)
    ensures h == g
  {
    Wrap32IsMod(h * FNV_PRIME);
    Wrap32IsMod(g * FNV_PRIME);
    PrimeUndone(h);
    PrimeUndone(g);
  }

  lemma PrimeUndone(h: u32)
    ensures (h * FNV_PRIME % U32) * FNV_PRIME_INVERSE % U32 == h
  {
    assert FNV_PRIME * FNV_PRIME_INVERSE == 1 + U32 * 3513497;
    var q, r := h * FNV_PRIME / U32, h * FNV_PRIME % U32;
    assert r == h * FNV_PRIME - q * U32;
    assert r * FNV_PRIME_INVERSE == h + U32 * (h * 3513497 - q * FNV_PRIME_INVERSE);
  }

  /** One step of the hash is injective in the running hash and in the byte. */
  lemma FnvStepInjective(h: u32, g: u32, a: byte, b: byte)
    requires FnvStep(h, a) == FnvStep(g, b)
    ensures h == g ==> a == b
    ensures a == b ==> h == g
  {
    hide Xor32;
    TimesPrimeInjective(Xor32(h, a), Xor32(g, b));
    Xor32Injective(h, a, b);
    Xor32Injective(a, h, g);
  }

  /** FNV-1a distinguishes any two byte strings that differ in exactly one byte. */
  lemma {:induction false} FnvCatchesOneByte(data: seq<byte>, i: nat, b: byte)
    requires i < |data| && b != data[i]
    ensures Fnv(data[i := b]) != Fnv(data)
  {
    var init, init' := data[..|data| - 1], data[i := b][..|data| - 1];
    if Fnv(data[i := b]) == Fnv(data) {
      FnvStepInjective(Fnv(init'), Fnv(init), data[i := b][|data| - 1], data[|data| - 1]);
    }
    if i < |data| - 1 {
      assert init' == init[i := b];
      FnvCatchesOneByte(init, i, b);
    } else {
      assert init' == init;
    }
  }

  /** Changing one of the three checksummed parts in one byte changes the sum. */
  lemma SumCatchesOneByte(h: seq<byte>, action: seq<byte>, payload: seq<byte>, i: nat, b: byte)
    ensures i < |h| && b != h[i] ==> Sum(h[i := b], action, payload) != Sum(h, action, payload)
    ensures i < |action| && b != action[i] ==> Sum(h, action[i := b], payload) != Sum(h, action, payload)
    ensures i < |payload| && b != payload[i] ==> Sum(h, action, payload[i := b]) != Sum(h, action, payload)
  {
    hide Fnv, Xor32;
    var w := if action == [] then Fnv(h) else Xor32(Fnv(h), Fnv(action));
    if i < |h| && b != h[i] {
      FnvCatchesOneByte(h, i, b);
      Xor32Injective(Fnv(action), Fnv(h), Fnv(h[i := b]));
      Xor32Injective(Fnv(payload), w, if action == [] then Fnv(h[i := b]) else Xor32(Fnv(h[i := b]), Fnv(action)));
    }
    if i < |action| && b != action[i] {
      FnvCatchesOneByte(action, i, b);
      Xor32Injective(Fnv(h), Fnv(action), Fnv(action[i := b]));
      Xor32Injective(Fnv(payload), w, Xor32(Fnv(h), Fnv(action[i := b])));
    }
    if i < |payload| && b != payload[i] {
      FnvCatchesOneByte(payload, i, b);
      Xor32Injective(w, Fnv(payload), Fnv(payload[i := b]));
    }
  }

  lemma FrameKept(r: seq<byte>, r': seq<byte>)
    requires |r| >= 40 && |r'| >= 40 && r[..8] == r'[..8] && r[25..33] == r'[25..33]
    ensures MagicOf(r) == MagicOf(r') && SchemaOf(r) == SchemaOf(r')
    ensures ActionLen(r) == ActionLen(r') && PayloadLen(r) == PayloadLen(r')
  {
    assert r[0..4] == r[..8][..4] == r'[..8][..4] == r'[0..4];
    assert r[4..8] == r[..8][4..] == r'[..8][4..] == r'[4..8];
    assert r[25..29] == r[25..33][..4] == r'[25..33][..4] == r'[25..29];
    assert r[29..33] == r[25..33][4..] == r'[25..33][4..] == r'[29..33];
  }

  /** The bytes of an encoding whose corruption the checksum must catch: all but magic, schema and lengths. */
  predicate Checked(i: nat) {
    8 <= i < 25 || 33 <= i
  }

  lemma CorruptSumCaught(e: Entry, post: seq<byte>, i: nat, b: byte)
    requires i < |Encode(e)| && b != Encode(e)[i] && Checked(i)
    ensures var c, r' := Clip(e), Encode(e)[i := b] + post;
            Sum(r'[..36], r'[40..40 + |c.action|], r'[40 + |c.action|..EntrySize(c)]) != StoredSum(r')
  {
    hide Sum, HeaderBody, Clip, LE, FromLE;
    var c, r, r' := Clip(e), Encode(e) + post, Encode(e)[i := b] + post;
    EncodeParts(e, post);
    var h, n := HeaderBody(e), 40 + |c.action|;
    var word := Sum(h, c.action, c.payload);
    LE4(word);
    if i < 36 {
      assert r'[..36] == h[i := b] && r'[36..40] == r[36..40] && r'[40..n] == r[40..n];
      assert r'[n..EntrySize(c)] == r[n..EntrySize(c)];
      SumCatchesOneByte(h, c.action, c.payload, i, b);
    } else if i < 40 {
      assert r'[..36] == h && r'[40..n] == r[40..n] && r'[n..EntrySize(c)] == r[n..EntrySize(c)];
      assert r'[36..40][i - 36] != r[36..40][i - 36];
      if FromLE(r'[36..40]) == FromLE(r[36..40]) {
        FromLEInjective(r'[36..40], r[36..40]);
      }
    } else if i < n {
      assert r'[..36] == h && r'[36..40] == r[36..40] && r'[n..EntrySize(c)] == r[n..EntrySize(c)];
      assert r'[40..n] == c.action[i - 40 := b];
      SumCatchesOneByte(h, c.action, c.payload, i - 40, b);
    } else {
      assert r'[..36] == h && r'[36..40] == r[36..40] && r'[40..n] == r[40..n];
      assert r'[n..EntrySize(c)] == c.payload[i - n := b];
      SumCatchesOneByte(h, c.action, c.payload, i - n, b);
    }
  }

  /** Any one changed byte of sequence, time, kind, padding, parts or checksum makes the entry undecodable. */
  lemma CorruptionCaught(e: Entry, post: seq<byte>, i: nat, b: byte)
    requires i < |Encode(e)| && b != Encode(e)[i] && Checked(i)
    ensures Decode(Encode(e)[i := b] + post) == Err(DecodeFailed)
  {
    hide HeaderBody, Sum, LE, FromLE;
    var r, r' := Encode(e) + post, Encode(e)[i := b] + post;
    EncodeParts(e, post);
    HeaderFields(e, r);
    assert r'[..8] == r[..8] && r'[25..33] == r[25..33];
    FrameKept(r, r');
    CorruptSumCaught(e, post, i, b);
    var n := 40 + |Clip(e).action|;
    DecodeWhole(r', r'[40..n], r'[n..EntrySize(Clip(e))]);
  }

  /** Any one changed byte of the magic number or the schema version is refused as a foreign format. */
  lemma ForeignFrameRefused(e: Entry, post: seq<byte>, i: nat, b: byte)
    requires i < 8 && b != Encode(e)[i]
    ensures Decode(Encode(e)[i := b] + post) == Err(VersionMismatch)
  {
    var r, r' := Encode(e) + post, Encode(e)[i := b] + post;
    EncodeParts(e, post);
    HeaderFields(e, r);
    var j := if i < 4 then 0 else 4;
    assert r'[j..j + 4][i - j] != r[j..j + 4][i - j];
    if FromLE(r'[j..j + 4]) == FromLE(r[j..j + 4]) {
      FromLEInjective(r'[j..j + 4], r[j..j + 4]);
    }
  }
}
