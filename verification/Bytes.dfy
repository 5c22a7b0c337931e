/** Bytes, machine words and the little-endian and bitwise arithmetic that the components share. */
module Bytes {

  const U16 := 0x1_0000
  const U32 := 0x1_0000_0000
  const U64 := 0x1_0000_0000_0000_0000
  const I64_MAX := 0x7FFF_FFFF_FFFF_FFFF

  type byte = b: int | 0 <= b < 256
  type u16 = n: int | 0 <= n < U16
  type u32 = n: int | 0 <= n < U32
  type u64 = n: int | 0 <= n < U64
  type i64 = n: int | -I64_MAX - 1 <= n <= I64_MAX

  datatype Option<+T> = None | Some(value: T)

  // ---------- little-endian integers ----------

  function Pow256(width: nat): (r: nat)
    ensures r > 0
  {
    if width == 0 then 1 else 256 * Pow256(width - 1)
  }

  lemma Pow256Values()
    ensures Pow256(4) == U32 && Pow256(8) == U64
  {
    assert Pow256(2) == 0x1_0000;
    assert Pow256(4) == 0x1_0000 * Pow256(2);
    assert Pow256(6) == 0x1_0000 * Pow256(4);
    assert Pow256(8) == 0x1_0000 * Pow256(6);
  }

  /** The low `width` bytes of n, least significant first; higher bytes are dropped. */
  function LE(n: nat, width: nat): (r: seq<byte>)
    ensures |r| == width
  {
    if width == 0 then [] else [n % 256] + LE(n / 256, width - 1)
  }

  function FromLE(s: seq<byte>): (r: nat)
    ensures r < Pow256(|s|)
  {
    if s == [] then 0 else s[0] + 256 * FromLE(s[1..])
  }

  lemma {:induction false} FromLEOfLE(n: nat, width: nat)
    requires n < Pow256(width)
    ensures FromLE(LE(n, width)) == n
  {
    if width > 0 {
      FromLEOfLE(n / 256, width - 1);
      assert LE(n, width)[1..] == LE(n / 256, width - 1);
    }
  }

  lemma LE4(n: u32)
    ensures FromLE(LE(n, 4)) == n
  {
    Pow256Values();
    FromLEOfLE(n, 4);
  }

  lemma LE8(n: u64)
    ensures FromLE(LE(n, 8)) == n
  {
    Pow256Values();
    FromLEOfLE(n, 8);
  }

  lemma {:induction false} FromLEInjective(a: seq<byte>, b: seq<byte>)
    requires |a| == |b| && FromLE(a) == FromLE(b)
    ensures a == b
  {
    if a != [] {
      FromLEInjective(a[1..], b[1..]);
      assert a == [a[0]] + a[1..];
      assert b == [b[0]] + b[1..];
    }
  }

  // ---------- powers of two and bitwise operations ----------

  function Pow2(k: nat): (r: nat)
    ensures r > 0
  {
    if k == 0 then 1 else 2 * Pow2(k - 1)
  }

  /** The low 32 bits of n: wrap-around by taking off 2^32 as often as it fits. */
  function Wrap32(n: nat): u32 {
    if n < U32 then n else Wrap32(n - U32)
  }

  lemma {:induction false} Wrap32IsMod(n: nat)
    ensures Wrap32(n) == n % U32
  {
    if n >= U32 {
      Wrap32IsMod(n - U32);
      assert n % U32 == (n - U32) % U32;
    }
  }

  /** Exclusive or of the low k bits. */
  function Xor(a: nat, b: nat, k: nat): (r: nat)
    ensures r < Pow2(k)
  {
    if k == 0 then 0 else (a % 2 + b % 2) % 2 + 2 * Xor(a / 2, b / 2, k - 1)
  }

  /** Conjunction of the low k bits. */
  function And(a: nat, b: nat, k: nat): nat {
    if k == 0 then 0 else (a % 2) * (b % 2) + 2 * And(a / 2, b / 2, k - 1)
  }

  lemma {:induction false} XorCommutes(a: nat, b: nat, k: nat)
    ensures Xor(a, b, k) == Xor(b, a, k)
  {
    if k > 0 {
      XorCommutes(a / 2, b / 2, k - 1);
    }
  }

  lemma {:induction false} XorInjective(a: nat, b: nat, c: nat, k: nat)
    requires b < Pow2(k) && c < Pow2(k)
    requires Xor(a, b, k) == Xor(a, c, k)
    ensures b == c
  {
    if k > 0 {
      var x, y := Xor(a / 2, b / 2, k - 1), Xor(a / 2, c / 2, k - 1);
      LowBit(a % 2, b % 2, c % 2, x, y);
      XorInjective(a / 2, b / 2, c / 2, k - 1);
      hide Xor, Pow2;
      assert b == 2 * (b / 2) + b % 2 && c == 2 * (c / 2) + c % 2;
    }
  }

  lemma LowBit(a: nat, b: nat, c: nat, x: nat, y: nat)
    requires a < 2 && b < 2 && c < 2
    requires (a + b) % 2 + 2 * x == (a + c) % 2 + 2 * y
    ensures b == c && x == y
  {
    assert a == 0 || a == 1;
    assert b == 0 || b == 1;
    assert c == 0 || c == 1;
  }

  lemma {:induction false} XorZero(a: nat, k: nat)
    requires a < Pow2(k)
    ensures Xor(a, 0, k) == a
  {
    if k > 0 {
      XorZero(a / 2, k - 1);
    }
  }

  /** The lowest bit of an exclusive or, given the higher ones. */
  lemma XorBit(a: nat, b: nat, k: nat, high: nat)
    requires k > 0 && Xor(a / 2, b / 2, k - 1) == high
    ensures Xor(a, b, k) == (a % 2 + b % 2) % 2 + 2 * high
  {
    hide Pow2;
  }

  lemma Pow2Of32()
    ensures Pow2(32) == U32
  {
    assert Pow2(8) == 256;
    assert Pow2(16) == 256 * Pow2(8);
    assert Pow2(24) == 256 * Pow2(16);
    assert Pow2(32) == 256 * Pow2(24);
  }

  function Xor32(a: u32, b: u32): u32 {
    Pow2Of32();
    Xor(a, b, 32)
  }

  lemma Xor32Injective(a: u32, b: u32, c: u32)
    ensures Xor32(a, b) == Xor32(a, c) ==> b == c
    ensures Xor32(b, a) == Xor32(c, a) ==> b == c
  {
    Pow2Of32();
    XorCommutes(a, b, 32);
    XorCommutes(a, c, 32);
    if Xor32(a, b) == Xor32(a, c) {
      XorInjective(a, b, c, 32);
    }
  }

  /** Masking with 2^m - 1 is the remainder modulo 2^m. */
  lemma {:induction false} MaskIsMod(a: nat, m: nat, k: nat)
    requires m <= k
    ensures And(a, Pow2(m) - 1, k) == a % Pow2(m)
  {
    if m == 0 {
      AndZero(a, k);
    } else {
      MaskIsMod(a / 2, m - 1, k - 1);
      hide And;
      MaskStep(a, Pow2(m - 1), k);
    }
  }

  lemma MaskStep(a: nat, p: nat, k: nat)
    requires p > 0 && k > 0 && And(a / 2, p - 1, k - 1) == (a / 2) % p
    ensures And(a, 2 * p - 1, k) == a % (2 * p)
  {
    hide And;
    OddMask(a, p, k);
    HalfMod(a, p);
  }

  lemma OddMask(a: nat, p: nat, k: nat)
    requires p > 0 && k > 0
    ensures And(a, 2 * p - 1, k) == a % 2 + 2 * And(a / 2, p - 1, k - 1)
  {
    assert (2 * p - 1) / 2 == p - 1 && (2 * p - 1) % 2 == 1;
  }

  lemma {:induction false} AndZero(a: nat, k: nat)
    ensures And(a, 0, k) == 0
  {
    if k > 0 {
      AndZero(a / 2, k - 1);
    }
  }

  lemma HalfMod(a: nat, p: nat)
    requires p > 0
    ensures a % (2 * p) == a % 2 + 2 * ((a / 2) % p)
  {
    var h := a / 2;
    var q, r := h / p, h % p;
    assert h == q * p + r;
    assert a == q * (2 * p) + (a % 2 + 2 * r);
    DivModUnique(a, 2 * p, q, a % 2 + 2 * r);
  }

  lemma DivModUnique(a: int, d: int, q: int, r: int)
    requires d > 0 && 0 <= r < d && a == q * d + r
    ensures a / d == q && a % d == r
  {
    MulSign(q - a / d, d);
    assert a == (a / d) * d + a % d;
    assert (q - a / d) * d == a % d - r;
  }

  lemma MulSign(q: int, d: int)
    requires d > 0
    ensures q > 0 ==> q * d >= d
    ensures q < 0 ==> q * d <= -d
  {
  }
}
