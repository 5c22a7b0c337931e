/** Decimal numbers as streams write them and as the standard string conversions read them. */
module Decimal {
  import opened Bytes

  predicate IsDigit(c: char) {
    '0' <= c <= '9'
  }

  predicate IsSpace(c: char) {
    c == ' ' || '\t' <= c <= '\r'
  }

  predicate AllDigits(s: string) {
    forall c | c in s :: IsDigit(c)
  }

  function Digit(n: nat): (c: char)
    requires n < 10
    ensures IsDigit(c) && c as int - '0' as int == n
  {
    '0' + n as char
  }

  /** The decimal digits of n without leading zeros. */
  function Dec(n: nat): (s: string)
    ensures s != [] && AllDigits(s)
  {
    if n < 10 then [Digit(n)] else Dec(n / 10) + [Digit(n % 10)]
  }

  function DecInt(n: int): string {
    if n < 0 then "-" + Dec(-n) else Dec(n)
  }

  /** The number that a digit string denotes. */
  function Value(s: string): nat
    requires AllDigits(s)
  {
    if s == [] then 0
    else
      assert s[|s| - 1] in s;
      10 * Value(s[..|s| - 1]) + (s[|s| - 1] as int - '0' as int)
  }

  function SkipSpaces(s: string): string {
    if s != [] && IsSpace(s[0]) then SkipSpaces(s[1..]) else s
  }

  function LeadingDigits(s: string): (r: string)
    ensures AllDigits(r)
  {
    if s != [] && IsDigit(s[0]) then [s[0]] + LeadingDigits(s[1..]) else []
  }

  /** An optional sign and the digits behind it; whatever follows the digits is ignored. */
  function SignedDigits(s: string): (bool, string) {
    var t := SkipSpaces(s);
    if t != [] && t[0] == '-' then (true, LeadingDigits(t[1..]))
    else if t != [] && t[0] == '+' then (false, LeadingDigits(t[1..]))
    else (false, LeadingDigits(t))
  }

  /** stoull: no digits or a magnitude of 2^64 or more is an error; a minus sign negates modulo 2^64. */
  function ParseUnsigned(s: string): Option<u64> {
    var (negative, digits) := SignedDigits(s);
    assert AllDigits(digits);
    if digits == [] || Value(digits) >= U64 then None
    else if negative then Some((U64 - Value(digits)) % U64)
    else Some(Value(digits))
  }

  /** stoll: no digits or a value outside the signed 64-bit range is an error. */
  function ParseSigned(s: string): Option<i64> {
    var (negative, digits) := SignedDigits(s);
    assert AllDigits(digits);
    if digits == [] then None
    else if negative then (if Value(digits) <= I64_MAX + 1 then Some(0 - Value(digits)) else None)
    else if Value(digits) <= I64_MAX then Some(Value(digits)) else None
  }

  lemma {:induction false} ValueOfDec(n: nat)
    ensures Value(Dec(n)) == n
  {
    if n >= 10 {
      ValueOfDec(n / 10);
      assert Dec(n)[..|Dec(n)| - 1] == Dec(n / 10);
    } else {
      assert Dec(n)[..0] == [];
      assert Value(Dec(n)) == 10 * Value([]) + n;
    }
  }

  /** A number is written in the one way that uses digits only and no leading zero. */
  lemma {:induction false} DecIsUnique(s: string)
    requires s != [] && AllDigits(s) && (|s| > 1 ==> s[0] != '0')
    ensures Dec(Value(s)) == s
    decreases |s|
  {
    var init, last := s[..|s| - 1], s[|s| - 1];
    assert last in s && s[0] in s;
    if |s| > 1 {
      assert init[0] == s[0] && AllDigits(init);
      DecIsUnique(init);
      ValueIsPositive(init);
      assert s == init + [last];
    } else {
      assert Value(init) == 0;
    }
  }

  lemma {:induction false} ValueIsPositive(s: string)
    requires s != [] && AllDigits(s) && s[0] != '0'
    ensures Value(s) > 0
    decreases |s|
  {
    var init, last := s[..|s| - 1], s[|s| - 1];
    assert s[0] in s && last in s;
    if |s| > 1 {
      assert init[0] == s[0] && AllDigits(init);
      ValueIsPositive(init);
    } else {
      assert init == [] && Value(init) == 0;
    }
  }

  lemma {:induction false} NoLeadingZero(n: nat)
    ensures n > 0 ==> Dec(n)[0] != '0'
    ensures n == 0 ==> Dec(n) == "0"
  {
    if n >= 10 {
      NoLeadingZero(n / 10);
      assert Dec(n)[0] == Dec(n / 10)[0];
    } else {
      assert Dec(n) == [Digit(n)];
    }
  }

  lemma DecInjective(m: nat, n: nat)
    requires Dec(m) == Dec(n)
    ensures m == n
  {
    ValueOfDec(m);
    ValueOfDec(n);
  }

  lemma {:induction false} LeadingDigitsOfDigits(s: string)
    requires AllDigits(s)
    ensures LeadingDigits(s) == s
  {
    if s != [] {
      LeadingDigitsOfDigits(s[1..]);
    }
  }

  lemma SignedDigitsOfDec(n: nat)
    ensures SignedDigits(Dec(n)) == (false, Dec(n))
    ensures SignedDigits("-" + Dec(n)) == (true, Dec(n))
  {
    var s := Dec(n);
    assert s[0] in s;
    hide Dec;
    LeadingDigitsOfDigits(s);
    assert ("-" + s)[1..] == s;
  }

  lemma ParseUnsignedOfDec(n: u64)
    ensures ParseUnsigned(Dec(n)) == Some(n)
  {
    SignedDigitsOfDec(n);
    ValueOfDec(n);
    hide Dec, SignedDigits, Value;
  }

  lemma ParseSignedOfDecInt(n: i64)
    ensures ParseSigned(DecInt(n)) == Some(n)
  {
    var m: int := if n < 0 then 0 - n else n;
    SignedDigitsOfDec(m);
    ValueOfDec(m);
    hide Dec, SignedDigits, Value;
  }

  // ---------- conversions of any text ----------

  predicate AllSpaces(s: string) {
    forall c | c in s :: IsSpace(c)
  }

  /** The digits of a number end where no digit follows. */
  predicate EndsDigits(rest: string) {
    rest != [] ==> !IsDigit(rest[0])
  }

  lemma {:induction false} SkipsSpaces(spaces: string, rest: string)
    requires AllSpaces(spaces) && (rest != [] ==> !IsSpace(rest[0]))
    ensures SkipSpaces(spaces + rest) == rest
  {
    if spaces == [] {
      assert spaces + rest == rest;
    } else {
      assert spaces[0] in spaces;
      assert (spaces + rest)[1..] == spaces[1..] + rest;
      SkipsSpaces(spaces[1..], rest);
    }
  }

  lemma {:induction false} TakesDigits(digits: string, rest: string)
    requires AllDigits(digits) && EndsDigits(rest)
    ensures LeadingDigits(digits + rest) == digits
  {
    if digits == [] {
      assert digits + rest == rest;
    } else {
      assert digits[0] in digits;
      assert (digits + rest)[1..] == digits[1..] + rest;
      TakesDigits(digits[1..], rest);
    }
  }

  lemma SignedDigitsOfParts(spaces: string, sign: string, digits: string, rest: string)
    requires AllSpaces(spaces) && AllDigits(digits) && EndsDigits(rest)
    requires sign == "" || sign == "+" || sign == "-"
    requires digits == [] && sign == "" ==> rest == "" || !(IsSpace(rest[0]) || rest[0] == '+' || rest[0] == '-')
    ensures SignedDigits(spaces + (sign + (digits + rest))) == (sign == "-", digits)
  {
    var t := sign + (digits + rest);
    if digits != [] {
      assert digits[0] in digits;
    }
    assert sign != "" ==> t[0] == sign[0] && t[1..] == digits + rest;
    assert sign == "" ==> t == digits + rest && (digits != [] ==> t[0] == digits[0]);
    SkipsSpaces(spaces, t);
    TakesDigits(digits, rest);
    hide SkipSpaces, LeadingDigits;
  }

  /**
   The conversions of any text, taken apart into spaces, a sign, digits and the rest: the rest is ignored, no digits
   are an error, and so is a magnitude beyond the type.
   */
  lemma ConversionOfParts(spaces: string, sign: string, digits: string, rest: string)
    requires AllSpaces(spaces) && AllDigits(digits) && EndsDigits(rest)
    requires sign == "" || sign == "+" || sign == "-"
    requires digits == [] && sign == "" ==> rest == "" || !(IsSpace(rest[0]) || rest[0] == '+' || rest[0] == '-')
    ensures var s, v: int := spaces + (sign + (digits + rest)), Value(digits);
            && ParseUnsigned(s) == (if digits == [] || v >= U64 then None
                                    else Some(if sign == "-" && v > 0 then U64 - v else v))
            && ParseSigned(s) == (if digits == [] then None
                                  else if sign == "-" then (if -v >= -I64_MAX - 1 then Some(-v) else None)
                                  else if v <= I64_MAX then Some(v) else None)
  {
    SignedDigitsOfParts(spaces, sign, digits, rest);
    hide SignedDigits, Value, AllSpaces, AllDigits, EndsDigits, IsSpace;
    ConversionOfDigits(spaces + (sign + (digits + rest)), sign == "-", digits);
  }

  lemma ConversionOfDigits(s: string, negative: bool, digits: string)
    requires AllDigits(digits) && SignedDigits(s) == (negative, digits)
    ensures var v: int := Value(digits);
            && ParseUnsigned(s) == (if digits == [] || v >= U64 then None
                                    else Some(if negative && v > 0 then U64 - v else v))
            && ParseSigned(s) == (if digits == [] then None
                                  else if negative then (if -v >= -I64_MAX - 1 then Some(-v) else None)
                                  else if v <= I64_MAX then Some(v) else None)
  {
    hide SignedDigits, Value, AllDigits;
  }
}
