/**
 * The C++ machine conventions the game's logic depends on: 32-bit signed
 * `int`, single bytes as written by `std::ofstream::write`, the truncating
 * integer division of C++ and `static_cast<int>` of a float, and
 * `std::to_string` of an int.
 */
module Machine {

  const INT32_MIN: int := -0x8000_0000
  const INT32_MAX: int := 0x7FFF_FFFF
  const TWO_32: int := 0x1_0000_0000

  /** A C++ `int` on the platforms the game targets. */
  newtype int32 = x: int | -0x8000_0000 <= x < 0x8000_0000

  /** One byte of a binary stream. */
  type byte = x: int | 0 <= x < 256

  /** Two's-complement wrap of an unbounded integer into 32 bits. */
  function Wrap32(x: int): (r: int32)
    ensures INT32_MIN <= x <= INT32_MAX ==> r as int == x
    ensures (r as int - x) % TWO_32 == 0
  {
    var u := x % TWO_32;
    if u <= INT32_MAX then u as int32 else (u - TWO_32) as int32
  }

  /** C++ `a / b` for a positive divisor: the quotient truncated toward zero. */
  function TruncDiv(a: int, b: int): (q: int)
    requires b > 0
    ensures a >= 0 ==> q == a / b
    ensures a < 0 ==> q <= 0 && a <= q * b < a + b
  {
    if a >= 0 then a / b else -((-a) / b)
  }

  /** `i` is `r` truncated toward zero: the integer between `r` and 0 less than 1 away from `r`. */
  predicate IsTrunc(r: real, i: int) {
    && (r >= 0.0 ==> i as real <= r < i as real + 1.0)
    && (r < 0.0 ==> i as real - 1.0 < r <= i as real)
  }

  lemma TruncExists(r: real)
    ensures IsTrunc(r, if r >= 0.0 then r.Floor else -((-r).Floor))
  {
  }

  /** There is one truncation only. */
  lemma TruncUnique(r: real, i: int, j: int)
    requires IsTrunc(r, i) && IsTrunc(r, j)
    ensures i == j
  {
  }

  /** `static_cast<int>(r)` of a float: truncation toward zero (values outside int range are not modelled). */
  ghost function Trunc(r: real): (i: int)
    ensures IsTrunc(r, i)
    ensures -1.0 < r < 1.0 ==> i == 0
  {
    TruncExists(r);
    var i :| IsTrunc(r, i); i
  }

  /** The cast as the program computes it. */
  method TruncOf(r: real) returns (i: int)
    ensures i == Trunc(r)
  {
    i := if r >= 0.0 then r.Floor else -((-r).Floor);
    TruncExists(r);
    TruncUnique(r, i, Trunc(r));
  }

  /** Concatenation regroups freely; stated once so that proofs can cite it instead of searching for it. */
  lemma AppendAssoc<T>(x: seq<T>, y: seq<T>, z: seq<T>)
    ensures x + y + z == x + (y + z)
  {
  }

  // ----- int32 as four little-endian bytes (`file.write(&v, sizeof(int))`) -----

  /** The bit pattern of an int32 read as an unsigned number. */
  function Unsigned32(v: int32): (u: int)
    ensures 0 <= u < TWO_32
    ensures v >= 0 ==> u == v as int
    ensures v < 0 ==> u == v as int + TWO_32
  {
    if v < 0 then v as int + TWO_32 else v as int
  }

  /** 256 to the power `n`. */
  function Pow256(n: nat): (p: nat)
    ensures p >= 1
  {
    if n == 0 then 1 else 256 * Pow256(n - 1)
  }

  /** The lowest `n` bytes of `u`, least significant first. */
  function LittleEndian(u: nat, n: nat): (bs: seq<byte>)
    ensures |bs| == n
  {
    if n == 0 then [] else [u % 256] + LittleEndian(u / 256, n - 1)
  }

  /** The number whose little-endian bytes are `bs`. */
  function LittleEndianValue(bs: seq<byte>): (u: nat)
    ensures u < Pow256(|bs|)
  {
    if bs == [] then 0 else bs[0] as int + 256 * LittleEndianValue(bs[1..])
  }

  /** Bytes taken from a number below 256^n give the number back. */
  lemma {:induction false} LittleEndianValueOf(u: nat, n: nat)
    requires u < Pow256(n)
    ensures LittleEndianValue(LittleEndian(u, n)) == u
  {
    if n > 0 {
      LittleEndianValueOf(u / 256, n - 1);
      assert LittleEndian(u, n)[1..] == LittleEndian(u / 256, n - 1);
    }
  }

  /** Bytes read as a number and taken apart again are the same bytes. */
  lemma {:induction false} LittleEndianOfValue(bs: seq<byte>)
    ensures LittleEndian(LittleEndianValue(bs), |bs|) == bs
  {
    if bs != [] {
      var u := LittleEndianValue(bs);
      var rest := LittleEndianValue(bs[1..]);
      assert u % 256 == bs[0] as int && u / 256 == rest;
      LittleEndianOfValue(bs[1..]);
      assert bs == [bs[0]] + bs[1..];
    }
  }

  /** `file.write(&v, sizeof(int))` of a 32-bit int on a little-endian machine. */
  function EncodeInt32(v: int32): (bs: seq<byte>)
    ensures |bs| == 4
  {
    LittleEndian(Unsigned32(v), 4)
  }

  /** `file.read(&v, sizeof(int))`: four bytes read back as a 32-bit two's-complement int. */
  function DecodeInt32(bs: seq<byte>): int32
    requires |bs| == 4
  {
    var u := LittleEndianValue(bs);
    if u <= INT32_MAX then u as int32 else (u - TWO_32) as int32
  }

  /** Reading back an int that was written gives the same int. */
  lemma DecodeEncodeInt32(v: int32)
    ensures DecodeInt32(EncodeInt32(v)) == v
  {
    assert Pow256(4) == TWO_32;
    LittleEndianValueOf(Unsigned32(v), 4);
  }

  /** Every four bytes are the image of exactly one int: writing back what was read reproduces them. */
  lemma EncodeDecodeInt32(bs: seq<byte>)
    requires |bs| == 4
    ensures EncodeInt32(DecodeInt32(bs)) == bs
  {
    assert Pow256(4) == TWO_32;
    assert Unsigned32(DecodeInt32(bs)) == LittleEndianValue(bs);
    LittleEndianOfValue(bs);
  }

  // ----- std::to_string(int) -----

  function DigitChar(d: int): (c: char)
    requires 0 <= d < 10
    ensures '0' <= c <= '9'
  {
    ('0' as int + d) as char
  }

  /** Decimal digits of a natural number, most significant first, no leading zeros. */
  function NatToDigits(n: nat): (s: string)
    ensures |s| >= 1
    ensures forall i :: 0 <= i < |s| ==> '0' <= s[i] <= '9'
    ensures n >= 10 ==> s[0] != '0'
    decreases n
  {
    if n < 10 then [DigitChar(n)] else NatToDigits(n / 10) + [DigitChar(n % 10)]
  }

  /** `std::to_string(n)`: an optional minus sign followed by the digits of |n|. */
  function ToDecimal(n: int): (s: string)
    ensures |s| >= 1
    ensures (s[0] == '-') <==> n < 0
    ensures forall i :: 0 < i < |s| ==> '0' <= s[i] <= '9'
  {
    if n < 0 then "-" + NatToDigits(-n) else NatToDigits(n)
  }

  /** Value of a string of decimal digits. */
  function DigitsValue(s: string): (v: nat)
    requires forall i :: 0 <= i < |s| ==> '0' <= s[i] <= '9'
  {
    if s == [] then 0 else 10 * DigitsValue(s[..|s| - 1]) + (s[|s| - 1] as int - '0' as int)
  }

  /** Reading the digits written by NatToDigits gives the number back. */
  lemma {:induction false} DigitsValueOfNat(n: nat)
    ensures DigitsValue(NatToDigits(n)) == n
    decreases n
  {
    if n >= 10 {
      DigitsValueOfNat(n / 10);
      var s := NatToDigits(n);
      assert s[..|s| - 1] == NatToDigits(n / 10);
    }
  }

  /** Different map numbers produce different decimal strings. */
  lemma ToDecimalInjective(m: int, n: int)
    requires ToDecimal(m) == ToDecimal(n)
    ensures m == n
  {
    var a: nat, b: nat := if m < 0 then -m else m, if n < 0 then -n else n;
    if m < 0 {
      assert n < 0;
      var da, db := NatToDigits(a), NatToDigits(b);
      assert ("-" + da)[1..] == da;
      assert ("-" + db)[1..] == db;
    } else {
      assert n >= 0;
    }
    DigitsValueOfNat(a);
    DigitsValueOfNat(b);
    assert DigitsValue(NatToDigits(a)) == DigitsValue(NatToDigits(b));
  }
}
