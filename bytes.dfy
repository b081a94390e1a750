/** Bytes, 32-bit signed integers and the little-endian layout BitConverter uses for them. */
module Bytes {

  newtype byte = x: int | 0 <= x < 0x100

  /** The C# `int`. */
  newtype int32 = x: int | -0x8000_0000 <= x < 0x8000_0000

  function Pow2(n: nat): (p: nat)
    ensures p >= 1
  {
    if n == 0 then 1 else 2 * Pow2(n - 1)
  }

  /** Bitwise exclusive or of two naturals, built from the least significant bit up. */
  function XorNat(a: nat, b: nat): nat
    decreases a + b
  {
    if a == 0 then b
    else if b == 0 then a
    else 2 * XorNat(a / 2, b / 2) + (if a % 2 == b % 2 then 0 else 1)
  }

  /** The exclusive or of two numbers below 2^n is below 2^n. */
  lemma {:induction false} XorNatBound(a: nat, b: nat, n: nat)
    requires a < Pow2(n) && b < Pow2(n)
    ensures XorNat(a, b) < Pow2(n)
    decreases a + b
  {
    if a != 0 && b != 0 {
      assert n > 0;
      XorNatBound(a / 2, b / 2, n - 1);
    }
  }

  /** Exclusive or with the same value twice is the identity. */
  lemma {:induction false} XorNatCancel(a: nat, b: nat)
    ensures XorNat(XorNat(a, b), b) == a
    decreases a + b
  {
    var r := XorNat(a, b);
    if a != 0 && b != 0 {
      var rest := XorNat(a / 2, b / 2);
      assert r / 2 == rest && r % 2 == (if a % 2 == b % 2 then 0 else 1);
      XorNatCancel(a / 2, b / 2);
      if r == 0 {
        assert rest == 0 && XorNat(rest, b / 2) == b / 2;
      }
    } else if a == 0 {
      XorNatSelf(b);
    }
  }

  lemma {:induction false} XorNatSelf(b: nat)
    ensures XorNat(b, b) == 0
    decreases b
  {
    if b != 0 {
      XorNatSelf(b / 2);
    }
  }

  /** Bit k of x, counting from the least significant bit. */
  function Bit(x: nat, k: nat): bool
    decreases k
  {
    if k == 0 then x % 2 == 1 else Bit(x / 2, k - 1)
  }

  lemma {:induction false} BitOfZero(k: nat)
    ensures !Bit(0, k)
    decreases k
  {
    if k > 0 {
      BitOfZero(k - 1);
    }
  }

  /** Every bit of the exclusive or is set exactly when the two bits at that place differ. */
  lemma {:induction false} XorNatBits(a: nat, b: nat, k: nat)
    ensures Bit(XorNat(a, b), k) == (Bit(a, k) != Bit(b, k))
    decreases a + b
  {
    if a == 0 {
      BitOfZero(k);
    } else if b == 0 {
      BitOfZero(k);
    } else {
      var rest := XorNat(a / 2, b / 2);
      var low := if a % 2 == b % 2 then 0 else 1;
      assert XorNat(a, b) == 2 * rest + low;
      assert (2 * rest + low) / 2 == rest && (2 * rest + low) % 2 == low;
      if k > 0 {
        XorNatBits(a / 2, b / 2, k - 1);
      }
    }
  }

  /** The C# `^` on two bytes. */
  function XorByte(a: byte, b: byte): (r: byte)
  {
    assert Pow2(8) == 0x100;
    XorNatBound(a as int, b as int, 8);
    XorNat(a as int, b as int) as byte
  }

  /** The byte exclusive or is bitwise. */
  lemma XorByteBits(a: byte, b: byte, k: nat)
    ensures Bit(XorByte(a, b) as nat, k) == (Bit(a as nat, k) != Bit(b as nat, k))
  {
    XorNatBits(a as nat, b as nat, k);
  }

  lemma XorByteCancel(a: byte, b: byte)
    ensures XorByte(XorByte(a, b), b) == a
  {
    XorNatCancel(a as int, b as int);
  }

  /** The two's-complement bit pattern of `x`, read as an unsigned number. */
  function Unsigned(x: int32): (u: int)
    ensures 0 <= u < 0x1_0000_0000
    ensures x >= 0 ==> u == x as int
    ensures x < 0 ==> u == x as int + 0x1_0000_0000
  {
    if x < 0 then x as int + 0x1_0000_0000 else x as int
  }

  /** The signed reading of a 32-bit pattern. */
  function Signed(u: int): (x: int32)
    requires 0 <= u < 0x1_0000_0000
    ensures Unsigned(x) == u
  {
    if u >= 0x8000_0000 then (u - 0x1_0000_0000) as int32 else u as int32
  }

  /** The four base-256 digits of `u`, least significant first. */
  function Digits(u: int): (d: seq<int>)
    requires 0 <= u < 0x1_0000_0000
    ensures |d| == 4 && forall i :: 0 <= i < 4 ==> 0 <= d[i] < 0x100
  {
    [u % 0x100, u / 0x100 % 0x100, u / 0x100 / 0x100 % 0x100, u / 0x100 / 0x100 / 0x100]
  }

  /** The number whose base-256 digits, least significant first, are `d`. */
  function Value(d: seq<int>): int
    requires |d| == 4
  {
    d[0] + 0x100 * (d[1] + 0x100 * (d[2] + 0x100 * d[3]))
  }

  lemma ValueOfDigits(u: int)
    requires 0 <= u < 0x1_0000_0000
    ensures Value(Digits(u)) == u
  {
    var q1 := u / 0x100;
    var q2 := q1 / 0x100;
    assert u == u % 0x100 + 0x100 * q1;
    assert q1 == q1 % 0x100 + 0x100 * q2;
    assert q2 == q2 % 0x100 + 0x100 * (q2 / 0x100);
  }

  lemma SplitLowDigit(lo: int, hi: int)
    requires 0 <= lo < 0x100
    ensures (lo + 0x100 * hi) % 0x100 == lo && (lo + 0x100 * hi) / 0x100 == hi
  {
  }

  lemma DigitsOfValue(d: seq<int>)
    requires |d| == 4 && forall i :: 0 <= i < 4 ==> 0 <= d[i] < 0x100
    ensures 0 <= Value(d) < 0x1_0000_0000 && Digits(Value(d)) == d
  {
    var u := Value(d);
    SplitLowDigit(d[0], d[1] + 0x100 * (d[2] + 0x100 * d[3]));
    SplitLowDigit(d[1], d[2] + 0x100 * d[3]);
    SplitLowDigit(d[2], d[3]);
  }

  function DigitBytes(d: seq<int>): (b: seq<byte>)
    requires |d| == 4 && forall i :: 0 <= i < 4 ==> 0 <= d[i] < 0x100
    ensures |b| == 4
  {
    [d[0] as byte, d[1] as byte, d[2] as byte, d[3] as byte]
  }

  function ByteDigits(b: seq<byte>): (d: seq<int>)
    requires |b| >= 4
    ensures |d| == 4 && forall i :: 0 <= i < 4 ==> 0 <= d[i] < 0x100
  {
    [b[0] as int, b[1] as int, b[2] as int, b[3] as int]
  }

  lemma ByteDigitsOfDigitBytes(d: seq<int>)
    requires |d| == 4 && forall i :: 0 <= i < 4 ==> 0 <= d[i] < 0x100
    ensures ByteDigits(DigitBytes(d)) == d
  {
  }

  lemma DigitBytesOfByteDigits(b: seq<byte>)
    requires |b| == 4
    ensures DigitBytes(ByteDigits(b)) == b
  {
  }

  /** BitConverter.GetBytes(int) on a little-endian host: four bytes, least significant first. */
  function Le32(x: int32): (r: seq<byte>)
    ensures |r| == 4
    ensures (r[0] as int) + 0x100 * (r[1] as int) + 0x1_0000 * (r[2] as int) + 0x100_0000 * (r[3] as int) == Unsigned(x)
  {
    ValueOfDigits(Unsigned(x));
    DigitBytes(Digits(Unsigned(x)))
  }

  /**
   * BitConverter.ToInt32(byte[]) on a little-endian host: the first four bytes, least
   * significant first, read as a two's-complement number. The caller must supply four bytes.
   */
  function ToInt32(b: seq<byte>): (x: int32)
    requires |b| >= 4
    ensures Unsigned(x) == (b[0] as int) + 0x100 * (b[1] as int) + 0x1_0000 * (b[2] as int) + 0x100_0000 * (b[3] as int)
  {
    DigitsOfValue(ByteDigits(b));
    Signed(Value(ByteDigits(b)))
  }

  /** Every 32-bit value, negative ones included, survives being written and read back. */
  lemma ToInt32OfLe32(x: int32)
    ensures ToInt32(Le32(x)) == x
  {
    ByteDigitsOfDigitBytes(Digits(Unsigned(x)));
    ValueOfDigits(Unsigned(x));
  }

  /** Every 4-byte pattern is the encoding of the value read from it. */
  lemma Le32OfToInt32(b: seq<byte>)
    requires |b| == 4
    ensures Le32(ToInt32(b)) == b
  {
    DigitsOfValue(ByteDigits(b));
    DigitBytesOfByteDigits(b);
  }
}
