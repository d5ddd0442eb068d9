/**
 * Java's primitive integer types and the operators the little-endian decoder
 * applies to them (section 15.22.1 of the Java Language Specification for
 * `&` and `|`, section 15.19 for `<<`). The decoder never narrows; it only
 * widens `byte` to `int` or `long`, which keeps the value. The `(byte)` cast
 * (section 5.1.3) is here for the encoder that states the round trips.
 * A Java integer of width `k` is a two's-complement bit pattern: here that
 * pattern is a natural number below 2^k, the bitwise operators are defined on
 * patterns one bit at a time, and the result is read back as a signed value.
 */
module JavaInts {

  /** Java `byte`: signed 8-bit. */
  type Byte = x: int | -0x80 <= x < 0x80
  /** Java `int`: signed 32-bit. */
  type Int = x: int | -0x8000_0000 <= x < 0x8000_0000
  /** Java `long`: signed 64-bit. */
  type Long = x: int | -0x8000_0000_0000_0000 <= x < 0x8000_0000_0000_0000

  function Pow2(n: nat): (r: nat)
    ensures 0 < r
  {
    if n == 0 then 1 else 2 * Pow2(n - 1)
  }

  /** The powers of two that the shift distances and the width of `int` need. */
  lemma Pow2Int()
    ensures Pow2(8) == 0x100 && Pow2(16) == 0x1_0000 && Pow2(24) == 0x100_0000
    ensures Pow2(32) == 0x1_0000_0000
  {
    assert Pow2(8) == 0x100;
    assert Pow2(16) == 0x1_0000;
    assert Pow2(24) == 0x100_0000;
  }

  /** The power of two that the width of `long` needs. */
  lemma Pow2Long()
    ensures Pow2(64) == 0x1_0000_0000_0000_0000
  {
    Pow2Int();
    assert Pow2(40) == 0x100_0000_0000;
    assert Pow2(48) == 0x1_0000_0000_0000;
    assert Pow2(56) == 0x100_0000_0000_0000;
  }

  lemma {:induction false} MulAtLeast(a: int, d: int)
    requires 1 <= a && 0 < d
    ensures d <= a * d
    decreases a
  {
    if a > 1 {
      MulAtLeast(a - 1, d);
      assert a * d == (a - 1) * d + d;
    }
  }

  /** `x % d` is the one remainder `r` in `[0, d)` with `x == q * d + r`. */
  lemma ModUnique(x: int, d: int, q: int, r: int)
    requires 0 <= r < d && x == q * d + r
    ensures x % d == r && x / d == q
  {
    var q', r' := x / d, x % d;
    assert (q - q') * d == r' - r;
    if q > q' {
      MulAtLeast(q - q', d);
      assert false;
    } else if q < q' {
      MulAtLeast(q' - q, d);
      assert false;
    }
  }

  /** Splitting off the lowest bit: `a mod 2p` is twice `(a / 2) mod p` plus that bit. */
  lemma ModDouble(a: nat, p: nat)
    requires 0 < p
    ensures a % (2 * p) == 2 * ((a / 2) % p) + a % 2
  {
    var q, r := (a / 2) / p, (a / 2) % p;
    assert a / 2 == q * p + r;
    assert a == (q * p) * 2 + 2 * r + a % 2;
    assert (q * p) * 2 == q * (2 * p);
    ModUnique(a, 2 * p, q, 2 * r + a % 2);
  }

  // Bit patterns and the bitwise operators on them.

  /** The low `j` bits of `a`, collected one at a time from the least significant. */
  function LowBits(j: nat, a: nat): (r: nat)
    ensures r < Pow2(j)
  {
    if j == 0 then 0 else 2 * LowBits(j - 1, a / 2) + a % 2
  }

  /** AND of the low `k` bits of `a` and `b`, one bit at a time from the least significant. */
  function BitAnd(k: nat, a: nat, b: nat): (r: nat)
    ensures r < Pow2(k)
  {
    if k == 0 then 0
    else 2 * BitAnd(k - 1, a / 2, b / 2) + (if a % 2 == 1 && b % 2 == 1 then 1 else 0)
  }

  /** OR of the low `k` bits of `a` and `b`, one bit at a time from the least significant. */
  function BitOr(k: nat, a: nat, b: nat): (r: nat)
    ensures r < Pow2(k)
  {
    if k == 0 then 0
    else 2 * BitOr(k - 1, a / 2, b / 2) + (if a % 2 == 1 || b % 2 == 1 then 1 else 0)
  }

  /** The low `j` bits of `a` are its remainder modulo 2^j. */
  lemma {:induction false} LowBitsMod(j: nat, a: nat)
    ensures LowBits(j, a) == a % Pow2(j)
  {
    if j > 0 {
      LowBitsMod(j - 1, a / 2);
      ModDouble(a, Pow2(j - 1));
    }
  }

  lemma {:induction false} AndZero(k: nat, a: nat)
    ensures BitAnd(k, a, 0) == 0
  {
    if k > 0 {
      AndZero(k - 1, a / 2);
    }
  }

  /** AND with a mask of `j` one bits keeps exactly the low `j` bits. */
  lemma {:induction false} AndLowMask(k: nat, j: nat, a: nat)
    requires j <= k
    ensures BitAnd(k, a, Pow2(j) - 1) == LowBits(j, a)
  {
    if j == 0 {
      AndZero(k, a);
    } else {
      var mask := Pow2(j) - 1;
      assert mask / 2 == Pow2(j - 1) - 1 && mask % 2 == 1;
      AndLowMask(k - 1, j - 1, a / 2);
    }
  }

  /** OR with zero keeps the low `k` bits. */
  lemma {:induction false} OrZero(k: nat, a: nat)
    ensures BitOr(k, a, 0) == LowBits(k, a)
  {
    if k > 0 {
      OrZero(k - 1, a / 2);
    }
  }

  /**
   * When `hi` has no bits below bit `j` and `b` lies below bit `j`, the two bit
   * ranges do not overlap, and OR adds: the low `k` bits of `hi | b` are those of `hi + b`.
   */
  lemma {:induction false} OrDisjoint(k: nat, j: nat, hi: nat, b: nat)
    requires j <= k && LowBits(j, hi) == 0 && b < Pow2(j)
    ensures BitOr(k, hi, b) == LowBits(k, hi + b)
  {
    if j == 0 {
      OrZero(k, hi);
    } else {
      assert hi % 2 == 0 && LowBits(j - 1, hi / 2) == 0;
      assert (hi + b) / 2 == hi / 2 + b / 2 && (hi + b) % 2 == b % 2;
      OrDisjoint(k - 1, j - 1, hi / 2, b / 2);
    }
  }

  // Two's complement: the bit pattern of a value, and the value of a pattern.

  /** The 32-bit pattern of an `int`. */
  function IntBits(x: Int): (u: nat)
    ensures u < 0x1_0000_0000
  {
    x % 0x1_0000_0000
  }

  /** The `int` a 32-bit pattern stands for. */
  function IntValue(u: nat): (x: Int)
    requires u < 0x1_0000_0000
    ensures IntBits(x) == u
  {
    if u < 0x8000_0000 then u else u - 0x1_0000_0000
  }

  /** The 64-bit pattern of a `long`. */
  function LongBits(x: Long): (u: nat)
    ensures u < 0x1_0000_0000_0000_0000
  {
    x % 0x1_0000_0000_0000_0000
  }

  /** The `long` a 64-bit pattern stands for. */
  function LongValue(u: nat): (x: Long)
    requires u < 0x1_0000_0000_0000_0000
    ensures LongBits(x) == u
  {
    if u < 0x8000_0000_0000_0000 then u else u - 0x1_0000_0000_0000_0000
  }

  // The Java operators.

  /** Java `a & b` on `int` operands. */
  function IntAnd(a: Int, b: Int): Int {
    Pow2Int();
    IntValue(BitAnd(32, IntBits(a), IntBits(b)))
  }

  /** Java `a | b` on `int` operands. */
  function IntOr(a: Int, b: Int): Int {
    Pow2Int();
    IntValue(BitOr(32, IntBits(a), IntBits(b)))
  }

  /** Java `a << n` on an `int`: only the low five bits of the distance count. */
  function IntShl(a: Int, n: Int): Int {
    IntValue((IntBits(a) * Pow2(n % 32)) % 0x1_0000_0000)
  }

  /** Java `a | b` on `long` operands. */
  function LongOr(a: Long, b: Long): Long {
    Pow2Long();
    LongValue(BitOr(64, LongBits(a), LongBits(b)))
  }

  /** Java `a << n` on a `long`: only the low six bits of the distance count. */
  function LongShl(a: Long, n: Int): Long {
    LongValue((LongBits(a) * Pow2(n % 64)) % 0x1_0000_0000_0000_0000)
  }

  /** Java's narrowing cast `(byte) x`: the low eight bits, read as a signed byte. */
  function ToByte(x: Int): Byte {
    var u := x % 0x100;
    if u < 0x80 then u else u - 0x100
  }

  // What those operators compute on the decoder's operands, in arithmetic terms.

  /** `x & 0xff` on an `int` is the low byte of `x`: never negative, whatever the sign of `x`. */
  lemma IntAndLowByte(x: Int)
    ensures IntAnd(x, 0xff) == x % 0x100
  {
    Pow2Int();
    var u := IntBits(x);
    AndLowMask(32, 8, u);
    LowBitsMod(8, u);
    assert IntAnd(x, 0xff) == u % 0x100;
    var q := x / 0x1_0000_0000;
    assert x == q * 0x1_0000_0000 + u;
    ModUnique(x, 0x100, q * 0x100_0000 + u / 0x100, u % 0x100);
  }

  /** `v << 8` on an `int` holding a byte value is `v * 256`: nothing reaches the sign bit. */
  lemma IntShlByte(v: Int)
    requires 0 <= v < 0x100
    ensures IntShl(v, 8) == v * 0x100
  {
    Pow2Int();
    ModUnique(v, 0x1_0000_0000, 0, v);
    ModUnique(v * 0x100, 0x1_0000_0000, 0, v * 0x100);
  }

  /**
   * `v << 8`, `v << 16` and `v << 24` on a `long` holding a byte value multiply
   * it by 2^8, 2^16 and 2^24: nothing reaches the sign bit.
   */
  lemma LongShlByte(v: Long)
    requires 0 <= v < 0x100
    ensures LongShl(v, 8) == v * 0x100
    ensures LongShl(v, 16) == v * 0x1_0000
    ensures LongShl(v, 24) == v * 0x100_0000
  {
    Pow2Int();
    var m := 0x1_0000_0000_0000_0000;
    ModUnique(v, m, 0, v);
    ModUnique(v * 0x100, m, 0, v * 0x100);
    ModUnique(v * 0x1_0000, m, 0, v * 0x1_0000);
    ModUnique(v * 0x100_0000, m, 0, v * 0x100_0000);
  }

  /** `int` OR of a multiple of 256 and a value below 256 is their sum. */
  lemma IntOrAboveByte(hi: Int, b: Int)
    requires 0 <= hi && hi % 0x100 == 0 && 0 <= b < 0x100 && hi + b < 0x8000_0000
    ensures IntOr(hi, b) == hi + b
  {
    Pow2Int();
    ModUnique(hi, 0x1_0000_0000, 0, hi);
    ModUnique(b, 0x1_0000_0000, 0, b);
    LowBitsMod(8, hi);
    OrDisjoint(32, 8, hi, b);
    LowBitsMod(32, hi + b);
    ModUnique(hi + b, 0x1_0000_0000, 0, hi + b);
  }

  /** `long` OR of a multiple `hi` of 2^j and a value below 2^j is their sum. */
  lemma LongOrDisjoint(hi: nat, q: nat, j: nat, b: nat)
    requires j <= 64 && hi == q * Pow2(j) && b < Pow2(j) && hi + b < 0x8000_0000_0000_0000
    ensures LongOr(hi, b) == hi + b
  {
    Pow2Long();
    var m := 0x1_0000_0000_0000_0000;
    ModUnique(hi, Pow2(j), q, 0);
    ModUnique(hi, m, 0, hi);
    ModUnique(b, m, 0, b);
    LowBitsMod(j, hi);
    OrDisjoint(64, j, hi, b);
    LowBitsMod(64, hi + b);
    ModUnique(hi + b, m, 0, hi + b);
  }
}
