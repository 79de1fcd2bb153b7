/** Java's `long`, `int` and `byte` values as the two's-complement bit
    patterns they hold, and the operators the Bitfield code applies to them.

    A pattern of width `n` is the natural number below 2^n whose binary digits
    are its bits; bit 0 is the least significant one. The bitwise operators
    combine two patterns digit by digit, `~` subtracts from the all-ones
    pattern, `<<` multiplies by a power of two and drops what overflows, and
    the widening casts sign-extend. The lemmas say what each operator does to
    every single bit. */
module Words {

  /** 2^64: the number of distinct `long` values. */
  const LongModulus: int := 0x1_0000_0000_0000_0000

  /** 2^32: the number of distinct `int` values. */
  const IntModulus: int := 0x1_0000_0000

  /** A Java `long`, as its unsigned 64-bit pattern. */
  type Long = x: int | 0 <= x < 0x1_0000_0000_0000_0000

  /** A Java `int`, as its unsigned 32-bit pattern. */
  type Int32 = x: int | 0 <= x < 0x1_0000_0000

  /** A Java `byte`, as its unsigned 8-bit pattern. */
  type Byte = x: int | 0 <= x < 0x100

  function Pow2(n: nat): (r: nat)
    ensures r >= 1
  {
    if n == 0 then 1 else 2 * Pow2(n - 1)
  }

  lemma {:induction false} Pow2Add(m: nat, n: nat)
    ensures Pow2(m + n) == Pow2(m) * Pow2(n)
    decreases n
  {
    if n != 0 {
      Pow2Add(m, n - 1);
    }
  }

  lemma Pow2Byte()
    ensures Pow2(7) == 0x80 && Pow2(8) == 0x100
  {
  }

  lemma Pow2Int()
    ensures Pow2(24) == 0x100_0000
    ensures Pow2(31) == 0x8000_0000
    ensures Pow2(32) == IntModulus
  {
    Pow2Byte();
    Pow2Add(8, 8);
    Pow2Add(16, 8);
    Pow2Add(16, 16);
  }

  lemma Pow2Long()
    ensures Pow2(64) == LongModulus
  {
    Pow2Int();
    Pow2Add(32, 32);
  }

  /** Bit `k` of the pattern `x`. */
  predicate Bit(x: int, k: nat)
    decreases k
  {
    if k == 0 then x % 2 == 1 else Bit(x / 2, k - 1)
  }

  lemma {:induction false} BitZero(k: nat)
    ensures !Bit(0, k)
  {
    if k != 0 {
      BitZero(k - 1);
    }
  }

  lemma BitOne(k: nat)
    ensures Bit(1, k) == (k == 0)
  {
    if k != 0 {
      BitZero(k - 1);
    }
  }

  /** A pattern below 2^n has no bit at or above `n`. */
  lemma {:induction false} BitAboveWidth(x: nat, n: nat, k: nat)
    requires x < Pow2(n) && n <= k
    ensures !Bit(x, k)
    decreases n
  {
    if n == 0 {
      BitZero(k);
    } else {
      BitAboveWidth(x / 2, n - 1, k - 1);
    }
  }

  /** The pattern `a + b * 2^n`, for `a` below 2^n, is `a` in its low `n`
      bits and `b` above them. */
  lemma {:induction false} BitConcat(a: nat, b: int, n: nat, k: nat)
    requires a < Pow2(n)
    ensures Bit(a + b * Pow2(n), k) == if k < n then Bit(a, k) else Bit(b, k - n)
    decreases n
  {
    if n != 0 {
      var half := Pow2(n - 1);
      assert b * Pow2(n) == 2 * (b * half);
      assert (a + b * Pow2(n)) / 2 == a / 2 + b * half;
      assert (a + b * Pow2(n)) % 2 == a % 2;
      if k != 0 {
        BitConcat(a / 2, b, n - 1, k - 1);
      }
    }
  }

  /** 2^k has bit `k` set and no other. */
  lemma BitPow2(k: nat, j: nat)
    ensures Bit(Pow2(k), j) == (j == k)
  {
    BitConcat(0, 1, k, j);
    if j < k {
      BitZero(j);
    } else {
      BitOne(j - k);
    }
  }

  /** 2^n - 1 - x complements the low `n` bits of `x`. */
  lemma {:induction false} BitComplement(x: nat, n: nat, k: nat)
    requires x < Pow2(n) && k < n
    ensures Bit(Pow2(n) - 1 - x, k) == !Bit(x, k)
    decreases n
  {
    var half := Pow2(n - 1);
    assert (Pow2(n) - 1 - x) / 2 == half - 1 - x / 2;
    if k != 0 {
      BitComplement(x / 2, n - 1, k - 1);
    }
  }

  /** 2^n - 1 has exactly the bits below `n` set. */
  lemma BitLowOnes(n: nat, k: nat)
    ensures Bit(Pow2(n) - 1, k) == (k < n)
  {
    if k < n {
      BitComplement(0, n, k);
      BitZero(k);
    } else {
      BitAboveWidth(Pow2(n) - 1, n, k);
    }
  }

  /** A nonzero pattern below 2^n has a set bit below `n`. */
  lemma {:induction false} NonzeroHasBit(x: nat, n: nat)
    requires 0 < x < Pow2(n)
    ensures exists k :: 0 <= k < n && Bit(x, k)
    decreases n
  {
    if x % 2 == 1 {
      assert Bit(x, 0);
    } else {
      NonzeroHasBit(x / 2, n - 1);
      var k :| 0 <= k < n - 1 && Bit(x / 2, k);
      assert Bit(x, k + 1);
    }
  }

  /** Two patterns below 2^n with the same low `n` bits are equal. */
  lemma {:induction false} PatternExtensionality(x: nat, y: nat, n: nat)
    requires x < Pow2(n) && y < Pow2(n)
    requires forall k :: 0 <= k < n ==> Bit(x, k) == Bit(y, k)
    ensures x == y
    decreases n
  {
    if n != 0 {
      assert Bit(x, 0) == Bit(y, 0);
      forall k | 0 <= k < n - 1
        ensures Bit(x / 2, k) == Bit(y / 2, k)
      {
        assert Bit(x, k + 1) == Bit(y, k + 1);
      }
      PatternExtensionality(x / 2, y / 2, n - 1);
    }
  }

  // ---- the bitwise operators ----

  datatype BitOp = AndOp | OrOp | XorOp

  /** What the operator does to one pair of bits. */
  predicate Apply(op: BitOp, a: bool, b: bool)
  {
    match op
    case AndOp => a && b
    case OrOp => a || b
    case XorOp => a != b
  }

  /** The operator applied digit by digit to the low `n` bits of `x` and `y`. */
  function Bitwise(op: BitOp, x: nat, y: nat, n: nat): (r: nat)
    ensures r < Pow2(n)
  {
    if n == 0 then 0
    else 2 * Bitwise(op, x / 2, y / 2, n - 1) + (if Apply(op, x % 2 == 1, y % 2 == 1) then 1 else 0)
  }

  lemma {:induction false} BitBitwise(op: BitOp, x: nat, y: nat, n: nat, k: nat)
    ensures Bit(Bitwise(op, x, y, n), k) == (k < n && Apply(op, Bit(x, k), Bit(y, k)))
    decreases n
  {
    if n == 0 {
      BitZero(k);
    } else if k != 0 {
      BitBitwise(op, x / 2, y / 2, n - 1, k - 1);
    }
  }

  /** Java `x & y` on `long`s. */
  function LongAnd(x: Long, y: Long): Long
  {
    Pow2Long();
    Bitwise(AndOp, x, y, 64)
  }

  /** Java `x | y` on `long`s. */
  function LongOr(x: Long, y: Long): Long
  {
    Pow2Long();
    Bitwise(OrOp, x, y, 64)
  }

  /** Java `x ^ y` on `long`s. */
  function LongXor(x: Long, y: Long): Long
  {
    Pow2Long();
    Bitwise(XorOp, x, y, 64)
  }

  /** Java `~x` on a `long`. */
  function LongNot(x: Long): Long
  {
    0xFFFF_FFFF_FFFF_FFFF - x
  }

  lemma BitAnd(x: Long, y: Long, k: nat)
    requires k < 64
    ensures Bit(LongAnd(x, y), k) == (Bit(x, k) && Bit(y, k))
  {
    BitBitwise(AndOp, x, y, 64, k);
  }

  lemma BitOr(x: Long, y: Long, k: nat)
    requires k < 64
    ensures Bit(LongOr(x, y), k) == (Bit(x, k) || Bit(y, k))
  {
    BitBitwise(OrOp, x, y, 64, k);
  }

  lemma BitXor(x: Long, y: Long, k: nat)
    requires k < 64
    ensures Bit(LongXor(x, y), k) == (Bit(x, k) != Bit(y, k))
  {
    BitBitwise(XorOp, x, y, 64, k);
  }

  lemma BitNot(x: Long, k: nat)
    requires k < 64
    ensures Bit(LongNot(x), k) == !Bit(x, k)
  {
    Pow2Long();
    BitComplement(x, 64, k);
  }

  /** A `long` is zero exactly when none of its 64 bits is set. */
  lemma LongZeroIffNoBit(x: Long)
    ensures x == 0 <==> forall k :: 0 <= k < 64 ==> !Bit(x, k)
  {
    Pow2Long();
    if x != 0 {
      NonzeroHasBit(x, 64);
    } else {
      forall k | 0 <= k < 64
        ensures !Bit(x, k)
      {
        BitZero(k);
      }
    }
  }

  /** Two `long`s with the same 64 bits are the same `long`. */
  lemma LongExtensionality(x: Long, y: Long)
    requires forall k :: 0 <= k < 64 ==> Bit(x, k) == Bit(y, k)
    ensures x == y
  {
    Pow2Long();
    PatternExtensionality(x, y, 64);
  }

  // ---- shifts ----

  /** A pattern split as `r + q * 2^n`, with `r` below 2^n, has the bits of
      `r` below `n` and those of `q` above. */
  lemma BitOfSplit(z: nat, q: int, r: nat, n: nat, j: nat)
    requires r < Pow2(n) && z == r + q * Pow2(n)
    ensures Bit(z, j) == if j < n then Bit(r, j) else Bit(q, j - n)
  {
    BitConcat(r, q, n, j);
  }

  /** Reducing modulo 2^n keeps the bits below `n`. */
  lemma BitMod(z: nat, n: nat, j: nat)
    requires j < n
    ensures Bit(z % Pow2(n), j) == Bit(z, j)
  {
    var m := Pow2(n);
    var q, r := z / m, z % m;
    assert z == r + q * m;
    BitOfSplit(z, q, r, n, j);
  }

  /** Multiplying by 2^k moves every bit up by `k`. */
  lemma BitMulPow2(x: nat, k: nat, j: nat)
    ensures Bit(x * Pow2(k), j) == (k <= j && Bit(x, j - k))
  {
    BitConcat(0, x, k, j);
    if j < k {
      BitZero(j);
    }
  }

  /** The bits of `x * 2^k`, reduced modulo 2^n: those of `x` moved up by
      `k`, the ones pushed past bit `n - 1` dropped. */
  lemma BitShiftedPattern(x: nat, k: nat, n: nat, j: nat)
    requires j < n
    ensures Bit((x * Pow2(k)) % Pow2(n), j) == (k <= j && Bit(x, j - k))
  {
    BitMod(x * Pow2(k), n, j);
    BitMulPow2(x, k, j);
  }

  /** Java `x << k` on a `long`, for a distance below 64 (the only ones the
      Bitfield code uses). */
  function ShiftLeft(x: Long, k: nat): Long
    requires k < 64
  {
    (x * Pow2(k)) % LongModulus
  }

  lemma BitShiftLeft(x: Long, k: nat, j: nat)
    requires k < 64 && j < 64
    ensures Bit(ShiftLeft(x, k), j) == (k <= j && Bit(x, j - k))
  {
    Pow2Long();
    BitShiftedPattern(x, k, 64, j);
  }

  /** Java `1L << k` has bit `k` set and no other. */
  lemma BitLongOne(k: nat, j: nat)
    requires k < 64 && j < 64
    ensures Bit(ShiftLeft(1, k), j) == (j == k)
  {
    BitShiftLeft(1, k, j);
    if k <= j {
      BitOne(j - k);
    }
  }

  /** `x << k` is nonzero exactly when one of the low `64 - k` bits of `x`,
      the ones the shift keeps, is set. */
  lemma ShiftLeftNonzero(x: Long, k: nat)
    requires k < 64
    ensures ShiftLeft(x, k) != 0 <==> exists i :: 0 <= i < 64 - k && Bit(x, i)
  {
    LongZeroIffNoBit(ShiftLeft(x, k));
    if ShiftLeft(x, k) != 0 {
      var j :| 0 <= j < 64 && Bit(ShiftLeft(x, k), j);
      BitShiftLeft(x, k, j);
      assert 0 <= j - k < 64 - k && Bit(x, j - k);
    }
    if i :| 0 <= i < 64 - k && Bit(x, i) {
      BitShiftLeft(x, k, i + k);
    }
  }

  /** Java `x << k` on an `int`: the distance is taken modulo 32 (Java's
      `k & 31`, which Dafny's `%` gives for every `k`). */
  function IntShiftLeft(x: Int32, k: int): Int32
  {
    (x * Pow2(k % 32)) % IntModulus
  }

  lemma BitIntShiftLeft(x: Int32, k: int, j: nat)
    requires j < 32
    ensures Bit(IntShiftLeft(x, k), j) == (k % 32 <= j && Bit(x, j - k % 32))
  {
    Pow2Int();
    BitShiftedPattern(x, k % 32, 32, j);
  }

  // ---- widening casts ----

  /** Java `(long) x` for an `int`: sign extension. */
  function IntToLong(x: Int32): Long
  {
    if x >= 0x8000_0000 then x + 0xFFFF_FFFF_0000_0000 else x
  }

  /** Java `(int) b` for a `byte`: sign extension. */
  function ByteToInt(b: Byte): Int32
  {
    if b >= 0x80 then b + 0xFFFF_FF00 else b
  }

  /** The top bit of a pattern of width `n` says whether it is at least
      2^(n-1). */
  lemma TopBit(x: nat, n: nat)
    requires 1 <= n && x < Pow2(n)
    ensures Bit(x, n - 1) == (x >= Pow2(n - 1))
  {
    var half := Pow2(n - 1);
    if x >= half {
      BitConcat(x - half, 1, n - 1, n - 1);
      BitOne(0);
    } else {
      BitAboveWidth(x, n - 1, n - 1);
    }
  }

  /** Widening an `int` copies its 32 bits and repeats its sign bit above
      them. */
  lemma BitIntToLong(x: Int32, p: nat)
    requires p < 64
    ensures Bit(IntToLong(x), p) == Bit(x, if p < 32 then p else 31)
  {
    Pow2Int();
    TopBit(x, 32);
    if x >= 0x8000_0000 {
      BitOfSplit(IntToLong(x), 0xFFFF_FFFF, x, 32, p);
      if p >= 32 {
        BitLowOnes(32, p - 32);
      }
    } else if p >= 32 {
      BitAboveWidth(x, 32, p);
    }
  }

  /** Widening a `byte` copies its 8 bits and repeats its sign bit above
      them. */
  lemma BitByteToInt(b: Byte, p: nat)
    requires p < 32
    ensures Bit(ByteToInt(b), p) == Bit(b, if p < 8 then p else 7)
  {
    Pow2Byte();
    TopBit(b, 8);
    if b >= 0x80 {
      BitOfSplit(ByteToInt(b), 0xFF_FFFF, b, 8, p);
      if p >= 8 {
        Pow2Int();
        BitLowOnes(24, p - 8);
      }
    } else if p >= 8 {
      BitAboveWidth(b, 8, p);
    }
  }

  /** What `field[j] |= 1 << k` ORs into a `long`: bit `k mod 32`, or, when
      that is bit 31, the sign-extended bits 31 to 63. */
  lemma BitIntOne(k: int, p: nat)
    requires p < 64
    ensures Bit(IntToLong(IntShiftLeft(1, k)), p)
      == if k % 32 == 31 then p >= 31 else p == k % 32
  {
    var q := if p < 32 then p else 31;
    BitIntToLong(IntShiftLeft(1, k), p);
    BitIntShiftLeft(1, k, q);
    if k % 32 <= q {
      BitOne(q - k % 32);
    }
  }
}
