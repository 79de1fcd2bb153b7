/** The bitwise combinators `and`, `or` and `xor` (Bitfield.java:112-169).
    Each method fills a fresh word array in a loop, as the Java code does, and
    is proved to build its reference value (`AndOf`, `OrOf`, `XorOf`): the
    word-wise combination of the operands' effective words, stored under the
    result's flag. The lemmas say what those values read as, bit by bit. */
module Combinators {
  import opened Words
  import opened Bitfields

  /** The word to store under flag `inv` so that it reads as `e`. */
  function Store(inv: bool, e: Long): Long
  {
    if inv then LongNot(e) else e
  }

  /** A word stored as `Store(inv, e)` reads, bit by bit, as `e`. */
  lemma StoredWordReads(r: Bitfield, p: int, e: Long)
    requires 0 <= p < 64 * |r.field| && r.field[p / 64] == Store(r.inverted, e)
    ensures LogicalBit(r, p) == Bit(e, p % 64)
  {
    BitNot(e, p % 64);
  }

  /** Both operands' effective words at `p`'s word read as their logical
      bits at `p`. */
  lemma OperandBits(a: Bitfield, b: Bitfield, p: int)
    requires 0 <= p < 64 * Min(|a.field|, |b.field|)
    ensures Bit(GetLong(a, p / 64), p % 64) == LogicalBit(a, p)
    ensures Bit(GetLong(b, p / 64), p % 64) == LogicalBit(b, p)
  {
    GetLongBit(a, p);
    GetLongBit(b, p);
  }

  // ---- and ----

  /** Word `w` of `and`: the AND of the effective words, stored under the
      result's flag. */
  function AndWord(a: Bitfield, b: Bitfield, w: int): Long
    requires 0 <= w < |a.field| && 0 <= w < |b.field|
  {
    Store(a.inverted && b.inverted, LongAnd(GetLong(a, w), GetLong(b, w)))
  }

  /** `and`: as many words as the shorter operand, set when both operands
      are inverted. */
  function AndOf(a: Bitfield, b: Bitfield): Bitfield
  {
    var n := Min(|a.field|, |b.field|);
    Bitfield(seq(n, w requires 0 <= w < n => AndWord(a, b, w)), a.inverted && b.inverted)
  }

  /** Java `and(arg)`. The branch for two inverted operands stores
      `~(~fa & ~fb)` from the raw words, which is the complement of the AND
      of the effective words (De Morgan). */
  method And(a: Bitfield, b: Bitfield) returns (r: Bitfield)
    ensures r == AndOf(a, b)
  {
    var n := Min(|a.field|, |b.field|);
    var andField := new Long[n];
    var inv := a.inverted && b.inverted;
    if !inv {
      for i := 0 to n
        invariant forall w :: 0 <= w < i ==> andField[w] == AndWord(a, b, w)
      {
        andField[i] := LongAnd(GetLong(a, i), GetLong(b, i));
      }
    } else {
      for i := 0 to n
        invariant forall w :: 0 <= w < i ==> andField[w] == AndWord(a, b, w)
      {
        andField[i] := LongNot(LongAnd(LongNot(a.field[i]), LongNot(b.field[i])));
      }
    }
    assert andField[..] == AndOf(a, b).field;
    r := Bitfield(andField[..], inv);
  }

  /** `and` keeps the shorter operand's word count and, inside it, is the
      AND of the bits. */
  lemma AndOfBit(a: Bitfield, b: Bitfield, p: int)
    requires 0 <= p < 64 * Min(|a.field|, |b.field|)
    ensures |AndOf(a, b).field| == Min(|a.field|, |b.field|)
    ensures LogicalBit(AndOf(a, b), p) == (LogicalBit(a, p) && LogicalBit(b, p))
  {
    var w := p / 64;
    var ea, eb := GetLong(a, w), GetLong(b, w);
    assert AndOf(a, b).field[w] == AndWord(a, b, w);
    StoredWordReads(AndOf(a, b), p, LongAnd(ea, eb));
    BitAnd(ea, eb, p % 64);
    OperandBits(a, b, p);
  }

  /** `and` is the AND of the bits at every position when the operands have
      as many words, or when the one with fewer words is not inverted. */
  lemma AndOfBitEverywhere(a: Bitfield, b: Bitfield, p: int)
    requires |a.field| == |b.field|
      || (|a.field| < |b.field| && !a.inverted)
      || (|b.field| < |a.field| && !b.inverted)
    ensures LogicalBit(AndOf(a, b), p) == (LogicalBit(a, p) && LogicalBit(b, p))
  {
    if 0 <= p < 64 * Min(|a.field|, |b.field|) {
      AndOfBit(a, b, p);
    }
  }

  /** Otherwise the truncation loses bits: an inverted one-word operand (all
      ones) ANDed with an inverted two-word operand whose bit 64 reads 0
      gives a value that reads 1 at position 64. */
  lemma AndOfTruncationLosesBits()
    ensures var a, b := Bitfield([0], true), Bitfield([0, 1], true);
      LogicalBit(AndOf(a, b), 64) && !(LogicalBit(a, 64) && LogicalBit(b, 64))
  {
    var a, b := Bitfield([0], true), Bitfield([0, 1], true);
    assert AndOf(a, b).field == [LongNot(LongAnd(LongNot(0), LongNot(0)))];
    assert Bit(b.field[1], 0);
  }

  // ---- or ----

  /** Word `w` of `or`: the OR of the effective words, stored under the
      result's flag. */
  function OrWord(a: Bitfield, b: Bitfield, w: int): Long
    requires 0 <= w < |a.field| && 0 <= w < |b.field|
  {
    Store(a.inverted || b.inverted, LongOr(GetLong(a, w), GetLong(b, w)))
  }

  /** `or` of operands with equal word counts, set when either operand is
      inverted. */
  function OrOf(a: Bitfield, b: Bitfield): Bitfield
    requires |a.field| == |b.field|
  {
    var n := |a.field|;
    Bitfield(seq(n, w requires 0 <= w < n => OrWord(a, b, w)), a.inverted || b.inverted)
  }

  /** Java `or(arg)`. Both loops index both arrays up to the longer length,
      so Java throws unless the word counts are equal. The branch for two
      non-inverted operands ORs the raw words. */
  method Or(a: Bitfield, b: Bitfield) returns (r: Bitfield)
    requires |a.field| == |b.field|
    ensures r == OrOf(a, b)
  {
    var n := Max(|a.field|, |b.field|);
    var orField := new Long[n];
    var inv := a.inverted || b.inverted;
    if inv {
      for i := 0 to n
        invariant forall w :: 0 <= w < i ==> orField[w] == OrWord(a, b, w)
      {
        orField[i] := LongNot(LongOr(GetLong(a, i), GetLong(b, i)));
      }
    } else {
      for i := 0 to n
        invariant forall w :: 0 <= w < i ==> orField[w] == OrWord(a, b, w)
      {
        orField[i] := LongOr(a.field[i], b.field[i]);
      }
    }
    assert orField[..] == OrOf(a, b).field;
    r := Bitfield(orField[..], inv);
  }

  /** `or` is the OR of the bits at every position, stored or beyond. */
  lemma OrOfBit(a: Bitfield, b: Bitfield, p: int)
    requires |a.field| == |b.field|
    ensures LogicalBit(OrOf(a, b), p) == (LogicalBit(a, p) || LogicalBit(b, p))
  {
    if 0 <= p < 64 * |a.field| {
      var w := p / 64;
      var ea, eb := GetLong(a, w), GetLong(b, w);
      assert OrOf(a, b).field[w] == OrWord(a, b, w);
      StoredWordReads(OrOf(a, b), p, LongOr(ea, eb));
      BitOr(ea, eb, p % 64);
      OperandBits(a, b, p);
    }
  }

  // ---- xor ----

  /** Word `w` of `xor`: the XOR of the effective words, stored under the
      result's flag. */
  function XorWord(a: Bitfield, b: Bitfield, w: int): Long
    requires 0 <= w < |a.field| && 0 <= w < |b.field|
  {
    Store(a.inverted != b.inverted, LongXor(GetLong(a, w), GetLong(b, w)))
  }

  /** The words `xor` builds before trimming, set when exactly one operand
      is inverted. */
  function XorUntrimmed(a: Bitfield, b: Bitfield): Bitfield
    requires |a.field| == |b.field|
  {
    var n := |a.field|;
    Bitfield(seq(n, w requires 0 <= w < n => XorWord(a, b, w)), a.inverted != b.inverted)
  }

  /** What `xor` returns: the XOR words, trimmed. */
  function XorOf(a: Bitfield, b: Bitfield): Bitfield
    requires |a.field| == |b.field|
  {
    Trimmed(XorUntrimmed(a, b))
  }

  /** Java `xor(arg)`: like `or`, it needs equal word counts; it is the one
      combinator that trims its result. */
  method Xor(a: Bitfield, b: Bitfield) returns (r: Bitfield)
    requires |a.field| == |b.field|
    ensures r == XorOf(a, b)
  {
    var n := Max(|a.field|, |b.field|);
    var xorField := new Long[n];
    var inv := a.inverted != b.inverted;
    if inv {
      for i := 0 to n
        invariant forall w :: 0 <= w < i ==> xorField[w] == XorWord(a, b, w)
      {
        xorField[i] := LongNot(LongXor(GetLong(a, i), GetLong(b, i)));
      }
    } else {
      for i := 0 to n
        invariant forall w :: 0 <= w < i ==> xorField[w] == XorWord(a, b, w)
      {
        xorField[i] := LongXor(GetLong(a, i), GetLong(b, i));
      }
    }
    assert xorField[..] == XorUntrimmed(a, b).field;
    r := Trim(Bitfield(xorField[..], inv));
  }

  /** `xor` is the XOR of the bits at every position, and comes out
      trimmed. */
  lemma XorOfBit(a: Bitfield, b: Bitfield, p: int)
    requires |a.field| == |b.field|
    ensures LogicalBit(XorOf(a, b), p) == (LogicalBit(a, p) != LogicalBit(b, p))
    ensures |a.field| >= 1 ==> IsTrimmed(XorOf(a, b))
  {
    TrimmedKeepsBits(XorUntrimmed(a, b), p);
    TrimmedShape(XorUntrimmed(a, b));
    if 0 <= p < 64 * |a.field| {
      var w := p / 64;
      var ea, eb := GetLong(a, w), GetLong(b, w);
      assert XorUntrimmed(a, b).field[w] == XorWord(a, b, w);
      StoredWordReads(XorUntrimmed(a, b), p, LongXor(ea, eb));
      BitXor(ea, eb, p % 64);
      OperandBits(a, b, p);
    }
  }
}
