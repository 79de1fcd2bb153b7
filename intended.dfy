/** Corrected versions of the operations whose code does not do what the
    class's own structure promises: `getBit` answers bit `i` itself,
    `flipBit` flips bit `i`, the bool constructor copies the first
    `min(l, n)` booleans with a 64-bit shift, and the byte constructor
    copies the first `min(l, 8 n)` bits of its bytes. Each is proved to have
    the promised property; the as-written versions, with inputs on which
    they fail it, are Bitfields.GetBit, SingleBits.FlipBitOf,
    Constructors.BoolsField and Constructors.BytesField. */
module Intended {
  import opened Words
  import opened Bitfields
  import opened SingleBits

  // ---- getBit ----

  /** `(getLong(i >> 6) & (1L << (i & 63))) != 0`, and `inverted` outside the
      stored words. */
  function TestBit(bf: Bitfield, i: int): (r: bool)
    ensures r == LogicalBit(bf, i)
  {
    var wordIndex := i / 64;
    var inWordIndex := i % 64;
    if wordIndex > |bf.field| - 1 || wordIndex < 0 then
      bf.inverted
    else
      TestBitInWord(bf, i);
      LongAnd(GetLong(bf, wordIndex), ShiftLeft(1, inWordIndex)) != 0
  }

  /** Masking the effective word with `1L << (i mod 64)` leaves a nonzero
      word exactly when bit `i` reads 1. */
  lemma TestBitInWord(bf: Bitfield, i: int)
    requires 0 <= i < 64 * |bf.field|
    ensures (LongAnd(GetLong(bf, i / 64), ShiftLeft(1, i % 64)) != 0) == LogicalBit(bf, i)
  {
    var x := GetLong(bf, i / 64);
    var masked := LongAnd(x, ShiftLeft(1, i % 64));
    forall k | 0 <= k < 64
      ensures Bit(masked, k) == (k == i % 64 && Bit(x, i % 64))
    {
      BitAnd(x, ShiftLeft(1, i % 64), k);
      BitLongOne(i % 64, k);
    }
    assert Bit(masked, i % 64) == Bit(x, i % 64);
    LongZeroIffNoBit(masked);
    GetLongBit(bf, i);
  }

  // ---- flipBit ----

  /** `flipBit(i)` deciding with the corrected reading. */
  function FlipBitCorrected(bf: Bitfield, i: int): Bitfield
    requires 0 <= i < 0x7FFF_FFFF
  {
    if TestBit(bf, i) then UnsetBitOf(bf, i) else SetBitOf(bf, i)
  }

  /** It flips bit `i` and no other, keeps the flag and trims. */
  lemma FlipBitCorrectedReads(bf: Bitfield, i: int, p: int)
    requires 0 <= i < 0x7FFF_FFFF
    ensures LogicalBit(FlipBitCorrected(bf, i), p) == (LogicalBit(bf, p) != (p == i))
    ensures FlipBitCorrected(bf, i).inverted == bf.inverted
    ensures IsTrimmed(FlipBitCorrected(bf, i))
  {
    SetBitOfReads(bf, i, p);
    UnsetBitOfReads(bf, i, p);
  }

  /** Flipping the same bit twice gives back the original value, in trimmed
      form. */
  lemma FlipBitCorrectedTwice(bf: Bitfield, i: int)
    requires 0 <= i < 0x7FFF_FFFF && |bf.field| >= 1
    ensures FlipBitCorrected(FlipBitCorrected(bf, i), i) == Trimmed(bf)
  {
    var once := FlipBitCorrected(bf, i);
    var twice := FlipBitCorrected(once, i);
    forall p
      ensures LogicalBit(twice, p) == LogicalBit(Trimmed(bf), p)
    {
      FlipBitCorrectedReads(bf, i, p);
      FlipBitCorrectedReads(once, i, p);
      TrimmedKeepsBits(bf, p);
    }
    FlipBitCorrectedReads(bf, i, 0);
    FlipBitCorrectedReads(once, i, 0);
    TrimmedShape(bf);
    TrimmedUnique(twice, Trimmed(bf));
  }

  // ---- the bool constructor ----

  /** `1L << k` ORed into a word for each `k < c` whose boolean
      `bits[base + k]` is set. */
  function PackedWord(bits: seq<bool>, base: int, c: nat): (w: Long)
    requires 0 <= base && base + c <= |bits| && c <= 64
  {
    if c == 0 then 0
    else if bits[base + c - 1] then LongOr(PackedWord(bits, base, c - 1), ShiftLeft(1, c - 1))
    else PackedWord(bits, base, c - 1)
  }

  /** Bit `q` of the packed word is boolean `base + q`, for `q < c`. */
  lemma {:induction false} PackedWordBits(bits: seq<bool>, base: int, c: nat, q: nat)
    requires 0 <= base && base + c <= |bits| && c <= 64 && q < 64
    ensures Bit(PackedWord(bits, base, c), q) == (q < c && bits[base + q])
  {
    if c == 0 {
      BitZero(q);
    } else {
      PackedWordBits(bits, base, c - 1, q);
      if bits[base + c - 1] {
        BitOr(PackedWord(bits, base, c - 1), ShiftLeft(1, c - 1), q);
        BitLongOne(c - 1, q);
      }
    }
  }

  /** The words for the first `min(l, n)` booleans: `ceil(min(l, n) / 64)`
      words, word `j` packing the booleans from `64 * j` up to the copied
      count. */
  function PackBools(bits: seq<bool>, l: int): (f: seq<Long>)
    requires l > 0
    ensures 64 * (|f| - 1) < Min(l, |bits|) <= 64 * |f|
  {
    var m := Min(l, |bits|);
    var length := WordLengthFromBitLength(m);
    seq(length, j requires 0 <= j < length => PackedWord(bits, 64 * j, Min(64, m - 64 * j)))
  }

  /** Round trip: bit `p` of the packed words is `bits[p]` for every copied
      position, and 0 elsewhere. */
  lemma PackBoolsReads(bits: seq<bool>, l: int, p: int)
    requires l > 0
    ensures StoredBit(PackBools(bits, l), p) == (0 <= p < Min(l, |bits|) && bits[p])
  {
    var f := PackBools(bits, l);
    var m := Min(l, |bits|);
    if 0 <= p < 64 * |f| {
      var j := p / 64;
      assert f[j] == PackedWord(bits, 64 * j, Min(64, m - 64 * j));
      PackedWordBits(bits, 64 * j, Min(64, m - 64 * j), p % 64);
      assert 64 * j + p % 64 == p;
    }
  }

  /** The corrected `Bitfield(boolean[] bits, boolean i, int l)`. */
  function FromBoolsCorrected(bits: seq<bool>, i: bool, l: int): (r: Result<Bitfield>)
    ensures r.Err? <==> l <= 0
    ensures r.Ok? ==> r.value.inverted == i
  {
    if l <= 0 then Err(IllegalArgument) else Ok(Bitfield(PackBools(bits, l), i))
  }

  /** It reads `bits[p]` at every copied position and the flag everywhere
      else. */
  lemma FromBoolsCorrectedReads(bits: seq<bool>, i: bool, l: int, p: int)
    requires l > 0
    ensures LogicalBit(FromBoolsCorrected(bits, i, l).value, p)
      == if 0 <= p < Min(l, |bits|) then bits[p] != i else i
  {
    PackBoolsReads(bits, l, p);
  }

  // ---- the byte constructor ----

  /** The bits of a byte array, least significant bit of each byte first:
      bit `p` is bit `p mod 8` of byte `p / 8`. */
  function BytesToBools(bits: seq<Byte>): (b: seq<bool>)
    ensures |b| == 8 * |bits|
  {
    seq(8 * |bits|, p requires 0 <= p < 8 * |bits| => Bit(bits[p / 8], p % 8))
  }

  /** The corrected `Bitfield(byte[] bits, boolean i, int l)`: the bits of
      the bytes, packed as the corrected bool constructor packs them. */
  function FromBytesCorrected(bits: seq<Byte>, i: bool, l: int): (r: Result<Bitfield>)
    ensures r.Err? <==> l <= 0
    ensures r.Ok? ==> r.value.inverted == i
  {
    FromBoolsCorrected(BytesToBools(bits), i, l)
  }

  /** It reads bit `p mod 8` of byte `p / 8` at each of the first
      `min(l, 8 n)` positions and the flag everywhere else. */
  lemma FromBytesCorrectedReads(bits: seq<Byte>, i: bool, l: int, p: int)
    requires l > 0
    ensures LogicalBit(FromBytesCorrected(bits, i, l).value, p)
      == if 0 <= p < Min(l, 8 * |bits|) then Bit(bits[p / 8], p % 8) != i else i
  {
    FromBoolsCorrectedReads(BytesToBools(bits), i, l, p);
  }
}
