/** The Bitfield value: a stored prefix of 64-bit words plus an inversion flag
    that gives a conceptually unbounded bit sequence (Bitfield.java:3-10).
    Reading it (getLong, getBit), complementing it (not), copying it and the
    private trimming step live here. */
module Bitfields {
  import opened Words

  /** `field` holds the stored words, `inverted` complements every stored bit
      and is the value of every position beyond them. The Java class only
      ever builds instances through its constructors, which never change an
      instance afterwards, so a value type is the whole story. */
  datatype Bitfield = Bitfield(field: seq<Long>, inverted: bool)

  /** The only exception the class throws on purpose. */
  datatype Error = IllegalArgument

  datatype Result<T> = Ok(value: T) | Err(error: Error)

  function Min(x: int, y: int): int { if x <= y then x else y }

  function Max(x: int, y: int): int { if x <= y then y else x }

  /** Bit `p` of a word sequence read little-endian: bit `p mod 64` of word
      `p / 64` (the bit `setBitInArray` writes with `1L << (p & 63)`), and
      false outside the stored words. */
  ghost predicate StoredBit(s: seq<Long>, p: int)
  {
    0 <= p < 64 * |s| && Bit(s[p / 64], p % 64)
  }

  /** The bit a Bitfield stands for at any position, including negative ones
      and those beyond the stored words, which read as `inverted`. */
  ghost predicate LogicalBit(bf: Bitfield, p: int)
  {
    StoredBit(bf.field, p) != bf.inverted
  }

  /** Java `(int) Math.ceil((double) l / 64)`: the number of words needed for
      `l` bits (exact for every `int`, so no floating point is involved). */
  function WordLengthFromBitLength(l: int): (n: int)
    ensures 64 * (n - 1) < l <= 64 * n
    ensures l >= 0 ==> n >= 0
  {
    if l >= 0 then (l + 63) / 64 else -((-l) / 64)
  }

  /** Java `getLong(index)`: the effective value of word `index`. Java
      throws for an index outside the stored words. */
  function GetLong(bf: Bitfield, index: int): Long
    requires 0 <= index < |bf.field|
  {
    if bf.inverted then LongNot(bf.field[index]) else bf.field[index]
  }

  /** The bits of `getLong(p / 64)` are the logical bits of that word. */
  lemma GetLongBit(bf: Bitfield, p: int)
    requires 0 <= p < 64 * |bf.field|
    ensures Bit(GetLong(bf, p / 64), p % 64) == LogicalBit(bf, p)
  {
    BitNot(bf.field[p / 64], p % 64);
  }

  /** The logical bits of word `w` are the bits of `getLong(w)`. */
  lemma LogicalBitInWord(bf: Bitfield, w: int, k: int)
    requires 0 <= w < |bf.field| && 0 <= k < 64
    ensures LogicalBit(bf, 64 * w + k) == Bit(GetLong(bf, w), k)
  {
    GetLongBit(bf, 64 * w + k);
  }

  /** `getLong(w) << k` is nonzero exactly when a logical bit of word `w`
      below position `64 * w + 64 - k` is set. */
  lemma ShiftedWordNonzero(bf: Bitfield, w: int, k: nat)
    requires 0 <= w < |bf.field| && k < 64
    ensures ShiftLeft(GetLong(bf, w), k) != 0
      <==> exists p :: 64 * w <= p < 64 * w + 64 - k && LogicalBit(bf, p)
  {
    var x := GetLong(bf, w);
    ShiftLeftNonzero(x, k);
    if ShiftLeft(x, k) != 0 {
      var j :| 0 <= j < 64 - k && Bit(x, j);
      LogicalBitInWord(bf, w, j);
    }
    if p :| 64 * w <= p < 64 * w + 64 - k && LogicalBit(bf, p) {
      LogicalBitInWord(bf, w, p - 64 * w);
    }
  }

  /** Java `getBit(i)`: outside the stored words (negative `i` included, as
      `i >> 6` rounds down) it answers `inverted`; inside, it answers whether
      `getLong(i >> 6) << (i & 63)` is nonzero. That is not bit `i`: it is
      true exactly when some logical bit of `i`'s word, among its lowest
      `64 - (i mod 64)`, is set. */
  function GetBit(bf: Bitfield, i: int): (r: bool)
    ensures !(0 <= i < 64 * |bf.field|) ==> r == bf.inverted
    ensures 0 <= i < 64 * |bf.field| ==>
      (r <==> exists p :: i - i % 64 <= p < i - 2 * (i % 64) + 64 && LogicalBit(bf, p))
  {
    var wordIndex := i / 64;
    var inWordIndex := i % 64;
    if wordIndex > |bf.field| - 1 || wordIndex < 0 then
      bf.inverted
    else
      ShiftedWordNonzero(bf, wordIndex, inWordIndex);
      ShiftLeft(GetLong(bf, wordIndex), inWordIndex) != 0
  }

  /** Java `not()`: the same words under the opposite flag, so every
      position, stored or not, reads complemented. */
  function Not(bf: Bitfield): (r: Bitfield)
    ensures r.field == bf.field
    ensures forall p :: LogicalBit(r, p) == !LogicalBit(bf, p)
  {
    Bitfield(bf.field, !bf.inverted)
  }

  lemma NotInvolutive(bf: Bitfield)
    ensures Not(Not(bf)) == bf
  {
  }

  /** The copy constructor `Bitfield(Bitfield bf)`: equal words and flag, so
      it reads the same at every position. */
  function Copy(bf: Bitfield): (r: Bitfield)
    ensures r.field == bf.field && r.inverted == bf.inverted
    ensures forall p :: LogicalBit(r, p) == LogicalBit(bf, p)
  {
    Bitfield(bf.field, bf.inverted)
  }

  // ---- trim ----

  /** The number of words `trim()` keeps: it drops trailing zero words but
      never the word at index 0. */
  function TrimmedLength(s: seq<Long>): (n: nat)
    ensures n <= |s|
    ensures |s| >= 1 ==> n >= 1 && (n == 1 || s[n - 1] != 0)
    ensures forall w :: n <= w < |s| ==> s[w] == 0
  {
    if |s| <= 1 then |s|
    else if s[|s| - 1] == 0 then TrimmedLength(s[..|s| - 1])
    else |s|
  }

  /** What `trim()` returns. */
  function Trimmed(bf: Bitfield): Bitfield
  {
    Bitfield(bf.field[..TrimmedLength(bf.field)], bf.inverted)
  }

  /** The shape `trim()` leaves: at least one word, and a nonzero last word
      unless there is only one. */
  predicate IsTrimmed(bf: Bitfield)
  {
    |bf.field| >= 1 && (|bf.field| == 1 || bf.field[|bf.field| - 1] != 0)
  }

  /** Java `trim()`: walk down from the last word past the zero ones (never
      below index 0), then keep the prefix up to there. */
  method Trim(bf: Bitfield) returns (r: Bitfield)
    ensures r == Trimmed(bf)
  {
    var i := |bf.field| - 1;
    while i > 0 && bf.field[i] == 0
      invariant -1 <= i < |bf.field|
      invariant i == -1 ==> |bf.field| == 0
      invariant i >= 0 ==> TrimmedLength(bf.field) == TrimmedLength(bf.field[..i + 1])
      decreases i
    {
      assert bf.field[..i + 1][..i] == bf.field[..i];
      assert TrimmedLength(bf.field[..i + 1]) == TrimmedLength(bf.field[..i]);
      i := i - 1;
    }
    assert i >= 0 ==> TrimmedLength(bf.field[..i + 1]) == i + 1;
    r := Bitfield(bf.field[..i + 1], bf.inverted);
  }

  /** Trimming keeps the flag, keeps a prefix of the words, and leaves the
      trimmed shape behind whenever there was a word to start with. */
  lemma TrimmedShape(bf: Bitfield)
    ensures Trimmed(bf).inverted == bf.inverted
    ensures Trimmed(bf).field <= bf.field
    ensures |bf.field| >= 1 ==> IsTrimmed(Trimmed(bf))
    ensures forall w :: |Trimmed(bf).field| <= w < |bf.field| ==> bf.field[w] == 0
  {
  }

  /** Trimming changes no bit, stored range or beyond. */
  lemma TrimmedKeepsBits(bf: Bitfield, p: int)
    ensures LogicalBit(Trimmed(bf), p) == LogicalBit(bf, p)
  {
    var s, t := bf.field, Trimmed(bf).field;
    if 64 * |t| <= p < 64 * |s| {
      assert s[p / 64] == 0;
      BitZero(p % 64);
    } else if 0 <= p < 64 * |t| {
      assert t[p / 64] == s[p / 64];
    }
  }

  /** A Bitfield already in trimmed shape is its own trim. */
  lemma TrimmedFixesTrimmed(bf: Bitfield)
    requires IsTrimmed(bf)
    ensures Trimmed(bf) == bf
  {
    assert bf.field[..|bf.field|] == bf.field;
  }

  lemma TrimIdempotent(bf: Bitfield)
    ensures Trimmed(Trimmed(bf)) == Trimmed(bf)
  {
    if |bf.field| >= 1 {
      TrimmedFixesTrimmed(Trimmed(bf));
    }
  }

  /** A Bitfield with no words reads as the one zero word under the same
      flag, and trimming leaves it without words: the trimmed shape is
      canonical only among values with at least one word. */
  lemma EmptyFieldReadsAsZeroWord(i: bool, p: int)
    ensures LogicalBit(Bitfield([], i), p) == LogicalBit(Bitfield([0], i), p)
    ensures Trimmed(Bitfield([], i)).field == [] && IsTrimmed(Bitfield([0], i))
  {
    if 0 <= p < 64 {
      BitZero(p % 64);
    }
  }

  /** A word with a set bit, found at some position of the word sequence. */
  lemma NonzeroWordHasStoredBit(s: seq<Long>, w: int)
    requires 0 <= w < |s| && s[w] != 0
    ensures exists p :: 64 * w <= p < 64 * w + 64 && StoredBit(s, p)
  {
    LongZeroIffNoBit(s[w]);
    var k :| 0 <= k < 64 && Bit(s[w], k);
    assert StoredBit(s, 64 * w + k);
  }

  /** A trimmed Bitfield with more words than another with the same flag
      reads differently somewhere in its last word. */
  lemma LongerReadsDifferently(x: Bitfield, y: Bitfield)
    requires IsTrimmed(y) && 1 <= |x.field| < |y.field| && x.inverted == y.inverted
    ensures exists p :: LogicalBit(x, p) != LogicalBit(y, p)
  {
    NonzeroWordHasStoredBit(y.field, |y.field| - 1);
    var p :| 64 * (|y.field| - 1) <= p < 64 * |y.field| && StoredBit(y.field, p);
    assert !StoredBit(x.field, p);
    assert LogicalBit(x, p) != LogicalBit(y, p);
  }

  /** Trimmed shape is canonical: two trimmed Bitfields with the same flag
      that read the same everywhere are the same value. */
  lemma TrimmedUnique(x: Bitfield, y: Bitfield)
    requires IsTrimmed(x) && IsTrimmed(y) && x.inverted == y.inverted
    requires forall p :: LogicalBit(x, p) == LogicalBit(y, p)
    ensures x == y
  {
    if |x.field| < |y.field| {
      LongerReadsDifferently(x, y);
      assert false;
    } else if |y.field| < |x.field| {
      LongerReadsDifferently(y, x);
      assert false;
    }
    forall w | 0 <= w < |x.field|
      ensures x.field[w] == y.field[w]
    {
      forall k | 0 <= k < 64
        ensures Bit(x.field[w], k) == Bit(y.field[w], k)
      {
        assert LogicalBit(x, 64 * w + k) == LogicalBit(y, 64 * w + k);
      }
      LongExtensionality(x.field[w], y.field[w]);
    }
  }
}
