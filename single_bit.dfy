/** The single-bit operations of Bitfield.java:171-216: `setBitInArray` and
    `unsetBitInArray` change one word of an array in place; `setBit`,
    `unsetBit` and `flipBit` build a new, trimmed Bitfield. Each method is
    proved to build its reference value (`SetBitOf`, `UnsetBitOf`,
    `FlipBitOf`), and the lemmas say what those values read as. The
    lemmas at the end show how `getBit` (Bitfields.GetBit) and hence
    `flipBit` differ from reading and flipping bit `i`. */
module SingleBits {
  import opened Words
  import opened Bitfields

  // ---- setBitInArray / unsetBitInArray ----

  /** The words `s` with bit `i` set: word `i / 64` ORed with
      `1L << (i mod 64)`. */
  function WithBitSet(s: seq<Long>, i: int): seq<Long>
    requires 0 <= i && i / 64 < |s|
  {
    s[i / 64 := LongOr(s[i / 64], ShiftLeft(1, i % 64))]
  }

  /** The words `s` with bit `i` cleared: word `i / 64` ANDed with
      `~(1L << (i mod 64))`. */
  function WithBitCleared(s: seq<Long>, i: int): seq<Long>
    requires 0 <= i && i / 64 < |s|
  {
    s[i / 64 := LongAnd(s[i / 64], LongNot(ShiftLeft(1, i % 64)))]
  }

  /** Setting bit `i` sets that stored bit and no other. */
  lemma WithBitSetBits(s: seq<Long>, i: int, p: int)
    requires 0 <= i && i / 64 < |s|
    ensures |WithBitSet(s, i)| == |s|
    ensures StoredBit(WithBitSet(s, i), p) == (p == i || StoredBit(s, p))
  {
    if 0 <= p < 64 * |s| {
      if p / 64 == i / 64 {
        BitOr(s[i / 64], ShiftLeft(1, i % 64), p % 64);
        BitLongOne(i % 64, p % 64);
      }
    }
  }

  /** Clearing bit `i` clears that stored bit and no other. */
  lemma WithBitClearedBits(s: seq<Long>, i: int, p: int)
    requires 0 <= i && i / 64 < |s|
    ensures |WithBitCleared(s, i)| == |s|
    ensures StoredBit(WithBitCleared(s, i), p) == (p != i && StoredBit(s, p))
  {
    if 0 <= p < 64 * |s| {
      if p / 64 == i / 64 {
        var m := ShiftLeft(1, i % 64);
        BitAnd(s[i / 64], LongNot(m), p % 64);
        BitNot(m, p % 64);
        BitLongOne(i % 64, p % 64);
      }
    }
  }

  /** Java `setBitInArray(array, i)`: sets bit `i` of the array in place.
      Java throws for a negative `i` or a word index past the end. */
  method SetBitInArray(a: array<Long>, i: int)
    requires 0 <= i && i / 64 < a.Length
    modifies a
    ensures a[..] == WithBitSet(old(a[..]), i)
    ensures forall p :: StoredBit(a[..], p) == (p == i || StoredBit(old(a[..]), p))
  {
    ghost var before := a[..];
    var wordIndex := i / 64;
    var inWordIndex := i % 64;
    a[wordIndex] := LongOr(a[wordIndex], ShiftLeft(1, inWordIndex));
    assert a[..] == WithBitSet(before, i);
    forall p
      ensures StoredBit(a[..], p) == (p == i || StoredBit(before, p))
    {
      WithBitSetBits(before, i, p);
    }
  }

  /** Java `unsetBitInArray(array, i)`: clears bit `i` of the array in
      place, under the same conditions. */
  method UnsetBitInArray(a: array<Long>, i: int)
    requires 0 <= i && i / 64 < a.Length
    modifies a
    ensures a[..] == WithBitCleared(old(a[..]), i)
    ensures forall p :: StoredBit(a[..], p) == (p != i && StoredBit(old(a[..]), p))
  {
    ghost var before := a[..];
    var wordIndex := i / 64;
    var inWordIndex := i % 64;
    a[wordIndex] := LongAnd(a[wordIndex], LongNot(ShiftLeft(1, inWordIndex)));
    assert a[..] == WithBitCleared(before, i);
    forall p
      ensures StoredBit(a[..], p) == (p != i && StoredBit(before, p))
    {
      WithBitClearedBits(before, i, p);
    }
  }

  // ---- setBit / unsetBit ----

  /** The words `s` followed by zero words up to `n` words in all, as the
      zero-filled array `setBit` copies into. The zero words add no bit. */
  function Padded(s: seq<Long>, n: int): (t: seq<Long>)
    requires n >= |s|
    ensures |t| == n
    ensures forall p :: StoredBit(t, p) == StoredBit(s, p)
  {
    var t := s + seq(n - |s|, _ => 0);
    assert forall p :: StoredBit(t, p) == StoredBit(s, p) by {
      forall p | 64 * |s| <= p < 64 * n
        ensures !StoredBit(t, p)
      {
        BitZero(p % 64);
      }
    }
    t
  }

  /** The word count `setBit` and `unsetBit` allocate: `max(i + 1, words)`.
      It is a bit count used as a word count, so it is always enough words
      for bit `i` and usually far too many. */
  function SetLength(bf: Bitfield, i: int): (n: int)
    requires 0 <= i
    ensures n >= |bf.field| && i / 64 < n
  {
    Max(i + 1, |bf.field|)
  }

  /** What `setBit(i)` returns: the padded words with bit `i` set (cleared
      when the Bitfield is inverted), trimmed. */
  function SetBitOf(bf: Bitfield, i: int): Bitfield
    requires 0 <= i < 0x7FFF_FFFF
  {
    var s := Padded(bf.field, SetLength(bf, i));
    Trimmed(Bitfield(if bf.inverted then WithBitCleared(s, i) else WithBitSet(s, i), bf.inverted))
  }

  /** What `unsetBit(i)` returns: the padded words with bit `i` cleared (set
      when the Bitfield is inverted), trimmed. */
  function UnsetBitOf(bf: Bitfield, i: int): Bitfield
    requires 0 <= i < 0x7FFF_FFFF
  {
    var s := Padded(bf.field, SetLength(bf, i));
    Trimmed(Bitfield(if bf.inverted then WithBitSet(s, i) else WithBitCleared(s, i), bf.inverted))
  }

  /** Java `setBit(i)`: copy the words into a zero-filled array of
      `max(i + 1, words)` words, set (or, when inverted, clear) bit `i`
      there, and trim. Java throws for a negative `i`, and `i + 1`
      overflows at the largest `int`. */
  method SetBit(bf: Bitfield, i: int) returns (r: Bitfield)
    requires 0 <= i < 0x7FFF_FFFF
    ensures r == SetBitOf(bf, i)
  {
    var setField := new Long[Max(i + 1, |bf.field|)](_ => 0);
    forall j | 0 <= j < |bf.field| {
      setField[j] := bf.field[j];
    }
    assert setField[..] == Padded(bf.field, SetLength(bf, i));
    if bf.inverted {
      UnsetBitInArray(setField, i);
    } else {
      SetBitInArray(setField, i);
    }
    r := Trim(Bitfield(setField[..], bf.inverted));
  }

  /** Java `unsetBit(i)`: the same with the two branches swapped. */
  method UnsetBit(bf: Bitfield, i: int) returns (r: Bitfield)
    requires 0 <= i < 0x7FFF_FFFF
    ensures r == UnsetBitOf(bf, i)
  {
    var unsetField := new Long[Max(i + 1, |bf.field|)](_ => 0);
    forall j | 0 <= j < |bf.field| {
      unsetField[j] := bf.field[j];
    }
    assert unsetField[..] == Padded(bf.field, SetLength(bf, i));
    if bf.inverted {
      SetBitInArray(unsetField, i);
    } else {
      UnsetBitInArray(unsetField, i);
    }
    r := Trim(Bitfield(unsetField[..], bf.inverted));
  }

  /** After `setBit(i)` position `i` reads 1 and every other position reads
      as before; the flag is kept and the result is trimmed. */
  lemma SetBitOfReads(bf: Bitfield, i: int, p: int)
    requires 0 <= i < 0x7FFF_FFFF
    ensures LogicalBit(SetBitOf(bf, i), p) == (p == i || LogicalBit(bf, p))
    ensures SetBitOf(bf, i).inverted == bf.inverted
    ensures IsTrimmed(SetBitOf(bf, i))
  {
    var s := Padded(bf.field, SetLength(bf, i));
    var u := Bitfield(if bf.inverted then WithBitCleared(s, i) else WithBitSet(s, i), bf.inverted);
    WithBitSetBits(s, i, p);
    WithBitClearedBits(s, i, p);
    TrimmedKeepsBits(u, p);
    TrimmedShape(u);
  }

  /** After `unsetBit(i)` position `i` reads 0 and every other position
      reads as before; the flag is kept and the result is trimmed. */
  lemma UnsetBitOfReads(bf: Bitfield, i: int, p: int)
    requires 0 <= i < 0x7FFF_FFFF
    ensures LogicalBit(UnsetBitOf(bf, i), p) == (p != i && LogicalBit(bf, p))
    ensures UnsetBitOf(bf, i).inverted == bf.inverted
    ensures IsTrimmed(UnsetBitOf(bf, i))
  {
    var s := Padded(bf.field, SetLength(bf, i));
    var u := Bitfield(if bf.inverted then WithBitSet(s, i) else WithBitCleared(s, i), bf.inverted);
    WithBitSetBits(s, i, p);
    WithBitClearedBits(s, i, p);
    TrimmedKeepsBits(u, p);
    TrimmedShape(u);
  }

  /** `setBit(i)` is the trimmed Bitfield, with the same flag, that reads 1
      at `i` and as before elsewhere; there is exactly one such value. */
  lemma SetBitOfUnique(bf: Bitfield, i: int, x: Bitfield)
    requires 0 <= i < 0x7FFF_FFFF
    requires IsTrimmed(x) && x.inverted == bf.inverted
    requires forall p :: LogicalBit(x, p) == (p == i || LogicalBit(bf, p))
    ensures x == SetBitOf(bf, i)
  {
    forall p
      ensures LogicalBit(x, p) == LogicalBit(SetBitOf(bf, i), p)
    {
      SetBitOfReads(bf, i, p);
    }
    SetBitOfReads(bf, i, 0);
    TrimmedUnique(x, SetBitOf(bf, i));
  }

  /** Setting a bit twice is setting it once. */
  lemma SetBitOfIdempotent(bf: Bitfield, i: int)
    requires 0 <= i < 0x7FFF_FFFF
    ensures SetBitOf(SetBitOf(bf, i), i) == SetBitOf(bf, i)
  {
    var once := SetBitOf(bf, i);
    forall p
      ensures LogicalBit(SetBitOf(once, i), p) == (p == i || LogicalBit(bf, p))
    {
      SetBitOfReads(bf, i, p);
      SetBitOfReads(once, i, p);
    }
    SetBitOfReads(bf, i, 0);
    SetBitOfReads(once, i, 0);
    SetBitOfUnique(bf, i, SetBitOf(once, i));
  }

  /** Clearing a bit that was just set gives back a value that reads as the
      original wherever the original read 0 at `i`. */
  lemma UnsetUndoesSet(bf: Bitfield, i: int, p: int)
    requires 0 <= i < 0x7FFF_FFFF && !LogicalBit(bf, i)
    ensures LogicalBit(UnsetBitOf(SetBitOf(bf, i), i), p) == LogicalBit(bf, p)
  {
    SetBitOfReads(bf, i, p);
    UnsetBitOfReads(SetBitOf(bf, i), i, p);
  }

  // ---- flipBit ----

  /** What `flipBit(i)` returns: `unsetBit(i)` when `getBit(i)` answers
      true, `setBit(i)` otherwise. */
  function FlipBitOf(bf: Bitfield, i: int): Bitfield
    requires 0 <= i < 0x7FFF_FFFF
  {
    if GetBit(bf, i) then UnsetBitOf(bf, i) else SetBitOf(bf, i)
  }

  /** Java `flipBit(i)`. */
  method FlipBit(bf: Bitfield, i: int) returns (r: Bitfield)
    requires 0 <= i < 0x7FFF_FFFF
    ensures r == FlipBitOf(bf, i)
  {
    if GetBit(bf, i) {
      r := UnsetBit(bf, i);
    } else {
      r := SetBit(bf, i);
    }
  }

  /** After `flipBit(i)` position `i` reads the opposite of what `getBit(i)`
      answered, and every other position reads as before. */
  lemma FlipBitOfReads(bf: Bitfield, i: int, p: int)
    requires 0 <= i < 0x7FFF_FFFF
    ensures LogicalBit(FlipBitOf(bf, i), p)
      == if p == i then !GetBit(bf, i) else LogicalBit(bf, p)
    ensures IsTrimmed(FlipBitOf(bf, i))
  {
    SetBitOfReads(bf, i, p);
    UnsetBitOfReads(bf, i, p);
  }

  // ---- what getBit answers ----

  /** `getBit(i)` is false when the effective word holding `i` is zero ... */
  lemma GetBitZeroWord(bf: Bitfield, i: int)
    requires 0 <= i < 64 * |bf.field| && GetLong(bf, i / 64) == 0
    ensures !GetBit(bf, i)
  {
    if p :| i - i % 64 <= p < i - 2 * (i % 64) + 64 && LogicalBit(bf, p) {
      LogicalBitInWord(bf, i / 64, p % 64);
      BitZero(p % 64);
    }
  }

  /** ... and true when it is all ones. */
  lemma GetBitAllOnesWord(bf: Bitfield, i: int)
    requires 0 <= i < 64 * |bf.field| && GetLong(bf, i / 64) == 0xFFFF_FFFF_FFFF_FFFF
    ensures GetBit(bf, i)
  {
    LogicalBitInWord(bf, i / 64, 0);
  }

  /** For positions in the low half of a word, a set bit makes `getBit`
      answer true (the converse fails, see below). */
  lemma GetBitLowHalf(bf: Bitfield, i: int)
    requires 0 <= i < 64 * |bf.field| && i % 64 < 32 && LogicalBit(bf, i)
    ensures GetBit(bf, i)
  {
  }

  /** `getBit` is not bit extraction: with only bit 0 set, `getBit(1)`
      answers true although bit 1 reads 0. */
  lemma GetBitReadsOtherBits()
    ensures var bf := Bitfield([1], false);
      GetBit(bf, 1) && !LogicalBit(bf, 1)
  {
    var bf := Bitfield([1], false);
    assert LogicalBit(bf, 0);
  }

  /** With only bit 63 set, `getBit(63)` answers false although bit 63
      reads 1. */
  lemma GetBitMissesHighBit()
    ensures var bf := Bitfield([0x8000_0000_0000_0000], false);
      !GetBit(bf, 63) && LogicalBit(bf, 63)
  {
    Pow2Long();
    BitPow2(63, 63);
    var bf := Bitfield([0x8000_0000_0000_0000], false);
    forall p | 0 <= p < 1
      ensures !LogicalBit(bf, p)
    {
      BitPow2(63, p);
    }
  }

  /** So `setBit(i)` need not make `getBit(i)` answer true: on a one-word
      zero Bitfield, `setBit(63)` leaves only bit 63 set and `getBit(63)`
      then answers false. */
  lemma SetBitThenGetBitFails()
    ensures !GetBit(SetBitOf(Bitfield([0], false), 63), 63)
  {
    var r := SetBitOf(Bitfield([0], false), 63);
    SetBitOfReads(Bitfield([0], false), 63, 0);
    BitZero(0);
    assert 64 * |r.field| > 63 by {
      SetBitOfReads(Bitfield([0], false), 63, 63);
    }
  }

  /** And `flipBit` need not flip: with bits 0 and 1 set, `getBit(1)` answers
      true, so `flipBit(1)` clears bit 1; `getBit(1)` still answers true
      (bit 0 is set), so a second `flipBit(1)` clears it again instead of
      restoring it. */
  lemma FlipBitTwiceLosesBit()
    ensures var bf := Bitfield([3], false);
      LogicalBit(bf, 1) && !LogicalBit(FlipBitOf(FlipBitOf(bf, 1), 1), 1)
  {
    var bf := Bitfield([3], false);
    assert LogicalBit(bf, 0) && LogicalBit(bf, 1);
    assert GetBit(bf, 1);
    var once := FlipBitOf(bf, 1);
    UnsetBitOfReads(bf, 1, 0);
    UnsetBitOfReads(bf, 1, 1);
    assert GetBit(once, 1);
    UnsetBitOfReads(once, 1, 1);
  }
}
