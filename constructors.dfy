/** The public constructors of Bitfield.java:16-94: from a length, from a
    `boolean[]` and from a `byte[]`.
    The copy constructor is Bitfields.Copy. Every constructor that takes a
    length throws IllegalArgumentException for a length that is not
    positive; that is the `Err` result here. */
module Constructors {
  import opened Words
  import opened Bitfields

  // ---- from a length ----

  /** Java `Bitfield(int l, boolean i)`: `ceil(l / 64)` zero words under flag
      `i`, so at least one word, enough for `l` bits, and every position
      reads `i`. */
  function FromLength(l: int, i: bool): (r: Result<Bitfield>)
    ensures r.Err? <==> l <= 0
    ensures r.Err? ==> r.error == IllegalArgument
    ensures r.Ok? ==> (r.value.inverted == i && |r.value.field| >= 1
      && 64 * (|r.value.field| - 1) < l <= 64 * |r.value.field|)
  {
    if l <= 0 then Err(IllegalArgument)
    else Ok(Bitfield(seq(WordLengthFromBitLength(l), _ => 0), i))
  }

  /** A Bitfield built from a length reads its flag at every position. */
  lemma FromLengthReads(l: int, i: bool, p: int)
    requires l > 0
    ensures LogicalBit(FromLength(l, i).value, p) == i
  {
    BitZero(p % 64);
  }

  /** Java `Bitfield(int l)`: not inverted. */
  function FromLengthPlain(l: int): (r: Result<Bitfield>)
    ensures r.Err? <==> l <= 0
    ensures r.Ok? ==> !r.value.inverted && forall p :: !LogicalBit(r.value, p)
  {
    var r := FromLength(l, false);
    assert r.Ok? ==> forall p :: !LogicalBit(r.value, p) by {
      if r.Ok? {
        forall p
          ensures !LogicalBit(r.value, p)
        {
          FromLengthReads(l, false, p);
        }
      }
    }
    r
  }

  /** Java `Bitfield()`: one zero word, not inverted. */
  function Empty(): (r: Bitfield)
    ensures r.field == [0] && !r.inverted
  {
    FromLengthPlain(1).value
  }

  // ---- from a boolean[] ----

  /** Java `1 << k` ORed into a `long`: an `int` shift, so the distance is
      `k mod 32`, and the `int` result is sign-extended to 64 bits. */
  function IntBit(k: int): Long
  {
    IntToLong(IntShiftLeft(1, k))
  }

  /** So `1 << k` has bit `k mod 32` alone, except that `1 << 31` is
      negative and has bits 31 to 63. */
  lemma BitIntBit(k: int, p: nat)
    requires p < 64
    ensures Bit(IntBit(k), p) == if k % 32 == 31 then p >= 31 else p == k % 32
  {
    BitIntOne(k, p);
  }

  /** Below 31, `1 << k` has bit `k` alone. */
  lemma BitIntBitLow(k: int, p: nat)
    requires 0 <= k < 31 && p < 64
    ensures Bit(IntBit(k), p) == (p == k)
  {
    assert k % 32 == k;
    BitIntBit(k, p);
  }

  /** At 31, `1 << k` is the sign bit, which the widening copies upwards. */
  lemma BitIntBitTop(p: nat)
    requires p < 64
    ensures Bit(IntBit(31), p) == (p >= 31)
  {
    assert 31 % 32 == 31;
    BitIntBit(31, p);
  }

  /** The word the bool constructor's inner loop leaves after `c` rounds
      over the booleans starting at `base`: `IntBit(k)` ORed in for each
      `k < c` whose boolean is set. */
  function BoolWord(bits: seq<bool>, base: int, c: nat): Long
    requires 0 <= base && base + c <= |bits|
  {
    if c == 0 then 0
    else if bits[base + c - 1] then LongOr(BoolWord(bits, base, c - 1), IntBit(c - 1))
    else BoolWord(bits, base, c - 1)
  }

  /** Bit `p` of that word is set exactly when some set boolean's `IntBit`
      has bit `p`. */
  lemma {:induction false} BoolWordBits(bits: seq<bool>, base: int, c: nat, p: nat)
    requires 0 <= base && base + c <= |bits| && p < 64
    ensures Bit(BoolWord(bits, base, c), p)
      <==> exists k :: 0 <= k < c && bits[base + k] && Bit(IntBit(k), p)
  {
    if c == 0 {
      BitZero(p);
    } else {
      BoolWordBits(bits, base, c - 1, p);
      if bits[base + c - 1] {
        BitOr(BoolWord(bits, base, c - 1), IntBit(c - 1), p);
      }
    }
  }

  /** The bool constructor reads `bits[(length - 1) * 64 + k]` for every
      `k < l mod 64`, even when `length` is 0 or the booleans run out: it
      throws unless those reads stay inside the array. */
  predicate BoolsInBounds(n: nat, l: int)
  {
    var length := WordLengthFromBitLength(Min(l, n));
    l % 64 == 0 || (length >= 1 && 64 * (length - 1) + l % 64 <= n)
  }

  /** The number of booleans the constructor copies into word `j`: 64 for
      every word but the last, and `l mod 64` for the last. */
  function CopiedCount(length: int, l: int, j: int): nat
  {
    if j < length - 1 then 64 else l % 64
  }

  /** The words the bool constructor builds: `ceil(min(l, n) / 64)` of them,
      word `j` built by `BoolWord` from the booleans at `64 * j`. */
  function BoolsField(bits: seq<bool>, l: int): (f: seq<Long>)
    requires l > 0 && BoolsInBounds(|bits|, l)
    ensures 64 * (|f| - 1) < Min(l, |bits|) <= 64 * |f|
  {
    var length := WordLengthFromBitLength(Min(l, |bits|));
    seq(length, j requires 0 <= j < length => BoolWord(bits, 64 * j, CopiedCount(length, l, j)))
  }

  /** What `Bitfield(boolean[] bits, boolean i, int l)` returns. */
  function BoolsOf(bits: seq<bool>, i: bool, l: int): Result<Bitfield>
    requires l > 0 ==> BoolsInBounds(|bits|, l)
  {
    if l <= 0 then Err(IllegalArgument) else Ok(Bitfield(BoolsField(bits, l), i))
  }

  /** The loop both loops of the bool constructor run over one word: for
      each `k < count` whose boolean `bits[64 * j + k]` is set, OR `1 << k`
      into `a[j]`, which starts at 0. */
  method FillWord(a: array<Long>, bits: seq<bool>, j: int, count: nat)
    requires 0 <= j < a.Length && 64 * j + count <= |bits| && a[j] == 0
    modifies a
    ensures a[..] == old(a[..])[j := BoolWord(bits, 64 * j, count)]
  {
    var k := 0;
    while k < count
      invariant 0 <= k <= count
      invariant a[..] == old(a[..])[j := BoolWord(bits, 64 * j, k)]
    {
      if bits[j * 64 + k] {
        a[j] := LongOr(a[j], IntBit(k));
      }
      k := k + 1;
    }
  }

  /** Java `Bitfield(boolean[] bits, boolean i, int l)`: the words before the
      last get all 64 of their booleans, the last word its first
      `l mod 64`. When there are no words `l mod 64` is 0 (anything else
      throws), so the last loop runs only when there is a last word. */
  method FromBools(bits: seq<bool>, i: bool, l: int) returns (r: Result<Bitfield>)
    requires l > 0 ==> BoolsInBounds(|bits|, l)
    ensures r == BoolsOf(bits, i, l)
  {
    if l <= 0 {
      return Err(IllegalArgument);
    }
    var length := WordLengthFromBitLength(Min(l, |bits|));
    var field := new Long[length](_ => 0);
    var j := 0;
    while j < length - 1
      invariant 0 <= j <= length
      invariant j < length || length == 0
      invariant forall w :: 0 <= w < j ==> field[w] == BoolWord(bits, 64 * w, 64)
      invariant forall w :: j <= w < length ==> field[w] == 0
    {
      FillWord(field, bits, j, 64);
      j := j + 1;
    }
    if length >= 1 {
      FillWord(field, bits, length - 1, l % 64);
    }
    assert field[..] == BoolsField(bits, l);
    r := Ok(Bitfield(field[..], i));
  }

  /** With the length taken from the array, the reads always stay inside it. */
  lemma FullLengthInBounds(n: nat)
    ensures BoolsInBounds(n, n)
  {
  }

  /** Java `Bitfield(boolean[] bits, boolean i)`: the length is
      `bits.length`, so only an empty array is refused. */
  method FromBoolsFull(bits: seq<bool>, i: bool) returns (r: Result<Bitfield>)
    ensures r.Err? <==> |bits| == 0
    ensures r.Ok? ==> r == BoolsOf(bits, i, |bits|)
  {
    FullLengthInBounds(|bits|);
    r := FromBools(bits, i, |bits|);
  }

  /** Java `Bitfield(boolean[] bits, int l)`: not inverted. */
  method FromBoolsPlain(bits: seq<bool>, l: int) returns (r: Result<Bitfield>)
    requires l > 0 ==> BoolsInBounds(|bits|, l)
    ensures r.Err? <==> l <= 0
    ensures r.Ok? ==> r == BoolsOf(bits, false, l) && !r.value.inverted
  {
    r := FromBools(bits, false, l);
  }

  /** Java `Bitfield(boolean[] bits)`: full length, not inverted. */
  method FromBoolsDefault(bits: seq<bool>) returns (r: Result<Bitfield>)
    ensures r.Err? <==> |bits| == 0
    ensures r.Ok? ==> r == BoolsOf(bits, false, |bits|) && !r.value.inverted
  {
    r := FromBoolsFull(bits, false);
  }

  /** All-false booleans give zero words. */
  lemma {:induction false} BoolWordAllFalse(bits: seq<bool>, base: int, c: nat)
    requires 0 <= base && base + c <= |bits|
    requires forall q :: base <= q < base + c ==> !bits[q]
    ensures BoolWord(bits, base, c) == 0
  {
    if c > 0 {
      BoolWordAllFalse(bits, base, c - 1);
    }
  }

  lemma BoolsAllFalse(bits: seq<bool>, l: int)
    requires l > 0 && BoolsInBounds(|bits|, l)
    requires forall q :: 0 <= q < |bits| ==> !bits[q]
    ensures forall w :: 0 <= w < |BoolsField(bits, l)| ==> BoolsField(bits, l)[w] == 0
  {
    var f := BoolsField(bits, l);
    forall w | 0 <= w < |f|
      ensures f[w] == 0
    {
      BoolWordAllFalse(bits, 64 * w, CopiedCount(|f|, l, w));
    }
  }

  /** A word whose set booleans all sit below position 31 gets exactly
      the first `c` of them. */
  lemma BoolWordLowBits(bits: seq<bool>, base: int, c: nat, q: nat)
    requires 0 <= base && base + c <= |bits| && c <= 64 && q < 64
    requires forall t :: base <= t < base + c && bits[t] ==> t < base + 31
    ensures Bit(BoolWord(bits, base, c), q) == (q < c && bits[base + q])
  {
    BoolWordBits(bits, base, c, q);
    if q < c && bits[base + q] {
      BitIntBitLow(q, q);
      assert bits[base + q] && Bit(IntBit(q), q);
    }
    if k :| 0 <= k < c && bits[base + k] && Bit(IntBit(k), q) {
      assert base + k < base + 31;
      BitIntBitLow(k, q);
    }
  }

  /** Where no boolean at an in-word position of 31 or more is set, the
      constructor copies exactly: bit `p` is set when `p` is among the
      copied booleans (all of every word but the last, the first
      `l mod 64` of the last) and `bits[p]` is set. */
  lemma BoolsReadsLowBits(bits: seq<bool>, l: int, p: int)
    requires l > 0 && BoolsInBounds(|bits|, l)
    requires forall q :: 0 <= q < |bits| && bits[q] ==> q % 64 < 31
    ensures var f := BoolsField(bits, l);
      StoredBit(f, p)
      == (0 <= p < 64 * |f| && p % 64 < CopiedCount(|f|, l, p / 64) && bits[p])
  {
    var f := BoolsField(bits, l);
    if 0 <= p < 64 * |f| {
      var j := p / 64;
      var base, c := 64 * j, CopiedCount(|f|, l, j);
      forall t | base <= t < base + c && bits[t]
        ensures t < base + 31
      {
        assert t % 64 == t - base;
      }
      BoolWordLowBits(bits, base, c, p % 64);
      assert base + p % 64 == p;
    }
  }

  /** In any word but the last, a set boolean at in-word position below 32
      is copied. */
  lemma BoolsCopiesLowBit(bits: seq<bool>, l: int, p: int)
    requires l > 0 && BoolsInBounds(|bits|, l)
    requires 0 <= p < 64 * (|BoolsField(bits, l)| - 1) && p % 64 < 32 && bits[p]
    ensures StoredBit(BoolsField(bits, l), p)
  {
    var j, q := p / 64, p % 64;
    assert BoolsField(bits, l)[j] == BoolWord(bits, 64 * j, 64);
    BitIntBit(q, q);
    assert 64 * j + q == p;
    assert bits[64 * j + q] && Bit(IntBit(q), q);
    BoolWordBits(bits, 64 * j, 64, q);
  }

  /** The `int` shift wraps: a set boolean at position 32 of a word that is
      not the last sets bit 0 of that word, not bit 32. */
  lemma BoolsShiftWraps()
    ensures var bits := seq(65, q => q == 32);
      BoolsInBounds(|bits|, 65) && StoredBit(BoolsField(bits, 65), 0)
      && !StoredBit(BoolsField(bits, 65), 32)
  {
    var bits := seq(65, q => q == 32);
    var f := BoolsField(bits, 65);
    assert |f| == 2 && f[0] == BoolWord(bits, 0, 64);
    BoolWordBits(bits, 0, 64, 0);
    BitIntBit(32, 0);
    assert bits[32];
    BoolWordBits(bits, 0, 64, 32);
    forall k | 0 <= k < 64 && bits[k]
      ensures !Bit(IntBit(k), 32)
    {
      BitIntBit(k, 32);
    }
  }

  /** The `int` shift sign-extends: a set boolean at position 31 sets bits
      31 to 63 of its word. */
  lemma BoolsShiftSignExtends(bits: seq<bool>, p: int)
    requires |bits| == 65 && bits[31] && 31 <= p < 64
    ensures BoolsInBounds(|bits|, 65) && StoredBit(BoolsField(bits, 65), p)
  {
    var f := BoolsField(bits, 65);
    assert |f| == 2 && f[0] == BoolWord(bits, 0, 64);
    BitIntBitTop(p);
    assert bits[0 + 31] && Bit(IntBit(31), p);
    BoolWordBits(bits, 0, 64, p);
    assert Bit(f[0], p);
    assert p / 64 == 0 && p % 64 == p;
  }

  /** The last word gets `l mod 64` booleans rather than the rest of them,
      so when `l` is a multiple of 64 it stays 0 whatever the booleans. */
  lemma BoolsLastWordEmpty(bits: seq<bool>, l: int)
    requires l > 0 && BoolsInBounds(|bits|, l) && l % 64 == 0
    requires |bits| > 0
    ensures var f := BoolsField(bits, l);
      |f| >= 1 && f[|f| - 1] == 0
  {
  }

  /** The last word gets `l mod 64` booleans rather than the rest of them:
      64 set booleans with length 64 give one zero word. */
  lemma BoolsDropsFullLastWord()
    ensures var bits := seq(64, q => true);
      BoolsInBounds(|bits|, 64) && BoolsField(bits, 64) == [0]
  {
  }

  /** An empty array with a length that is a multiple of 64 allocates
      `ceil(l / 64)` words of which neither loop fills any, and the result
      has no words at all: 0 booleans with length 64. */
  lemma BoolsEmptyArrayNoWords(i: bool)
    ensures BoolsInBounds(0, 64) && BoolsOf([], i, 64) == Ok(Bitfield([], i))
  {
    assert WordLengthFromBitLength(Min(64, 0)) == 0;
  }

  /** A length beyond the array whose remainder mod 64 reaches past the
      last boolean makes the constructor throw: 10 booleans with length
      100. */
  lemma BoolsLengthPastArrayThrows()
    ensures !BoolsInBounds(10, 100)
  {
  }

  // ---- from a byte[] ----

  /** Java `bits[j * 8 + k] << k` ORed into a `long`: the byte is widened to
      an `int` (sign-extended), shifted by `k` bits as an `int`, and widened
      again. */
  function ByteTerm(b: Byte, k: int): Long
  {
    IntToLong(IntShiftLeft(ByteToInt(b), k))
  }

  /** For `k < 8`, bit `p` of that term is bit `p - k` of the byte, where
      positions above 31 read as 31 and then above 7 as 7 (the two sign
      extensions). */
  lemma BitByteTerm(b: Byte, k: nat, p: nat)
    requires k < 8 && p < 64
    ensures Bit(ByteTerm(b, k), p)
      == (k <= Min(p, 31) && Bit(b, Min(Min(p, 31) - k, 7)))
  {
    var wide := ByteToInt(b);
    var x := IntShiftLeft(wide, k);
    var j := Min(p, 31);
    BitIntToLong(x, p);
    assert Bit(ByteTerm(b, k), p) == Bit(x, j);
    BitIntShiftLeft(wide, k, j);
    assert k % 32 == k;
    if k <= j {
      BitByteToInt(b, j - k);
    }
  }

  /** The term for byte `k` of the word whose bytes start at `base`. */
  function ByteTermAt(bits: seq<Byte>, base: int, k: nat): Long
    requires 0 <= base && base + k < |bits|
  {
    ByteTerm(bits[base + k], k)
  }

  /** The word the byte constructor's inner loop leaves after `c` rounds over
      the bytes starting at `base`: the terms for each `k < c` ORed
      together. */
  function ByteWord(bits: seq<Byte>, base: int, c: nat): Long
    requires 0 <= base && base + c <= |bits|
  {
    if c == 0 then 0
    else LongOr(ByteWord(bits, base, c - 1), ByteTermAt(bits, base, c - 1))
  }

  /** Bit `p` of that word is set exactly when one of the ORed terms has it. */
  lemma {:induction false} ByteWordBits(bits: seq<Byte>, base: int, c: nat, p: nat)
    requires 0 <= base && base + c <= |bits| && p < 64
    ensures Bit(ByteWord(bits, base, c), p)
      <==> exists k :: 0 <= k < c && Bit(ByteTermAt(bits, base, k), p)
  {
    if c == 0 {
      BitZero(p);
    } else {
      ByteWordBits(bits, base, c - 1, p);
      BitOr(ByteWord(bits, base, c - 1), ByteTermAt(bits, base, c - 1), p);
    }
  }

  /** The byte constructor reads `bits[(length - 1) * 8 + k]` for every
      `k < l mod 8`: it throws unless those reads stay inside the array. */
  predicate BytesInBounds(n: nat, l: int)
  {
    var length := WordLengthFromBitLength(Min(l, 8 * n));
    l % 8 == 0 || (length >= 1 && 8 * (length - 1) + l % 8 <= n)
  }

  /** The words the byte constructor builds: `ceil(min(l, 8 n) / 64)` of them,
      word `j` built by `ByteWord` from the bytes at `8 * j`, eight of them
      for every word but the last and `l mod 8` for the last. */
  function BytesField(bits: seq<Byte>, l: int): (f: seq<Long>)
    requires l > 0 && BytesInBounds(|bits|, l)
    ensures 64 * (|f| - 1) < Min(l, 8 * |bits|) <= 64 * |f|
  {
    var length := WordLengthFromBitLength(Min(l, 8 * |bits|));
    seq(length, j requires 0 <= j < length =>
      ByteWord(bits, 8 * j, if j < length - 1 then 8 else l % 8))
  }

  /** What `Bitfield(byte[] bits, boolean i, int l)` returns. */
  function BytesOf(bits: seq<Byte>, i: bool, l: int): Result<Bitfield>
    requires l > 0 ==> BytesInBounds(|bits|, l)
  {
    if l <= 0 then Err(IllegalArgument) else Ok(Bitfield(BytesField(bits, l), i))
  }

  /** The loop both loops of the byte constructor run over one word: for each
      `k < count`, OR `bits[8 * j + k] << k` into `a[j]`, which starts at 0. */
  method FillByteWord(a: array<Long>, bits: seq<Byte>, j: int, count: nat)
    requires 0 <= j < a.Length && 8 * j + count <= |bits| && a[j] == 0
    modifies a
    ensures a[..] == old(a[..])[j := ByteWord(bits, 8 * j, count)]
  {
    var k := 0;
    while k < count
      invariant 0 <= k <= count
      invariant a[..] == old(a[..])[j := ByteWord(bits, 8 * j, k)]
    {
      a[j] := LongOr(a[j], ByteTerm(bits[j * 8 + k], k));
      assert ByteTerm(bits[j * 8 + k], k) == ByteTermAt(bits, 8 * j, k);
      k := k + 1;
    }
  }

  /** Java `Bitfield(byte[] bits, boolean i, int l)`. When there are no words
      `l mod 8` is 0 (anything else throws), so the last loop runs only when
      there is a last word. */
  method FromBytes(bits: seq<Byte>, i: bool, l: int) returns (r: Result<Bitfield>)
    requires l > 0 ==> BytesInBounds(|bits|, l)
    ensures r == BytesOf(bits, i, l)
  {
    if l <= 0 {
      return Err(IllegalArgument);
    }
    var length := WordLengthFromBitLength(Min(l, |bits| * 8));
    var field := new Long[length](_ => 0);
    var j := 0;
    while j < length - 1
      invariant 0 <= j <= length
      invariant j < length || length == 0
      invariant forall w :: 0 <= w < j ==> field[w] == ByteWord(bits, 8 * w, 8)
      invariant forall w :: j <= w < length ==> field[w] == 0
    {
      FillByteWord(field, bits, j, 8);
      j := j + 1;
    }
    if length >= 1 {
      FillByteWord(field, bits, length - 1, l % 8);
    }
    assert field[..] == BytesField(bits, l);
    r := Ok(Bitfield(field[..], i));
  }

  /** With the length `bits.length * 8` the reads stay inside the array, and
      as that length is a multiple of 8 the last word is left 0. */
  lemma BytesFullLength(bits: seq<Byte>)
    ensures BytesInBounds(|bits|, 8 * |bits|)
    ensures |bits| > 0 ==> var f := BytesField(bits, 8 * |bits|);
      f[|f| - 1] == 0
  {
    assert (8 * |bits|) % 8 == 0;
  }

  /** Java `Bitfield(byte[] bits, boolean i)`: the length is
      `bits.length * 8`, so only an empty array is refused. */
  method FromBytesFull(bits: seq<Byte>, i: bool) returns (r: Result<Bitfield>)
    ensures r.Err? <==> |bits| == 0
    ensures r.Ok? ==> r == BytesOf(bits, i, 8 * |bits|)
  {
    BytesFullLength(bits);
    r := FromBytes(bits, i, |bits| * 8);
  }

  /** Java `Bitfield(byte[] bits, int l)`: not inverted. */
  method FromBytesPlain(bits: seq<Byte>, l: int) returns (r: Result<Bitfield>)
    requires l > 0 ==> BytesInBounds(|bits|, l)
    ensures r.Err? <==> l <= 0
    ensures r.Ok? ==> r == BytesOf(bits, false, l) && !r.value.inverted
  {
    r := FromBytes(bits, false, l);
  }

  /** Java `Bitfield(byte[] bits)`: full length, not inverted. */
  method FromBytesDefault(bits: seq<Byte>) returns (r: Result<Bitfield>)
    ensures r.Err? <==> |bits| == 0
    ensures r.Ok? ==> r == BytesOf(bits, false, 8 * |bits|) && !r.value.inverted
  {
    r := FromBytesFull(bits, false);
  }

  /** An empty array with a length that is a multiple of 8 gives a result
      with no words: 0 bytes with length 8. */
  lemma BytesEmptyArrayNoWords(i: bool)
    ensures BytesInBounds(0, 8) && BytesOf([], i, 8) == Ok(Bitfield([], i))
  {
    assert WordLengthFromBitLength(Min(8, 0)) == 0;
  }

  /** A single byte with length 8 gives one zero word, whatever the byte:
      the words before the last are the only ones filled from all their
      bytes, and `8 mod 8` is 0. */
  lemma BytesDropSingleWord(b: Byte)
    ensures BytesInBounds(1, 8) && BytesField([b], 8) == [0]
  {
  }

  /** A byte below `0x80` shifted by `k < 8` has no bit at or above
      `k + 7`. */
  lemma ByteTermHighClear(b: Byte, k: nat, p: nat)
    requires b < 0x80 && k < 8 && k + 7 <= p < 64
    ensures !Bit(ByteTerm(b, k), p)
  {
    BitByteTerm(b, k, p);
    Pow2Byte();
    if k <= Min(p, 31) {
      BitAboveWidth(b, 7, Min(Min(p, 31) - k, 7));
    }
  }

  /** The one word built from two bytes with length 10. */
  lemma TwoBytesWord(b0: Byte, b1: Byte, p: nat)
    requires p < 64
    ensures BytesInBounds(2, 10)
    ensures var f := BytesField([b0, b1], 10);
      |f| == 1 && (Bit(f[0], p) <==> Bit(ByteTerm(b0, 0), p) || Bit(ByteTerm(b1, 1), p))
  {
    var bits := [b0, b1];
    assert BytesField(bits, 10)[0] == ByteWord(bits, 0, 2);
    ByteWordBits(bits, 0, 2, p);
    assert ByteTermAt(bits, 0, 0) == ByteTerm(b0, 0) && ByteTermAt(bits, 0, 1) == ByteTerm(b1, 1);
  }

  /** Bytes are shifted by their index within the word, not by 8 times it:
      for two bytes with length 10, bit 0 of the second byte lands on bit 1
      of the word, and bit 8 stays clear while the top bits of both bytes
      are clear, whatever the second byte's bit 0. */
  lemma BytesShiftByIndex(b0: Byte, b1: Byte)
    requires b0 < 0x80 && b1 < 0x80
    ensures BytesInBounds(2, 10)
    ensures var f := BytesField([b0, b1], 10);
      (Bit(b1, 0) ==> StoredBit(f, 1)) && !StoredBit(f, 8)
  {
    TwoBytesWord(b0, b1, 1);
    TwoBytesWord(b0, b1, 8);
    BitByteTerm(b1, 1, 1);
    ByteTermHighClear(b0, 0, 8);
    ByteTermHighClear(b1, 1, 8);
  }

  /** Bytes are sign-extended: one byte with its top bit set, with length 1,
      sets bit 63 of the word. */
  lemma BytesSignExtend(b: Byte)
    requires b >= 0x80
    ensures BytesInBounds(1, 1) && StoredBit(BytesField([b], 1), 63)
  {
    var bits := [b];
    assert BytesField(bits, 1)[0] == ByteWord(bits, 0, 1);
    BitByteTerm(b, 0, 63);
    Pow2Byte();
    TopBit(b, 8);
    assert Bit(ByteTermAt(bits, 0, 0), 63);
    ByteWordBits(bits, 0, 1, 63);
  }
}
