# Bitfield, modelled in Dafny

`Bitfield` is an immutable bit vector with no bound on its length. It stores a
prefix of 64-bit words (`long[] field`) plus an `inverted` flag. Word `w`
reads as `~field[w]` when the flag is set and as `field[w]` otherwise, and
every position past the stored words reads as the flag itself. `not` is
therefore O(1): it copies the words and flips the flag. The class offers
`and`, `or` and `xor`, single-bit `getBit`, `setBit`, `unsetBit` and
`flipBit`, and constructors from a length, a `boolean[]` or a `byte[]`.
Every operation builds a fresh array and returns a new instance.

The model follows `Bitfield.java` as written. It has six modules.

- `Words` (words.dfy) gives Java's `long`, `int` and `byte` values as their
  unsigned two's-complement bit patterns.
  - A pattern is an `int` between 0 and 2^64, 2^32 or 2^8.
  - `Bit(x, k)` is binary digit `k` of a pattern.
  - `&`, `|` and `^` are defined digit by digit; `~` is `2^64 - 1 - x`.
  - `<<` multiplies by a power of two and reduces mod 2^64. On an `int` the
    distance is taken mod 32 and the result mod 2^32.
  - Widening an `int` or a `byte` sign-extends it.
  - The lemmas say what each operator does to every bit.
- `Bitfields` (bitfield.dfy) holds:
  - the value `Bitfield(field, inverted)`;
  - the ghost readings `StoredBit`, the bits of the word sequence, and
    `LogicalBit`, the bit the value stands for at any integer position;
  - `getLong`, `getBit`, `not`, the copy constructor and `trim`.
- `Combinators` (combinators.dfy) holds `and`, `or` and `xor`.
- `SingleBits` (single_bit.dfy) holds `setBitInArray`, `unsetBitInArray`,
  `setBit`, `unsetBit`, `flipBit`, and what `getBit` actually answers.
- `Constructors` (constructors.dfy) holds the length, `boolean[]` and
  `byte[]` constructors and their overloads.
- `Intended` (intended.dfy) holds the corrected `getBit`, `flipBit`, bool
  constructor and byte constructor listed under Findings.

Each Java method that fills an array in a loop is a Dafny `method` with the
same loops over a fresh `array<long>`. Its `ensures` says that it builds a
reference function's value: `AndOf`, `XorOf`, `SetBitOf`, `BoolsField` and
so on. The lemmas then state, position by position, what that value reads
as through `LogicalBit`.

The Java exceptions that the class does not throw on purpose are
preconditions. These are the out-of-bounds reads of `or`/`xor` on unequal
word counts, of `setBit`/`unsetBit` on a negative index and of the
constructors' last-word loops. So is `setBit`/`unsetBit` at the largest `int`
index. `IllegalArgumentException` for a length that is not positive is the
`Err(IllegalArgument)` result.

On four points the code does something other than what its own structure
shows it is meant to do. The model follows the code.

- `or` and `xor` allocate `Math.max` of the two word counts
  (Bitfield.java:129, 156), so they are meant to combine operands of
  different lengths, the shorter one read as its flag beyond its words. The
  code reads both arrays up to the longer length, so it needs equal word
  counts.
- `getBit(i)` is meant to read bit `i`, the bit that `setBit(i)` and
  `unsetBit(i)` write with `1L << (i & 63)` into word `i >> 6`
  (Bitfield.java:178-190). `flipBit` relies on it. See Findings.
- The `boolean[]` and `byte[]` constructors allocate `ceil(min(l, n) / 64)`
  words, where `n` is the number of input bits (Bitfield.java:36, 66).
  So they are meant to copy the first `min(l, n)` bits into those words,
  one bit per position. See Findings.
- `trim` never drops word 0 (Bitfield.java:145), and the length
  constructors reject `l <= 0` and so allocate at least one word. So every
  Bitfield is meant to hold at least one word, and the code does not ensure
  it. An empty array with a length that is a multiple of 64 (for
  `boolean[]`) or of 8 (for `byte[]`) makes the constructor allocate no
  words, and `trim` and `xor` then keep that empty field. Such a value
  reads like the single zero word under the same flag. So the trimmed shape
  is canonical only among values with at least one word, and the lemmas
  about trimmed results say "given at least one word".

## Model

| member | source | states |
|---|---|---|
| Words.BitNot | Bitfield.java:109 | `~x` complements each of the 64 bits of `x` |
| Words.BitAnd | Bitfield.java:117 | bit `k` of `x & y` is bit `k` of `x` and of `y` |
| Words.BitOr | Bitfield.java:137 | bit `k` of the OR of `x` and `y` is bit `k` of `x` or of `y` |
| Words.BitXor | Bitfield.java:164 | bit `k` of `x ^ y` is set when exactly one of `x`, `y` has it |
| Words.LongZeroIffNoBit | Bitfield.java:175 | a `long` is 0 exactly when none of its 64 bits is set |
| Words.LongExtensionality | Bitfield.java:175 | two `long`s with the same 64 bits are equal |
| Words.BitShiftLeft | Bitfield.java:175 | bit `j` of `x << k` (k < 64) is bit `j - k` of `x`, and 0 below `k` |
| Words.ShiftLeftNonzero | Bitfield.java:175 | `x << k` is nonzero exactly when one of the lowest `64 - k` bits of `x` is set |
| Words.BitLongOne | Bitfield.java:182 | `1L << k` has bit `k` and no other |
| Words.BitIntShiftLeft | Bitfield.java:72 | the `int` shift `x << k` moves bits by `k mod 32` and drops those past bit 31 |
| Words.BitIntToLong | Bitfield.java:72 | widening an `int` to `long` keeps its 32 bits and repeats bit 31 above them |
| Words.BitByteToInt | Bitfield.java:41 | widening a `byte` to `int` keeps its 8 bits and repeats bit 7 above them |
| Words.BitIntOne | Bitfield.java:72 | `1 << k` widened to `long` has bit `k mod 32` alone, or bits 31 to 63 when `k mod 32` is 31 |
| Bitfields.WordLengthFromBitLength | Bitfield.java:12-14 | the word count `n` for `l` bits satisfies `64(n-1) < l <= 64n`: the ceiling of `l / 64` |
| Bitfields.GetLongBit | Bitfield.java:108-110 | `GetLong` models Java `getLong(index)`; bit `p mod 64` of `getLong(p / 64)` is the logical bit at `p`, the stored bit complemented when inverted |
| Bitfields.ShiftedWordNonzero | Bitfield.java:175 | `getLong(w) << k` is nonzero exactly when a logical bit of word `w` below position `64w + 64 - k` is set |
| Bitfields.GetBit | Bitfield.java:171-176 | outside the stored words (negative `i` included) the answer is the flag; inside, it is true exactly when some logical bit from `i - (i mod 64)` up to, but not including, `i - 2(i mod 64) + 64` is set |
| Bitfields.Not | Bitfield.java:102-106 | the same words with the flag negated; every position, stored or beyond, reads complemented |
| Bitfields.NotInvolutive | Bitfield.java:102-106 | `not(not(a))` has the same words and flag as `a` |
| Bitfields.Copy | Bitfield.java:96-100 | the copy has the same words and flag and reads the same everywhere |
| Bitfields.Trim | Bitfield.java:144-153 | the while loop and copy return `Trimmed(bf)`: the words up to the last nonzero one, never fewer than one when there was at least one word (an empty field stays empty) |
| Bitfields.TrimmedShape | Bitfield.java:144-153 | trim keeps the flag and a prefix of the words; a non-empty input gives one word or a nonzero last word; every dropped word was 0 |
| Bitfields.TrimmedKeepsBits | Bitfield.java:144-153 | trim changes no logical bit at any position |
| Bitfields.TrimmedFixesTrimmed | Bitfield.java:144-153 | a value already in trimmed shape is returned unchanged |
| Bitfields.TrimIdempotent | Bitfield.java:144-153 | trimming twice is trimming once |
| Bitfields.LongerReadsDifferently | Bitfield.java:144-153 | a trimmed value with more words than another value with the same flag and at least one word reads differently somewhere |
| Bitfields.EmptyFieldReadsAsZeroWord | Bitfield.java:144-153 | a Bitfield with no words reads like the single zero word under the same flag, and `trim` leaves it without words |
| Bitfields.TrimmedUnique | Bitfield.java:144-153 | two trimmed values with the same flag that read the same everywhere are equal: the trimmed shape is canonical |
| Combinators.And | Bitfield.java:112-126 | both loops, including the De Morgan form `~(~fa & ~fb)` for two inverted operands, build `AndOf(a, b)`: as many words as the shorter operand, flag `a.inverted && b.inverted` |
| Combinators.AndOfBit | Bitfield.java:112-126 | the result has as many words as the shorter operand, and inside those words every logical bit is the AND of the operands' bits |
| Combinators.AndOfBitEverywhere | Bitfield.java:112-126 | the AND law holds at every position when the word counts are equal or the operand with fewer words is not inverted |
| Combinators.AndOfTruncationLosesBits | Bitfield.java:113 | otherwise it can fail: `[0]` inverted AND `[0, 1]` inverted reads 1 at position 64, where the second operand reads 0 |
| Combinators.Or | Bitfield.java:128-142 | with equal word counts, both loops build `OrOf(a, b)`: flag set when either operand is inverted, words stored under that flag |
| Combinators.OrOfBit | Bitfield.java:128-142 | every logical bit of `or`, at every position, is the OR of the operands' bits |
| Combinators.Xor | Bitfield.java:155-169 | with equal word counts, the loops and the final trim build `XorOf(a, b)`, whose flag is `a.inverted != b.inverted` |
| Combinators.XorOfBit | Bitfield.java:155-169 | every logical bit of `xor` is the XOR of the operands' bits, and the result is trimmed when the operands have at least one word |
| SingleBits.WithBitSetBits | Bitfield.java:178-183 | ORing in `1L << (i & 63)` at word `i >> 6` sets stored bit `i` and changes no other |
| SingleBits.WithBitClearedBits | Bitfield.java:185-190 | ANDing with `~(1L << (i & 63))` clears stored bit `i` and changes no other |
| SingleBits.SetBitInArray | Bitfield.java:178-183 | the array afterwards has stored bit `i` set and every other stored bit as before |
| SingleBits.UnsetBitInArray | Bitfield.java:185-190 | the array afterwards has stored bit `i` clear and every other stored bit as before |
| SingleBits.Padded | Bitfield.java:193-194 | copying into a longer zero-filled array adds no stored bit |
| SingleBits.SetLength | Bitfield.java:193 | `max(i + 1, words)` is at least the old word count and covers word `i / 64` |
| SingleBits.SetBit | Bitfield.java:192-201 | copy, set (or, when inverted, clear) bit `i`, then trim, which builds `SetBitOf(bf, i)` |
| SingleBits.UnsetBit | Bitfield.java:203-212 | the same with the branches swapped, which builds `UnsetBitOf(bf, i)` |
| SingleBits.SetBitOfReads | Bitfield.java:192-201 | after `setBit(i)`, position `i` reads 1, every other position reads as before, the flag is kept and the result is trimmed |
| SingleBits.UnsetBitOfReads | Bitfield.java:203-212 | after `unsetBit(i)`, position `i` reads 0, every other position reads as before, the flag is kept and the result is trimmed |
| SingleBits.SetBitOfUnique | Bitfield.java:192-201 | `setBit(i)` is the only trimmed value with the same flag that reads 1 at `i` and as before elsewhere |
| SingleBits.SetBitOfIdempotent | Bitfield.java:192-201 | setting a bit twice is setting it once |
| SingleBits.UnsetUndoesSet | Bitfield.java:192-212 | `unsetBit(i)` after `setBit(i)` reads as the original wherever the original read 0 at `i` |
| SingleBits.FlipBit | Bitfield.java:214-216 | calls `unsetBit` when `getBit(i)` is true and `setBit` otherwise, which builds `FlipBitOf(bf, i)` |
| SingleBits.FlipBitOfReads | Bitfield.java:214-216 | after `flipBit(i)`, position `i` reads `!getBit(i)`, every other position reads as before, and the result is trimmed |
| SingleBits.GetBitZeroWord | Bitfield.java:175 | `getBit(i)` is false when the effective word holding `i` is 0 |
| SingleBits.GetBitAllOnesWord | Bitfield.java:175 | `getBit(i)` is true when the effective word holding `i` is all ones |
| SingleBits.GetBitLowHalf | Bitfield.java:175 | in the low 32 positions of a word, a set bit makes `getBit` answer true |
| SingleBits.GetBitReadsOtherBits | Bitfield.java:175 | with only bit 0 set, `getBit(1)` answers true although bit 1 reads 0 |
| SingleBits.GetBitMissesHighBit | Bitfield.java:175 | with only bit 63 set, `getBit(63)` answers false although bit 63 reads 1 |
| SingleBits.SetBitThenGetBitFails | Bitfield.java:171-201 | on a one-word zero value, `getBit(63)` after `setBit(63)` answers false |
| SingleBits.FlipBitTwiceLosesBit | Bitfield.java:214-216 | with bits 0 and 1 set, flipping bit 1 twice leaves it 0 |
| Constructors.FromLength | Bitfield.java:16-22 | `l <= 0` gives IllegalArgument; otherwise at least one word, enough for `l` bits (`64(n-1) < l <= 64n`), with flag `i` |
| Constructors.FromLengthReads | Bitfield.java:16-22 | a value built from a length reads its flag at every position |
| Constructors.FromLengthPlain | Bitfield.java:24-26 | `Bitfield(l)` is refused for `l <= 0`, is not inverted and reads 0 everywhere |
| Constructors.Empty | Bitfield.java:28-30 | `Bitfield()` is one zero word, not inverted |
| Constructors.BitIntBit | Bitfield.java:72 | the `1 << k` ORed into a word has bit `k mod 32` alone, or bits 31 to 63 when `k mod 32` is 31 |
| Constructors.BoolWordBits | Bitfield.java:69-81 | a word built by the inner loop has bit `p` exactly when some set boolean's `1 << k` has bit `p` |
| Constructors.BoolsField | Bitfield.java:66-67 | the bool constructor allocates `ceil(min(l, n) / 64)` words |
| Constructors.FillWord | Bitfield.java:69-81 | the loop over one word leaves that word equal to `BoolWord` and every other word unchanged |
| Constructors.FromBools | Bitfield.java:62-82 | `l <= 0` gives IllegalArgument; otherwise the loops build `BoolsField(bits, l)` under flag `i` |
| Constructors.FullLengthInBounds | Bitfield.java:84-86 | with `l = bits.length` the last-word loop stays inside the array |
| Constructors.FromBoolsFull | Bitfield.java:84-86 | `Bitfield(bits, i)` is refused only for an empty array and otherwise equals `Bitfield(bits, i, bits.length)` |
| Constructors.FromBoolsPlain | Bitfield.java:88-90 | `Bitfield(bits, l)` is the three-argument constructor with flag false |
| Constructors.FromBoolsDefault | Bitfield.java:92-94 | `Bitfield(bits)` is refused only for an empty array, and is not inverted |
| Constructors.BoolWordAllFalse | Bitfield.java:69-81 | a word whose booleans are all false stays 0 |
| Constructors.BoolsAllFalse | Bitfield.java:62-82 | all-false booleans leave every word 0 |
| Constructors.BoolWordLowBits | Bitfield.java:69-81 | a word whose set booleans all sit below position 31 gets exactly its first `c` booleans |
| Constructors.BoolsReadsLowBits | Bitfield.java:62-82 | with no set boolean at an in-word position of 31 or more, stored bit `p` is `bits[p]` for every copied position and 0 elsewhere |
| Constructors.BoolsCopiesLowBit | Bitfield.java:69-75 | in any word but the last, a set boolean at in-word position below 32 sets its stored bit |
| Constructors.BoolsShiftWraps | Bitfield.java:72 | a set boolean at position 32 of a word sets bit 0 of that word, not bit 32 |
| Constructors.BoolsShiftSignExtends | Bitfield.java:72 | a set boolean at position 31 sets bits 31 to 63 of its word |
| Constructors.BoolsLastWordEmpty | Bitfield.java:77-81 | when `l` is a multiple of 64 the last word stays 0 whatever the booleans |
| Constructors.BoolsDropsFullLastWord | Bitfield.java:77-81 | 64 true booleans with `l = 64` give the single word 0 |
| Constructors.BoolsEmptyArrayNoWords | Bitfield.java:62-82 | an empty `boolean[]` with `l = 64` gives a Bitfield with no words |
| Constructors.BoolsLengthPastArrayThrows | Bitfield.java:77-78 | 10 booleans with `l = 100` make the last-word loop read past the array |
| Constructors.BitByteTerm | Bitfield.java:41 | bit `p` of `bits[...] << k` (k < 8) widened to `long` is bit `p - k` of the byte, sign-extended at both widenings |
| Constructors.ByteWordBits | Bitfield.java:39-46 | a word built by the byte loop has bit `p` exactly when one of the ORed byte terms has it |
| Constructors.BytesField | Bitfield.java:37-38 | the byte constructor allocates `ceil(min(l, 8n) / 64)` words |
| Constructors.FillByteWord | Bitfield.java:39-46 | the loop over one word leaves that word equal to `ByteWord` and every other word unchanged |
| Constructors.FromBytes | Bitfield.java:32-48 | `l <= 0` gives IllegalArgument; otherwise the loops build `BytesField(bits, l)` under flag `i` |
| Constructors.BytesFullLength | Bitfield.java:50-52 | with `l = bits.length * 8` the reads stay inside the array and the last word is left 0 |
| Constructors.FromBytesFull | Bitfield.java:50-52 | `Bitfield(bytes, i)` is refused only for an empty array and otherwise equals `Bitfield(bytes, i, 8n)` |
| Constructors.FromBytesPlain | Bitfield.java:54-56 | `Bitfield(bytes, l)` is the three-argument constructor with flag false |
| Constructors.FromBytesDefault | Bitfield.java:58-60 | `Bitfield(bytes)` is refused only for an empty array, and is not inverted |
| Constructors.BytesDropSingleWord | Bitfield.java:39-46 | any single byte with `l = 8` gives the single word 0 |
| Constructors.BytesEmptyArrayNoWords | Bitfield.java:32-48 | an empty `byte[]` with `l = 8` gives a Bitfield with no words |
| Constructors.ByteTermHighClear | Bitfield.java:41 | a byte below `0x80` shifted by `k` has no bit at `k + 7` or above |
| Constructors.TwoBytesWord | Bitfield.java:45-46 | two bytes with `l = 10` give one word: byte 0 unshifted ORed with byte 1 shifted by one bit |
| Constructors.BytesShiftByIndex | Bitfield.java:41-46 | in that word, bit 0 of the second byte lands on bit 1, and bit 8 stays clear while both bytes are below `0x80` |
| Constructors.BytesSignExtend | Bitfield.java:45-46 | a single byte `>= 0x80` with `l = 1` sets bit 63 |
| Intended.TestBit | Bitfield.java:171-176 | the masked test `(getLong(i >> 6) & (1L << (i & 63))) != 0`, with the same out-of-range rule, answers exactly the logical bit `i` |
| Intended.TestBitInWord | Bitfield.java:175 | masking the effective word with `1L << (i mod 64)` leaves a nonzero word exactly when bit `i` reads 1 |
| Intended.FlipBitCorrectedReads | Bitfield.java:214-216 | `FlipBitCorrected` is `flipBit` deciding with the corrected test; it flips bit `i` and no other, keeps the flag and trims |
| Intended.FlipBitCorrectedTwice | Bitfield.java:214-216 | given at least one word, flipping the same bit twice gives back the original value, trimmed |
| Intended.PackedWordBits | Bitfield.java:69-81 | a word built with `1L << k` has bit `q` exactly when `q < c` and boolean `base + q` is set |
| Intended.PackBools | Bitfield.java:66-67 | the corrected bool constructor allocates `ceil(min(l, n) / 64)` words |
| Intended.PackBoolsReads | Bitfield.java:62-82 | round trip: stored bit `p` is `bits[p]` for every `p < min(l, n)` and 0 elsewhere |
| Intended.FromBoolsCorrected | Bitfield.java:62-82 | refused for `l <= 0`, and otherwise carries flag `i` |
| Intended.FromBoolsCorrectedReads | Bitfield.java:62-82 | the corrected constructor reads `bits[p]` (complemented when inverted) at each of the first `min(l, n)` positions and the flag beyond |
| Intended.BytesToBools | Bitfield.java:32-48 | the bits of `n` bytes, least significant first, are `8n` booleans |
| Intended.FromBytesCorrected | Bitfield.java:32-48 | refused for `l <= 0`, and otherwise carries flag `i` |
| Intended.FromBytesCorrectedReads | Bitfield.java:32-48 | the corrected byte constructor reads bit `p mod 8` of byte `p / 8` at each of the first `min(l, 8n)` positions and the flag beyond |

## Left out

- `toString(boolean)` and `toString()` (Bitfield.java:218-238) are a one-way debug rendering through `Long.toBinaryString`. As written they also do not compile, since `sb` is declared twice in one block.
- `clone()` (Bitfield.java:240-243) calls the copy constructor, which is Bitfields.Copy. `System.arraycopy` is a sequence copy.
- `Math.ceil` on a `double` (Bitfield.java:13) is modelled as the exact integer ceiling. The two agree for every `int`.
- Java's 32-bit lengths and indices are unbounded integers. The one exception is the `i + 1` overflow in `setBit`/`unsetBit`, excluded by a precondition (see below). The overflow of `bits.length * 8` for arrays of 2^28 bytes or more is not modelled.
- Running out of memory is not modelled. `setBit(i)` allocates `i + 1` words, a bit count used as a word count, so a large `i` can fail this way.
- The input arrays of the constructors are sequences, since the constructors only read them.
- Concurrency: the class is immutable and has no shared state.
- Combinators.Or and Combinators.Xor require equal word counts, because Java throws ArrayIndexOutOfBoundsException otherwise.
- SingleBits.SetBit, SingleBits.UnsetBit and SingleBits.FlipBit require `0 <= i < 2^31 - 1`, because a negative index throws. The one other index excluded is `i = 2^31 - 1`. There `i + 1` wraps to a negative number, so `Math.max` picks the old word count. Java then writes word `2^25 - 1` if the field has at least 2^25 words, and throws otherwise. That case is not modelled.
- Constructors.FromBools requires `BoolsInBounds`, and Constructors.FromBytes requires `BytesInBounds`: otherwise the last-word loop reads outside the array and Java throws.
- Words.ShiftLeft is defined only for distances below 64. Every `long` shift in the class is by `i & 63`. The constructors' shifts by a loop index are `int` shifts, modelled by Words.IntShiftLeft.

## Findings

| source | as written | input that shows it | evidently intended | confidence | as-written member | corrected member |
|---|---|---|---|---|---|---|
| Bitfield.java:175 | `getBit(i)` tests `(getLong(i >> 6) << (i & 63)) != 0`, which is true when any of the lowest `64 - (i mod 64)` logical bits of the word is set | field `[1]` not inverted, `i = 1`: true although bit 1 is 0 (and with field `[2^63]`, `getBit(63)` is false although bit 63 is 1) | answer logical bit `i` | not executed | SingleBits.GetBitReadsOtherBits | Intended.TestBit |
| Bitfield.java:214-216 | `flipBit(i)` chooses between `unsetBit` and `setBit` with that `getBit` | field `[3]` not inverted, `i = 1`, flipped twice: bit 1 ends 0 instead of 1 | flip logical bit `i`, so flipping twice restores the value | not executed | SingleBits.FlipBitTwiceLosesBit | Intended.FlipBitCorrectedTwice |
| Bitfield.java:72 | the bool constructor ORs in the `int` shift `1 << k`, which wraps at 32 and sign-extends at 31 | 65 booleans, only `bits[32]` true, `l = 65`: bit 0 set, bit 32 clear | `1L << k`, setting bit `k` | not executed | Constructors.BoolsShiftWraps | Intended.PackBoolsReads |
| Bitfield.java:77 | the last-word loop runs `l % 64` times | 64 true booleans with `l = 64`: the single word is 0 | copy the remaining `min(l, n) - 64(length - 1)` booleans | not executed | Constructors.BoolsDropsFullLastWord | Intended.PackBoolsReads |
| Bitfield.java:41 | the byte constructor shifts byte `k` of a word by `k` bits, not `8k` | bytes `[b0, b1]` below `0x80`, `l = 10`: bit 0 of `b1` lands on bit 1, bit 8 stays clear | byte `k` fills bits `8k` to `8k + 7` | not executed | Constructors.BytesShiftByIndex | Intended.FromBytesCorrectedReads |
| Bitfield.java:45 | the byte constructor's last-word loop runs `l % 8` times | any single byte with `l = 8`: the single word is 0 | copy the remaining bytes | not executed | Constructors.BytesDropSingleWord | Intended.FromBytesCorrectedReads |
| Bitfield.java:41 | bytes are sign-extended before being ORed in | a single byte `>= 0x80` with `l = 1`: bit 63 is set | only the byte's 8 bits are copied | not executed | Constructors.BytesSignExtend | Intended.FromBytesCorrectedReads |
