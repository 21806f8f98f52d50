# compact_bitset in Dafny

This project models `compact_bitset<N, T>` from `compact_bitset.h`. It is a
fixed-size bitset meant as a drop-in replacement for `std::bitset`. It packs
`N` bits into `NWords` unsigned words. The word type `T` is the narrowest of
8, 16, 32 or 64 bits that holds `N` bits, and 64 bits for larger `N`. The
project also models the nested `reference` proxy, the free bitwise operators,
stream extraction (`operator>>`) and the `std::hash` specialisation.

Modules:

- `Words`: one machine word as a natural number below `2^TBits`. It defines
  the word expressions the header uses: `T(1) << k`, `w >> k & 1`, `~w` stored
  back into `T`, `w & mask`, `w | bit` and `w & ~bit`. Each has a lemma giving
  its value on every bit.
- `Layout`: the compile-time constants `TBits`, `NFullyUsedWords`, `NBitsRem`,
  `NWords`, `AllMask` and `LastWordMask`, and where bit `i` lives
  (`i / TBits`, `i % TBits`).
- `Storage`: the `data` array as a sequence of words.
  - `BitsOf` is the abstract bitset that the words hold.
  - `PaddingClear` is the header's invariant that unused bits are 0.
  - The word-level tests that `all()`, `any()` and `operator==` perform are
    proved equivalent to their bit-level meaning.
- `BitSeq`: the abstract bitset as `seq<bool>`. It holds reference definitions
  for every operation (`And`, `Shl`, `CountOf`, `Value`, `ToStr`,
  `ParseString`, `Extracted`, `HashOf`) and lemmas relating them.
- `CompactBitsets`: the class `CompactBitset` updates its `data: array<nat>`
  in place, and the class `Reference` writes one bit of its owner's word.
  Every mutating or looping operation of the header is a method proved
  against the `BitSeq` definitions. The whole-word loops of `all()`, `any()`,
  `operator==`, `set()` and `flip()` work on words, and their results are tied
  to the bit-level meaning by the `Storage` lemmas.

Modelling choices and where the code and its description differ:

- Indeterminate storage is an explicit input.
  - `compact_bitset{Uninitialized}` leaves `data` indeterminate. It is
    modelled as a constructor that takes arbitrary well-formed words
    (`garbage`). Every operator that starts from it takes such a parameter.
  - Those operators write only bits `0 .. N-1`, so their results may have set
    padding bits despite the comment on `data` (line 34).
  - `Storage.PaddingInvisible` proves that padding never changes `Bits()`.
    Every query masks the last word, so every proved result holds whatever
    the padding.
- The string constructor treats its `n` argument as an absolute end index.
  It reads from `pos` up to `min(n, str.size())`, not `n` characters
  starting at `pos`. `pos >= str.size()` is out of range even when `N == 0`.
  The model follows the code.
- `std::hash` compares `N` with `sizeof(unsigned long)`, a byte count, not a
  bit count. Only bitsets of at most 8 bits hash to their integer value;
  larger ones hash their string form. The model follows the code.
- Throwing operations return `Result`. The errors are `OutOfRange`,
  `InvalidArgument` and `Overflow`. The string constructors are module-level
  methods that return `Result<CompactBitset>`, because a Dafny constructor
  cannot fail.

## Model

| member | source | states |
|---|---|---|
| Layout.WordBits | compact_bitset.h:17-22 | the word is 8, 16, 32 or 64 bits wide, holds `N` unless `N > 64`, and is the narrowest that does |
| Layout.Decompose | compact_bitset.h:27-29 | `FullWords` and `BitsRem`, the constants `NFullyUsedWords` and `NBitsRem`, split `N` as `N == NFullyUsedWords * TBits + NBitsRem` with `NBitsRem < TBits` |
| Layout.NWordsIsCeiling | compact_bitset.h:30 | `NWords`, `NFullyUsedWords + bool(NBitsRem)`, is the least number of words holding `N` bits; zero words exactly when `N == 0` |
| Layout.Locate | compact_bitset.h:54 | bit `i < N` lies in a full word or in the used part of the last word |
| Layout.Position | compact_bitset.h:54 | word `w`, offset `j` is bit `w * TBits + j`, and it is a real bit exactly when `j < NBitsRem` in the last word |
| Layout.SameLocation | compact_bitset.h:54 | two positions with the same word and offset are equal |
| Layout.LastWordMaskBits | compact_bitset.h:32 | `LastWordMask`, `(T(1) << NBitsRem) - 1`, has exactly the low `NBitsRem` bits set; it is 0 exactly when there is no partial word |
| Layout.AllMaskBits | compact_bitset.h:31 | `AllMask`, `~T(0)`, has every bit of the word set and fits in `T` |
| Words.BitOfMask | compact_bitset.h:32 | `(1 << k) - 1` has exactly bits `0 .. k-1` set |
| Words.BitOfMasked | compact_bitset.h:252 | `Masked(w, k)`, that is `w & mask(k)`, keeps bits below `k` and clears the rest |
| Words.MaskedIsMod | compact_bitset.h:252 | `w & mask(k)` equals `w mod 2^k` |
| Words.BitOfComplement | compact_bitset.h:305 | `Complement(w, TBits)`, `~w` stored in `T` inverts every bit of the word |
| Words.BitOfWithBit | compact_bitset.h:43 | `WithBit(w, k, b)`, that is `b ? w \| 1 << k : w & ~(1 << k)` changes bit `k` to `b` and no other bit |
| Words.WithBitFits | compact_bitset.h:43 | writing a bit below `TBits` keeps the word inside `T` |
| Words.SetBitAbove | compact_bitset.h:67 | or-ing `1 << i` into a value below `2^i` adds `2^i` |
| Words.BitOfShifted | compact_bitset.h:79 | bit `j` of `Shifted(val, k)`, that is `val >> k`, is bit `k + j` of `val` |
| Words.ShiftedZero | compact_bitset.h:79 | once `val >> k` is 0, every bit of `val` from `k` up is clear |
| Words.ShiftedStep | compact_bitset.h:79 | `val >>= 1` taken `k + 1` times is one more halving of `val >> k` |
| Words.PromotedComplement | compact_bitset.h:49 | `~b` on a `bool`, converted back to `bool`, is `true` for both values |
| Words.WordZero | compact_bitset.h:277 | a word is nonzero exactly when one of its bits is set |
| Words.WordAllOnes | compact_bitset.h:249 | a word equals `AllMask` exactly when all its bits are set |
| Words.WordEqual | compact_bitset.h:263 | two words are equal exactly when they agree on every bit |
| Words.MaskedZero | compact_bitset.h:280 | `w & mask(k)` is nonzero exactly when one of the low `k` bits is set |
| Words.MaskedAllOnes | compact_bitset.h:252 | `w & mask(k) == mask(k)` exactly when all low `k` bits are set |
| Words.MaskedEqual | compact_bitset.h:266 | masked words are equal exactly when they agree on the low `k` bits |
| Words.Extensionality | compact_bitset.h:34 | two values of `T` with the same bits are the same word |
| Storage.Where | compact_bitset.h:47 | bit `i` of the bitset is bit `i % TBits` of word `i / TBits` |
| Storage.WriteBitEffect | compact_bitset.h:43 | `WriteBit`, line 43 applied to word `pos / TBits` at offset `pos % TBits`: assigning through a reference changes exactly bit `pos` of the bitset and keeps clear padding clear |
| Storage.WriteBitAt | compact_bitset.h:43 | after the write, bit `i` reads `b` when `i == pos` and its old value otherwise |
| Storage.PaddingInvisible | compact_bitset.h:34 | the unused bits of the last word never change what the bitset holds |
| Storage.AllOnesExactly | compact_bitset.h:243-255 | every full word is `AllMask` and the masked last word is `LastWordMask` exactly when all `N` bits are set |
| Storage.AnyOneExactly | compact_bitset.h:271-283 | some full word is nonzero or the masked last word is nonzero exactly when some bit is set |
| Storage.EqualExactly | compact_bitset.h:257-269 | full words equal and masked last words equal exactly when the bitsets are equal |
| Storage.ZeroWordsEffect | compact_bitset.h:75 | all-zero words hold a bitset with every bit clear and clear padding |
| Storage.SetWordsEffect | compact_bitset.h:285-297 | the words `SetWords` (`SetWord` per word) writes, `AllMask` full words and a `LastWordMask` last word hold every bit set, padding clear |
| Storage.SetWordsBit | compact_bitset.h:285-297 | each bit of the `set()` words is set |
| Storage.FlipWordsEffect | compact_bitset.h:299-311 | `FlipWords` (`FlipWord` per word), inverting every full word and the masked last word inverts every bit and clears the padding |
| Storage.FlipWordsBit | compact_bitset.h:299-311 | each bit of the `flip()` words is the inverse of the old bit |
| BitSeq.ShlAt | compact_bitset.h:213-214 | bit `i` moves to `i + shift` under `<<` |
| BitSeq.CountIsCardinality | compact_bitset.h:234-241 | `count()` is the number of positions holding a set bit |
| BitSeq.CountComplement | compact_bitset.h:201-206 | `count(x) + count(~x) == N` |
| BitSeq.CountAllTrue | compact_bitset.h:285-297 | after `set()` the count is `N` |
| BitSeq.CountAllFalse | compact_bitset.h:75 | a default-constructed bitset counts 0 |
| BitSeq.Complementary | compact_bitset.h:177-206 | `x ^ x` is empty, `x & ~x` is empty, `x \| ~x` is full |
| BitSeq.ShiftsSaturate | compact_bitset.h:209-227 | shifting by `N` or more in either direction clears every bit |
| BitSeq.ShlThenShr | compact_bitset.h:209-227 | `(x << k) >> k` keeps exactly the bits below `N - k` |
| BitSeq.ValueBound | compact_bitset.h:59-69 | the integer built from `m` bits is below `2^m` |
| BitSeq.BitOfValue | compact_bitset.h:157-159 | bit `i` of the integer is bit `i` of the bitset, least significant first |
| BitSeq.ValueSnoc | compact_bitset.h:66-67 | or-ing bit `i` at position `i` adds `2^i` when it is set |
| BitSeq.ValueInjective | compact_bitset.h:157-159 | bitsets of equal size with equal integer values are equal |
| BitSeq.IntRoundTrip | compact_bitset.h:77-81 | the bits taken from `val` read back as `val mod 2^N` |
| BitSeq.ValueOfIntToBits | compact_bitset.h:77-81 | the same value is the low `N` bits of `val` |
| BitSeq.BitsRoundTrip | compact_bitset.h:161-166 | constructing from `to_ulong()` gives the bitset back |
| BitSeq.EmptyStringOutOfRange | compact_bitset.h:91 | `ParseString` finds the empty string out of range for every `N` and `pos`, `N == 0` included |
| BitSeq.FormatThenParse | compact_bitset.h:83-100 | `ParseString` of `to_string(zero, one)` of a non-empty bitset gives the bitset back |
| BitSeq.ParseThenFormat | compact_bitset.h:147-156 | for an all-digit string of length `1 .. N`, `to_string` of the parsed `N`-bit bitset is the string followed by `N - length` `zero` characters |
| BitSeq.CStrLen | compact_bitset.h:104 | `std::basic_string(str)` takes the characters before the first NUL of the array |
| BitSeq.NulReadIsInvalid | compact_bitset.h:94-98 | a NUL among the characters read makes `ParseString` report an invalid argument |
| BitSeq.PrefixLen | compact_bitset.h:328-337 | `operator>>` consumes at most `N` characters, all digits, and stops only at `N`, at the end, or before a non-digit |
| BitSeq.PrefixLenUnique | compact_bitset.h:328-337 | those three conditions fix the number of characters consumed |
| BitSeq.HashInjectiveSmall | compact_bitset.h:343-350 | under `HashOf`, bitsets of at most 8 bits never share a hash |
| CompactBitsets.CompactBitset.constructor | compact_bitset.h:75 | all words zero; every bit clear; padding clear |
| CompactBitsets.CompactBitset.Uninitialized | compact_bitset.h:70-72 | the words are whatever the storage held |
| CompactBitsets.CompactBitset.Copy | compact_bitset.h:107 | a fresh array with the same words and bits |
| CompactBitsets.CompactBitset.Assign | compact_bitset.h:110-114 | the words become the other bitset's words |
| CompactBitsets.CompactBitset.Size | compact_bitset.h:118 | `size()` is the number of bits |
| CompactBitsets.CompactBitset.Get | compact_bitset.h:117 | the const `operator[]` reads bit `pos` |
| CompactBitsets.CompactBitset.Index | compact_bitset.h:54 | the `reference` for `pos` points at word `pos / TBits`, offset `pos % TBits` |
| CompactBitsets.CompactBitset.Store | compact_bitset.h:116 | `(*this)[pos] = b` changes exactly bit `pos` |
| CompactBitsets.CompactBitset.Test | compact_bitset.h:120 | bit `pos`, or out of range when `pos >= N` |
| CompactBitsets.CompactBitset.Set | compact_bitset.h:134 | bit `pos` becomes `value`, or out of range and nothing changes |
| CompactBitsets.CompactBitset.Reset | compact_bitset.h:139 | bit `pos` becomes clear, or out of range and nothing changes |
| CompactBitsets.CompactBitset.Flip | compact_bitset.h:144 | bit `pos` is inverted, or out of range and nothing changes |
| CompactBitsets.CompactBitset.Count | compact_bitset.h:234-241 | the number of set bits |
| CompactBitsets.CompactBitset.All | compact_bitset.h:243-255 | true exactly when every bit is set, `N == 0` included |
| CompactBitsets.CompactBitset.Any | compact_bitset.h:271-283 | true exactly when some bit is set |
| CompactBitsets.CompactBitset.None | compact_bitset.h:129 | true exactly when no bit is set |
| CompactBitsets.CompactBitset.Equals | compact_bitset.h:257-269 | true exactly when the two bitsets hold the same bits |
| CompactBitsets.CompactBitset.NotEquals | compact_bitset.h:231 | true exactly when the bitsets differ |
| CompactBitsets.CompactBitset.SetAll | compact_bitset.h:285-297 | every bit set, padding clear |
| CompactBitsets.CompactBitset.ResetAll | compact_bitset.h:137 | every bit clear, padding clear |
| CompactBitsets.CompactBitset.FlipAll | compact_bitset.h:299-311 | every bit inverted, padding clear |
| CompactBitsets.CompactBitset.ToString | compact_bitset.h:147-156 | character `i` is `one` where bit `i` is set, `zero` elsewhere |
| CompactBitsets.CompactBitset.DoIntConvert | compact_bitset.h:59-69 | the integer whose bit `i` is bit `i` of the bitset, for the first `min(N, IntBits)` bits; below `2^IntBits` |
| CompactBitsets.CompactBitset.ToULong | compact_bitset.h:161-166 | overflow when `N` exceeds the width, otherwise the bitset's value |
| CompactBitsets.CompactBitset.ToULLong | compact_bitset.h:168-173 | overflow when `N > 64`, otherwise the bitset's value |
| CompactBitsets.CompactBitset.Negated | compact_bitset.h:201-206 | `~x` has every bit inverted |
| CompactBitsets.CompactBitset.ClearRange | compact_bitset.h:211-212 | the padding loops clear exactly bits `lo .. hi-1` |
| CompactBitsets.CompactBitset.ShiftLeft | compact_bitset.h:209-216 | `x << shift`: bit `i` is bit `i - shift` of `x`, clear below `shift` |
| CompactBitsets.CompactBitset.ShiftRight | compact_bitset.h:218-227 | `x >> shift`: bit `i` is bit `i + shift` of `x`, clear from `N - shift` up |
| CompactBitsets.CompactBitset.AndAssign | compact_bitset.h:198 | `x &= y` leaves `x & y` |
| CompactBitsets.CompactBitset.OrAssign | compact_bitset.h:199 | `x \|= y` leaves `x \| y` |
| CompactBitsets.CompactBitset.XorAssign | compact_bitset.h:200 | `x ^= y` leaves `x ^ y` |
| CompactBitsets.CompactBitset.ShiftLeftAssign | compact_bitset.h:217 | `x <<= k` leaves `x << k` |
| CompactBitsets.CompactBitset.ShiftRightAssign | compact_bitset.h:228 | `x >>= k` leaves `x >> k` |
| CompactBitsets.Reference.constructor | compact_bitset.h:40 | the proxy refers to word `pos / TBits`, offset `pos % TBits` of its owner |
| CompactBitsets.Reference.Value | compact_bitset.h:47 | converting the proxy to `bool` reads its bit |
| CompactBitsets.Reference.Assign | compact_bitset.h:43 | assigning `b` changes exactly the referenced bit |
| CompactBitsets.Reference.AssignFrom | compact_bitset.h:45 | assigning from another proxy copies that proxy's bit |
| CompactBitsets.Reference.Flip | compact_bitset.h:51 | the referenced bit is inverted |
| CompactBitsets.Reference.Complement | compact_bitset.h:49 | `operator~` as written is `true` whatever the bit |
| CompactBitsets.Reference.Inverse | compact_bitset.h:49 | `operator~` as intended is the inverse of the bit |
| CompactBitsets.Reference.ComplementDiffers | compact_bitset.h:49 | the written and intended `operator~` disagree exactly on a set bit |
| CompactBitsets.And | compact_bitset.h:177-183 | bit `i` of `lhs & rhs` is `lhs[i] && rhs[i]` |
| CompactBitsets.Or | compact_bitset.h:184-190 | bit `i` of `lhs \| rhs` is `lhs[i] \|\| rhs[i]` |
| CompactBitsets.Xor | compact_bitset.h:191-197 | bit `i` of `lhs ^ rhs` is `lhs[i] != rhs[i]` |
| CompactBitsets.FromInt | compact_bitset.h:77-81 | bit `i` is bit `i` of `val` for `i < N`, and the padding is clear |
| CompactBitsets.FromString | compact_bitset.h:83-100 | out of range, invalid argument, or the parsed bits, exactly as `ParseString` says: out of range when `pos >= |str|`, invalid when one of the `ReadCount` characters from `pos` is not a digit, else the bits read |
| CompactBitsets.FromCString | compact_bitset.h:101-104 | the string is the array up to its first NUL when `count == NPos`, else the first `count` array characters, NULs included; `count` is also the end index passed on |
| CompactBitsets.Extract | compact_bitset.h:321-341 | resets `x`, consumes the digit prefix into bits `0, 1, ...` (the bits `Extracted` defines), fails exactly when `N > 0` and nothing was consumed |
| CompactBitsets.Hash | compact_bitset.h:343-356 | `HashOf`: the value for at most 8 bits, otherwise the string hash of `to_string()` |

## Left out

- `operator<<` onto an output stream (lines 314-319) is left out. It only
  prints `to_string`, and output streams are I/O.
- Extract: the stream is the sequence of characters still to be read. The
  model does not cover `eof()`, `good()` or other error states. The failbit
  is returned as a boolean. `widen` is the identity.
- Hash: `std::hash<std::string>` is the parameter `strHash`. The width of
  `unsigned long` is the parameter `ulongBytes` (4 or 8).
- ToULong: the width of `unsigned long` is a parameter (32 or 64 bits).
- Only the default word type `T` derived from `N` is modelled. An explicit
  narrower `T` is not, and neither is its `static_assert` on the type.
- `if constexpr`, `constexpr`, the template parameters `CharT`, `Traits` and
  `Alloc`, and the const overload of `make_ref` are left out. Characters are
  Dafny `char`.
- Negated, ShiftLeft, ShiftRight, And, Or, Xor and the compound assignments
  make no claim about padding. Their result starts from indeterminate
  storage, so the padding is whatever the `garbage` parameter held.
- FromInt is a module-level method, not a constructor. It takes `val` below
  `2^64`, the range of `unsigned long long`.
- FromString and FromCString are module-level methods that return a
  `Result`, because a constructor cannot throw.
- `main.cpp` is not part of this model.

## Findings

| source | as written | input that shows it | evidently intended | confidence | as-written member | corrected member |
|---|---|---|---|---|---|---|
| compact_bitset.h:49 | `reference::operator~` returns `~bool(*this)`. The `bool` is promoted to `int` 0 or 1, `~` gives -1 or -2, and both convert back to `true` | a set bit: `~x[0]` is `true` where the inverse is `false` | `!bool(*this)`, the inverse of the bit, as `std::bitset::reference::operator~` has it | not executed | CompactBitsets.Reference.Complement | CompactBitsets.Reference.Inverse |
