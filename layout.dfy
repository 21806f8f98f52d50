/** How `compact_bitset<N>` lays its `N` bits out in words: the word width `TBits`,
    the number of completely used words, the bits left over for a last partial word,
    and the masks the word loops compare against. */
module Layout {
  import opened Words

  /** `TBits` for the default word type: the narrowest of 8, 16 and 32 bits that
      holds `n` bits, else 64. */
  function WordBits(n: nat): (t: nat)
    ensures t == 8 || t == 16 || t == 32 || t == 64
    ensures n <= t || t == 64
    ensures t > 8 ==> n > t / 2
  {
    if n <= 8 then 8 else if n <= 16 then 16 else if n <= 32 then 32 else 64
  }

  /** `NFullyUsedWords`. */
  function FullWords(n: nat): nat
  {
    n / WordBits(n)
  }

  /** `NBitsRem`: the bits in the last, partly used word. */
  function BitsRem(n: nat): nat
  {
    n % WordBits(n)
  }

  /** `NWords`: full words plus one more when bits are left over. */
  function NWords(n: nat): nat
  {
    FullWords(n) + if BitsRem(n) != 0 then 1 else 0
  }

  /** `AllMask`, that is `~T(0)`. */
  function AllMask(n: nat): nat
  {
    Mask(WordBits(n))
  }

  /** `LastWordMask`, that is `(T(1) << NBitsRem) - 1`. */
  function LastWordMask(n: nat): nat
  {
    Mask(BitsRem(n))
  }

  /** `n` is made of the full words and the leftover bits, fewer than a word. */
  lemma Decompose(n: nat)
    ensures n == FullWords(n) * WordBits(n) + BitsRem(n)
    ensures BitsRem(n) < WordBits(n)
  {
  }

  /** `NWords(n)` words are exactly enough for `n` bits: they hold them all, and one
      word fewer would not. There are no words at all exactly when `n` is zero. */
  lemma NWordsIsCeiling(n: nat)
    ensures NWords(n) * WordBits(n) >= n
    ensures NWords(n) > 0 ==> (NWords(n) - 1) * WordBits(n) < n
    ensures (NWords(n) == 0) <==> (n == 0)
  {
    var t, q, r := WordBits(n), FullWords(n), BitsRem(n);
    Decompose(n);
    if r != 0 {
      assert NWords(n) * t == q * t + t;
    } else if q > 0 {
      assert (q - 1) * t == q * t - t;
    }
  }

  /** Bit `i` lives in word `i / TBits`, which exists, at offset `i % TBits`; it is
      either in a full word or among the leftover bits of the last word. */
  lemma Locate(n: nat, i: nat)
    requires i < n
    ensures i / WordBits(n) < NWords(n)
    ensures i % WordBits(n) < WordBits(n)
    ensures i / WordBits(n) < FullWords(n)
         || (i / WordBits(n) == FullWords(n) && i % WordBits(n) < BitsRem(n))
  {
  }

  /** Offset `j` of word `w` is bit `w * TBits + j`, and that bit is within the
      bitset for every offset of a full word and for the leftover offsets of the
      last word. */
  lemma Position(n: nat, w: nat, j: nat)
    requires w < NWords(n) && j < WordBits(n)
    ensures (w * WordBits(n) + j) / WordBits(n) == w
    ensures (w * WordBits(n) + j) % WordBits(n) == j
    ensures w < FullWords(n) ==> w * WordBits(n) + j < n
    ensures w == FullWords(n) ==> (w * WordBits(n) + j < n <==> j < BitsRem(n))
  {
  }

  /** Distinct bits have distinct locations. */
  lemma SameLocation(n: nat, i: nat, p: nat)
    requires i / WordBits(n) == p / WordBits(n) && i % WordBits(n) == p % WordBits(n)
    ensures i == p
  {
    var t := WordBits(n);
    assert i == t * (i / t) + i % t;
    assert p == t * (p / t) + p % t;
  }

  /** `LastWordMask` has exactly the low `NBitsRem` bits set, so it is zero exactly
      when there is no partly used last word. */
  lemma LastWordMaskBits(n: nat, j: nat)
    ensures Bit(LastWordMask(n), j) == (j < BitsRem(n))
    ensures (LastWordMask(n) == 0) <==> (BitsRem(n) == 0)
    ensures (LastWordMask(n) == 0) <==> (NWords(n) == FullWords(n))
  {
    BitOfMask(BitsRem(n), j);
    if BitsRem(n) != 0 {
      BitOfMask(BitsRem(n), 0);
    }
  }

  /** `AllMask` has exactly the `TBits` bits of a word set. */
  lemma AllMaskBits(n: nat, j: nat)
    ensures Bit(AllMask(n), j) == (j < WordBits(n))
    ensures Fits(AllMask(n), WordBits(n))
  {
    BitOfMask(WordBits(n), j);
  }
}
