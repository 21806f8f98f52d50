/** The word array of an `n`-bit compact bitset read as a sequence of `n` bits: bit
    `i` is bit `i % TBits` of word `i / TBits`. The lemmas here are the facts the
    word loops of the bitset need: what a single-bit write does, which bit an offset
    of a word is, and that padding bits are invisible. */
module Storage {
  import opened Words
  import opened Layout
  import BitSeq

  /** `NWords(n)` values of the word type. */
  predicate WellFormed(words: seq<nat>, n: nat)
  {
    |words| == NWords(n) && forall w :: 0 <= w < |words| ==> Fits(words[w], WordBits(n))
  }

  /** The bits of the last word at and above `NBitsRem` are zero. */
  predicate PaddingClear(words: seq<nat>, n: nat)
    requires |words| == NWords(n)
  {
    BitsRem(n) != 0 ==> Fits(words[FullWords(n)], BitsRem(n))
  }

  /** Bit `i` of the bitset held in `words` (`make_ref(i)` read as a `bool`). */
  function BitOf(words: seq<nat>, n: nat, i: nat): bool
    requires |words| == NWords(n) && i < n
  {
    Locate(n, i);
    Bit(words[i / WordBits(n)], i % WordBits(n))
  }

  /** All `n` bits held in `words`. */
  function BitsOf(words: seq<nat>, n: nat): (s: seq<bool>)
    requires |words| == NWords(n)
    ensures |s| == n
  {
    seq(n, i requires 0 <= i < n => BitOf(words, n, i))
  }

  /** Where bit `i` lives: offset `j` of word `w`, with `w` a full word or the last
      word and `j` then below `NBitsRem`. */
  lemma Where(words: seq<nat>, n: nat, i: nat) returns (w: nat, j: nat)
    requires |words| == NWords(n) && i < n
    ensures w == i / WordBits(n) && j == i % WordBits(n)
    ensures w < NWords(n) && j < WordBits(n)
    ensures w < FullWords(n) || (w == FullWords(n) && j < BitsRem(n))
    ensures BitsOf(words, n)[i] == Bit(words[w], j)
  {
    Locate(n, i);
    w, j := i / WordBits(n), i % WordBits(n);
  }

  /** Offset `j` of word `w` is bit `w * TBits + j` of the bitset. */
  lemma BitOfWord(words: seq<nat>, n: nat, w: nat, j: nat)
    requires |words| == NWords(n) && w < NWords(n) && j < WordBits(n)
    requires w * WordBits(n) + j < n
    ensures BitsOf(words, n)[w * WordBits(n) + j] == Bit(words[w], j)
  {
    Position(n, w, j);
  }

  /** `word = b ? word | T{1} << bpos : word & ~(T{1} << bpos)` on the word and
      offset of bit `pos`. */
  function WriteBit(words: seq<nat>, n: nat, pos: nat, b: bool): (r: seq<nat>)
    requires |words| == NWords(n) && pos < n
    ensures |r| == |words|
  {
    Locate(n, pos);
    var w := pos / WordBits(n);
    words[w := WithBit(words[w], pos % WordBits(n), b)]
  }

  /** A single-bit write sets bit `pos` to `b`, leaves every other bit as it was,
      keeps the words well formed and keeps clear padding clear. */
  lemma WriteBitEffect(words: seq<nat>, n: nat, pos: nat, b: bool)
    requires WellFormed(words, n) && pos < n
    ensures WellFormed(WriteBit(words, n, pos, b), n)
    ensures BitsOf(WriteBit(words, n, pos, b), n) == BitsOf(words, n)[pos := b]
    ensures PaddingClear(words, n) ==> PaddingClear(WriteBit(words, n, pos, b), n)
  {
    var t := WordBits(n);
    Locate(n, pos);
    var w, k := pos / t, pos % t;
    var words' := WriteBit(words, n, pos, b);
    WithBitFits(words[w], t, k, b);
    forall i | 0 <= i < n
      ensures BitsOf(words', n)[i] == BitsOf(words, n)[pos := b][i]
    {
      WriteBitAt(words, n, pos, b, i);
    }
    if BitsRem(n) != 0 && w == FullWords(n) && PaddingClear(words, n) {
      WithBitFits(words[w], BitsRem(n), k, b);
    }
  }

  lemma WriteBitAt(words: seq<nat>, n: nat, pos: nat, b: bool, i: nat)
    requires |words| == NWords(n) && pos < n && i < n
    ensures BitOf(WriteBit(words, n, pos, b), n, i) == if i == pos then b else BitOf(words, n, i)
  {
    var after := WriteBit(words, n, pos, b);
    var w, k := Where(words, n, pos);
    var v, j := Where(words, n, i);
    var _, _ := Where(after, n, i);
    assert after[v] == if v == w then WithBit(words[w], k, b) else words[v];
    BitOfWithBit(words[w], k, b, j);
    if v == w && j == k {
      SameLocation(n, i, pos);
    }
  }

  /** Bits below `n` do not depend on the padding: words that agree on every full word
      and on the leftover bits of the last word hold the same bitset. */
  lemma PaddingInvisible(a: seq<nat>, b: seq<nat>, n: nat)
    requires |a| == NWords(n) && |b| == NWords(n)
    requires forall w :: 0 <= w < FullWords(n) ==> a[w] == b[w]
    requires BitsRem(n) != 0 ==> Masked(a[FullWords(n)], BitsRem(n)) == Masked(b[FullWords(n)], BitsRem(n))
    ensures BitsOf(a, n) == BitsOf(b, n)
  {
    forall i | 0 <= i < n
      ensures BitsOf(a, n)[i] == BitsOf(b, n)[i]
    {
      var w, j := Where(a, n, i);
      var _, _ := Where(b, n, i);
      if w == FullWords(n) {
        MaskedEqual(a[w], b[w], BitsRem(n));
      }
    }
  }

  /** The test `all()` makes: every full word is `AllMask` and the last word, under
      `LastWordMask`, is `LastWordMask`. */
  predicate WordsAllOnes(words: seq<nat>, n: nat)
    requires |words| == NWords(n)
  {
    (forall w :: 0 <= w < FullWords(n) ==> words[w] == AllMask(n))
    && (BitsRem(n) != 0 ==> Masked(words[FullWords(n)], BitsRem(n)) == LastWordMask(n))
  }

  /** The test `any()` makes: some full word is nonzero, or the last word is under
      `LastWordMask`. */
  predicate WordsAnyOne(words: seq<nat>, n: nat)
    requires |words| == NWords(n)
  {
    (exists w :: 0 <= w < FullWords(n) && words[w] != 0)
    || (BitsRem(n) != 0 && Masked(words[FullWords(n)], BitsRem(n)) != 0)
  }

  /** The test `operator==` makes: the full words are equal, and the last words are
      under `LastWordMask`. */
  predicate WordsEqual(a: seq<nat>, b: seq<nat>, n: nat)
    requires |a| == NWords(n) && |b| == NWords(n)
  {
    (forall w :: 0 <= w < FullWords(n) ==> a[w] == b[w])
    && (BitsRem(n) != 0 ==> Masked(a[FullWords(n)], BitsRem(n)) == Masked(b[FullWords(n)], BitsRem(n)))
  }

  /** The word test of `all()` holds exactly when every bit is set. */
  lemma AllOnesExactly(words: seq<nat>, n: nat)
    requires WellFormed(words, n)
    ensures WordsAllOnes(words, n) ==> BitSeq.AllSet(BitsOf(words, n))
    ensures BitSeq.AllSet(BitsOf(words, n)) ==> WordsAllOnes(words, n)
  {
    if WordsAllOnes(words, n) {
      forall i | 0 <= i < n
        ensures BitsOf(words, n)[i]
      {
        AllOnesBit(words, n, i);
      }
    }
    if BitSeq.AllSet(BitsOf(words, n)) {
      forall w | 0 <= w < FullWords(n)
        ensures words[w] == AllMask(n)
      {
        AllOnesFullWord(words, n, w);
      }
      if BitsRem(n) != 0 {
        AllOnesLastWord(words, n);
      }
    }
  }

  lemma AllOnesBit(words: seq<nat>, n: nat, i: nat)
    requires WellFormed(words, n) && WordsAllOnes(words, n) && i < n
    ensures BitsOf(words, n)[i]
  {
    var w, j := Where(words, n, i);
    if w < FullWords(n) {
      AllMaskBits(n, j);
    } else {
      MaskedAllOnes(words[w], BitsRem(n));
    }
  }

  lemma AllOnesFullWord(words: seq<nat>, n: nat, w: nat)
    requires WellFormed(words, n) && w < FullWords(n) && BitSeq.AllSet(BitsOf(words, n))
    ensures words[w] == AllMask(n)
  {
    var t := WordBits(n);
    forall j | 0 <= j < t
      ensures Bit(words[w], j)
    {
      Position(n, w, j);
      BitOfWord(words, n, w, j);
    }
    WordAllOnes(words[w], t);
  }

  lemma AllOnesLastWord(words: seq<nat>, n: nat)
    requires WellFormed(words, n) && BitsRem(n) != 0 && BitSeq.AllSet(BitsOf(words, n))
    ensures Masked(words[FullWords(n)], BitsRem(n)) == LastWordMask(n)
  {
    var last := FullWords(n);
    forall j | 0 <= j < BitsRem(n)
      ensures Bit(words[last], j)
    {
      Position(n, last, j);
      BitOfWord(words, n, last, j);
    }
    MaskedAllOnes(words[last], BitsRem(n));
  }

  /** The word test of `any()` holds exactly when some bit is set. */
  lemma AnyOneExactly(words: seq<nat>, n: nat)
    requires WellFormed(words, n)
    ensures WordsAnyOne(words, n) ==> !BitSeq.NoneSet(BitsOf(words, n))
    ensures !BitSeq.NoneSet(BitsOf(words, n)) ==> WordsAnyOne(words, n)
  {
    if !WordsAnyOne(words, n) {
      forall i | 0 <= i < n
        ensures !BitsOf(words, n)[i]
      {
        NoOneBit(words, n, i);
      }
    }
    if WordsAnyOne(words, n) {
      if w :| 0 <= w < FullWords(n) && words[w] != 0 {
        AnyOneFullWord(words, n, w);
      } else {
        AnyOneLastWord(words, n);
      }
    }
  }

  lemma NoOneBit(words: seq<nat>, n: nat, i: nat)
    requires WellFormed(words, n) && !WordsAnyOne(words, n) && i < n
    ensures !BitsOf(words, n)[i]
  {
    var w, j := Where(words, n, i);
    if w < FullWords(n) {
      assert words[w] == 0;
      ZeroBits(j);
    } else {
      MaskedZero(words[w], BitsRem(n));
    }
  }

  lemma AnyOneFullWord(words: seq<nat>, n: nat, w: nat)
    requires WellFormed(words, n) && w < FullWords(n) && words[w] != 0
    ensures !BitSeq.NoneSet(BitsOf(words, n))
  {
    var t := WordBits(n);
    WordZero(words[w], t);
    var j :| 0 <= j < t && Bit(words[w], j);
    Position(n, w, j);
    BitOfWord(words, n, w, j);
  }

  lemma AnyOneLastWord(words: seq<nat>, n: nat)
    requires WellFormed(words, n) && BitsRem(n) != 0
    requires Masked(words[FullWords(n)], BitsRem(n)) != 0
    ensures !BitSeq.NoneSet(BitsOf(words, n))
  {
    var last := FullWords(n);
    MaskedZero(words[last], BitsRem(n));
    var j :| 0 <= j < BitsRem(n) && Bit(words[last], j);
    Position(n, last, j);
    BitOfWord(words, n, last, j);
  }

  /** The word test of `operator==` holds exactly when the bitsets are equal. */
  lemma EqualExactly(a: seq<nat>, b: seq<nat>, n: nat)
    requires WellFormed(a, n) && WellFormed(b, n)
    ensures WordsEqual(a, b, n) ==> BitsOf(a, n) == BitsOf(b, n)
    ensures BitsOf(a, n) == BitsOf(b, n) ==> WordsEqual(a, b, n)
  {
    if WordsEqual(a, b, n) {
      PaddingInvisible(a, b, n);
    }
    if BitsOf(a, n) == BitsOf(b, n) {
      forall w | 0 <= w < FullWords(n)
        ensures a[w] == b[w]
      {
        EqualFullWord(a, b, n, w);
      }
      if BitsRem(n) != 0 {
        EqualLastWord(a, b, n);
      }
    }
  }

  lemma EqualFullWord(a: seq<nat>, b: seq<nat>, n: nat, w: nat)
    requires WellFormed(a, n) && WellFormed(b, n) && w < FullWords(n)
    requires BitsOf(a, n) == BitsOf(b, n)
    ensures a[w] == b[w]
  {
    var t := WordBits(n);
    forall j | 0 <= j < t
      ensures Bit(a[w], j) == Bit(b[w], j)
    {
      Position(n, w, j);
      BitOfWord(a, n, w, j);
      BitOfWord(b, n, w, j);
    }
    WordEqual(a[w], b[w], t);
  }

  lemma EqualLastWord(a: seq<nat>, b: seq<nat>, n: nat)
    requires WellFormed(a, n) && WellFormed(b, n) && BitsRem(n) != 0
    requires BitsOf(a, n) == BitsOf(b, n)
    ensures Masked(a[FullWords(n)], BitsRem(n)) == Masked(b[FullWords(n)], BitsRem(n))
  {
    var last := FullWords(n);
    forall j | 0 <= j < BitsRem(n)
      ensures Bit(a[last], j) == Bit(b[last], j)
    {
      Position(n, last, j);
      BitOfWord(a, n, last, j);
      BitOfWord(b, n, last, j);
    }
    MaskedEqual(a[last], b[last], BitsRem(n));
  }

  /** The words of a default-constructed bitset: `data{{T(0)}}`. */
  function ZeroWords(n: nat): (words: seq<nat>)
    ensures |words| == NWords(n)
  {
    seq(NWords(n), _ => 0)
  }

  /** Zero words hold no set bit and no padding. */
  lemma ZeroWordsEffect(n: nat)
    ensures WellFormed(ZeroWords(n), n) && PaddingClear(ZeroWords(n), n)
    ensures BitsOf(ZeroWords(n), n) == BitSeq.AllFalse(n)
  {
    forall i | 0 <= i < n
      ensures !BitsOf(ZeroWords(n), n)[i]
    {
      var _, j := Where(ZeroWords(n), n, i);
      ZeroBits(j);
    }
  }

  /** Word `w` as `set()` writes it: `AllMask` in a full word, `LastWordMask` in the
      last one. */
  function SetWord(n: nat, w: nat): nat
  {
    if w < FullWords(n) then AllMask(n) else LastWordMask(n)
  }

  /** The words after `set()`. */
  function SetWords(n: nat): (words: seq<nat>)
    ensures |words| == NWords(n)
  {
    seq(NWords(n), w requires 0 <= w => SetWord(n, w))
  }

  /** `set()` leaves every bit set and the padding clear. */
  lemma SetWordsEffect(n: nat)
    ensures WellFormed(SetWords(n), n) && PaddingClear(SetWords(n), n)
    ensures BitsOf(SetWords(n), n) == BitSeq.AllTrue(n)
  {
    var t := WordBits(n);
    var words := SetWords(n);
    AllMaskBits(n, 0);
    Decompose(n);
    Pow2Monotone(BitsRem(n), t);
    forall i | 0 <= i < n
      ensures BitsOf(words, n)[i]
    {
      SetWordsBit(n, i);
    }
  }

  lemma SetWordsBit(n: nat, i: nat)
    requires i < n
    ensures BitsOf(SetWords(n), n)[i]
  {
    var w, j := Where(SetWords(n), n, i);
    if w < FullWords(n) {
      AllMaskBits(n, j);
    } else {
      LastWordMaskBits(n, j);
    }
  }

  /** Word `w` as `flip()` writes it: `~w` in a full word, `~w & LastWordMask` in the
      last one. */
  function FlipWord(w: nat, n: nat, index: nat): nat
    requires Fits(w, WordBits(n))
  {
    var c := Complement(w, WordBits(n));
    if index < FullWords(n) then c else Masked(c, BitsRem(n))
  }

  /** The words after `flip()`. */
  function FlipWords(words: seq<nat>, n: nat): (r: seq<nat>)
    requires WellFormed(words, n)
    ensures |r| == NWords(n)
  {
    seq(|words|, w requires 0 <= w < |words| => FlipWord(words[w], n, w))
  }

  /** `flip()` inverts every bit and leaves the padding clear. */
  lemma FlipWordsEffect(words: seq<nat>, n: nat)
    requires WellFormed(words, n)
    ensures WellFormed(FlipWords(words, n), n) && PaddingClear(FlipWords(words, n), n)
    ensures BitsOf(FlipWords(words, n), n) == BitSeq.Not(BitsOf(words, n))
  {
    var t := WordBits(n);
    var r := FlipWords(words, n);
    Decompose(n);
    Pow2Monotone(BitsRem(n), t);
    forall w | 0 <= w < |r|
      ensures Fits(r[w], t)
    {
      MaskedFits(Complement(words[w], t), BitsRem(n));
    }
    if BitsRem(n) != 0 {
      MaskedFits(Complement(words[FullWords(n)], t), BitsRem(n));
    }
    forall i | 0 <= i < n
      ensures BitsOf(r, n)[i] == !BitsOf(words, n)[i]
    {
      FlipWordsBit(words, n, i);
    }
  }

  lemma FlipWordsBit(words: seq<nat>, n: nat, i: nat)
    requires WellFormed(words, n) && i < n
    ensures BitsOf(FlipWords(words, n), n)[i] == !BitsOf(words, n)[i]
  {
    var t := WordBits(n);
    var w, j := Where(words, n, i);
    var _, _ := Where(FlipWords(words, n), n, i);
    BitOfComplement(words[w], t, j);
    if w >= FullWords(n) {
      BitOfMasked(Complement(words[w], t), BitsRem(n), j);
    }
  }
}
