/** `compact_bitset<N>`: a fixed-size bitset of `N` bits kept in `NWords(N)` words of
    the narrowest default word type, with the `reference` proxy that reads and writes
    one bit of a word, and the free operators, string and stream conversions and hash
    that go with it. Every operation is stated against `Bits()`, the abstract bitset. */
module CompactBitsets {
  import opened Words
  import opened Layout
  import opened Storage
  import opened Errors
  import BitSeq

  class CompactBitset {
    /** The template parameter `N`. */
    const N: nat
    /** `data`, the `std::array<T, NWords>` of words. */
    const data: array<nat>

    ghost predicate Valid()
      reads this, data
    {
      WellFormed(data[..], N)
    }

    /** The bits of the last word at and above `NBitsRem` are zero. The constructors,
        `set()`, `reset()` and `flip()` establish this; results of the bitwise and
        shift operators start from indeterminate words and need not satisfy it. */
    ghost predicate PaddingClear()
      reads this, data
      requires Valid()
    {
      Storage.PaddingClear(data[..], N)
    }

    /** The abstract bitset: bit `i` is bit `i % TBits` of word `i / TBits`. */
    ghost function Bits(): (s: seq<bool>)
      reads this, data
      requires Valid()
      ensures |s| == N
    {
      BitsOf(data[..], N)
    }

    /** The default constructor: all bits are 0. */
    constructor (n: nat)
      ensures Valid() && PaddingClear() && fresh(data)
      ensures N == n && data[..] == ZeroWords(n) && Bits() == BitSeq.AllFalse(n)
    {
      N := n;
      data := new nat[NWords(n)](_ => 0);
      new;
      assert data[..] == ZeroWords(n);
      ZeroWordsEffect(n);
    }

    /** The uninitialized constructor: `garbage` stands for the indeterminate words. */
    constructor Uninitialized(n: nat, garbage: seq<nat>)
      requires WellFormed(garbage, n)
      ensures Valid() && fresh(data)
      ensures N == n && data[..] == garbage
    {
      N := n;
      data := new nat[|garbage|](i requires 0 <= i < |garbage| => garbage[i]);
    }

    /** The copy constructor. */
    constructor Copy(o: CompactBitset)
      requires o.Valid()
      ensures Valid() && fresh(data)
      ensures N == o.N && data[..] == o.data[..] && Bits() == o.Bits()
      ensures o.PaddingClear() ==> PaddingClear()
    {
      N := o.N;
      data := new nat[o.data.Length](i requires 0 <= i < o.data.Length reads o.data => o.data[i]);
    }

    /** Copy assignment: the words of `o`, padding included, replace this bitset's. */
    method Assign(o: CompactBitset)
      requires Valid() && o.Valid() && o.N == N
      modifies data
      ensures Valid() && data[..] == old(o.data[..])
      ensures Bits() == old(o.Bits())
      ensures old(o.PaddingClear()) ==> PaddingClear()
    {
      if N > 0 {
        forall w | 0 <= w < data.Length {
          data[w] := o.data[w];
        }
      }
    }

    /** `size()`. */
    function Size(): (n: nat)
      reads this, data
      requires Valid()
      ensures n == |Bits()|
    {
      N
    }

    /** The `const` `operator[]`: bit `pos % TBits` of word `pos / TBits`. */
    function Get(pos: nat): (b: bool)
      reads this, data
      requires Valid() && pos < N
      ensures b == Bits()[pos]
    {
      Locate(N, pos);
      Bit(data[pos / WordBits(N)], pos % WordBits(N))
    }

    /** The non-`const` `operator[]` (`make_ref`): a proxy for bit `pos`, unchecked. */
    method Index(pos: nat) returns (r: Reference)
      requires Valid() && pos < N
      ensures fresh(r) && r.owner == this && r.pos == pos && r.Valid()
    {
      Locate(N, pos);
      r := new Reference(this, pos / WordBits(N), pos % WordBits(N), pos);
    }

    /** `(*this)[pos] = b`: a proxy made for bit `pos`, then assigned. */
    method Store(pos: nat, b: bool)
      requires Valid() && pos < N
      modifies data
      ensures Valid() && Bits() == old(Bits())[pos := b]
      ensures old(PaddingClear()) ==> PaddingClear()
    {
      var bit := Index(pos);
      bit.Assign(b);
    }

    /** `test(pos)`: out of range exactly when `pos >= N`, else bit `pos`. */
    function Test(pos: nat): (r: Result<bool>)
      reads this, data
      requires Valid()
      ensures r == if pos < N then Ok(Bits()[pos]) else Err(OutOfRange)
    {
      if pos >= N then Err(OutOfRange) else Ok(Get(pos))
    }

    /** `set(pos, value)`. */
    method Set(pos: nat, value: bool) returns (r: Result<()>)
      requires Valid()
      modifies data
      ensures Valid() && (old(PaddingClear()) ==> PaddingClear())
      ensures r == if pos < N then Ok(()) else Err(OutOfRange)
      ensures Bits() == if pos < N then old(Bits())[pos := value] else old(Bits())
    {
      if pos >= N {
        return Err(OutOfRange);
      }
      Store(pos, value);
      r := Ok(());
    }

    /** `reset(pos)`. */
    method Reset(pos: nat) returns (r: Result<()>)
      requires Valid()
      modifies data
      ensures Valid() && (old(PaddingClear()) ==> PaddingClear())
      ensures r == if pos < N then Ok(()) else Err(OutOfRange)
      ensures Bits() == if pos < N then old(Bits())[pos := false] else old(Bits())
    {
      if pos >= N {
        return Err(OutOfRange);
      }
      Store(pos, false);
      r := Ok(());
    }

    /** `flip(pos)`. */
    method Flip(pos: nat) returns (r: Result<()>)
      requires Valid()
      modifies data
      ensures Valid() && (old(PaddingClear()) ==> PaddingClear())
      ensures r == if pos < N then Ok(()) else Err(OutOfRange)
      ensures Bits() == if pos < N then old(Bits())[pos := !old(Bits())[pos]] else old(Bits())
    {
      if pos >= N {
        return Err(OutOfRange);
      }
      var bit := Index(pos);
      bit.Flip();
      r := Ok(());
    }

    /** `count()`: the number of set bits, counted one bit at a time. */
    method Count() returns (r: nat)
      requires Valid()
      ensures r == BitSeq.CountOf(Bits())
    {
      r := 0;
      for i := 0 to N
        invariant r == BitSeq.CountOf(Bits()[..i])
      {
        assert Bits()[..i + 1][..i] == Bits()[..i];
        if Get(i) {
          r := r + 1;
        }
      }
      assert Bits()[..N] == Bits();
    }

    /** `all()`: every full word equals `AllMask`, and the last word masked with
        `LastWordMask` equals `LastWordMask`. True for `N == 0`. */
    method All() returns (r: bool)
      requires Valid()
      ensures r == BitSeq.AllSet(Bits())
    {
      AllOnesExactly(data[..], N);
      var w := 0;
      while w < FullWords(N)
        invariant w <= FullWords(N)
        invariant forall v :: 0 <= v < w ==> data[v] == AllMask(N)
      {
        if data[w] != AllMask(N) {
          assert data[..][w] != AllMask(N);
          return false;
        }
        w := w + 1;
      }
      LastWordMaskBits(N, 0);
      if LastWordMask(N) != 0 {
        if Masked(data[w], BitsRem(N)) != LastWordMask(N) {
          return false;
        }
      }
      return true;
    }

    /** `any()`: some full word is nonzero, or the last word masked with
        `LastWordMask` is. False for `N == 0`. */
    method Any() returns (r: bool)
      requires Valid()
      ensures r == !BitSeq.NoneSet(Bits())
    {
      AnyOneExactly(data[..], N);
      var w := 0;
      while w < FullWords(N)
        invariant w <= FullWords(N)
        invariant forall v :: 0 <= v < w ==> data[v] == 0
      {
        if data[w] != 0 {
          assert data[..][w] != 0;
          return true;
        }
        w := w + 1;
      }
      LastWordMaskBits(N, 0);
      if LastWordMask(N) != 0 {
        if Masked(data[w], BitsRem(N)) != 0 {
          return true;
        }
      }
      return false;
    }

    /** `none()`, that is `!any()`. */
    method None() returns (r: bool)
      requires Valid()
      ensures r == BitSeq.NoneSet(Bits())
    {
      var some := Any();
      r := !some;
    }

    /** `operator==`: full words compared whole, the last word under `LastWordMask`. */
    method Equals(o: CompactBitset) returns (r: bool)
      requires Valid() && o.Valid() && o.N == N
      ensures r == (Bits() == o.Bits())
    {
      EqualExactly(data[..], o.data[..], N);
      var w := 0;
      while w < FullWords(N)
        invariant w <= FullWords(N)
        invariant forall v :: 0 <= v < w ==> data[v] == o.data[v]
      {
        if data[w] != o.data[w] {
          assert data[..][w] != o.data[..][w];
          return false;
        }
        w := w + 1;
      }
      LastWordMaskBits(N, 0);
      if LastWordMask(N) != 0 {
        if Masked(data[w], BitsRem(N)) != Masked(o.data[w], BitsRem(N)) {
          return false;
        }
      }
      return true;
    }

    /** `operator!=`, that is `!(*this == o)`. */
    method NotEquals(o: CompactBitset) returns (r: bool)
      requires Valid() && o.Valid() && o.N == N
      ensures r == (Bits() != o.Bits())
    {
      var same := Equals(o);
      r := !same;
    }

    /** `set()`: every full word becomes `AllMask` and the last word `LastWordMask`. */
    method SetAll()
      requires Valid()
      modifies data
      ensures Valid() && PaddingClear() && data[..] == SetWords(N)
      ensures Bits() == BitSeq.AllTrue(N)
    {
      var w := 0;
      while w < FullWords(N)
        invariant w <= FullWords(N)
        invariant forall v :: 0 <= v < w ==> data[v] == SetWord(N, v)
      {
        data[w] := AllMask(N);
        w := w + 1;
      }
      LastWordMaskBits(N, 0);
      if LastWordMask(N) != 0 {
        data[w] := LastWordMask(N);
      }
      assert data[..] == SetWords(N);
      SetWordsEffect(N);
    }

    /** `reset()`, that is `*this = compact_bitset()`. */
    method ResetAll()
      requires Valid()
      modifies data
      ensures Valid() && PaddingClear()
      ensures Bits() == BitSeq.AllFalse(N)
    {
      var zero := new CompactBitset(N);
      Assign(zero);
    }

    /** `flip()`: every full word becomes `~data[w]`, and the last word
        `~data[w] & LastWordMask`, which keeps its padding zero. */
    method FlipAll()
      requires Valid()
      modifies data
      ensures Valid() && PaddingClear() && data[..] == FlipWords(old(data[..]), N)
      ensures Bits() == BitSeq.Not(old(Bits()))
    {
      ghost var before := data[..];
      var t := WordBits(N);
      var w := 0;
      while w < FullWords(N)
        invariant w <= FullWords(N)
        invariant forall v :: 0 <= v < w ==> data[v] == FlipWord(before[v], N, v)
        invariant forall v :: w <= v < data.Length ==> data[v] == before[v]
      {
        data[w] := Complement(data[w], t);
        w := w + 1;
      }
      LastWordMaskBits(N, 0);
      if LastWordMask(N) != 0 {
        data[w] := Masked(Complement(data[w], t), BitsRem(N));
      }
      assert data[..] == FlipWords(before, N);
      FlipWordsEffect(before, N);
    }

    /** `to_string(zero, one)`: `N` copies of `zero`, then `one` where a bit is set. */
    method ToString(zero: char, one: char) returns (s: string)
      requires Valid()
      ensures s == BitSeq.ToStr(Bits(), zero, one)
    {
      s := seq(N, _ => zero);
      for bit := 0 to N
        invariant |s| == N
        invariant forall i :: 0 <= i < N ==> s[i] == if i < bit && Bits()[i] then one else zero
      {
        if Get(bit) {
          s := s[bit := one];
        }
      }
    }

    /** `doIntConvert<Int>()` for an `Int` of `intBits` bits: the value of the first
        `min(N, intBits)` bits, which fits in `Int`. */
    method DoIntConvert(intBits: nat) returns (r: nat)
      requires Valid()
      ensures r == BitSeq.Value(Bits()[..if N < intBits then N else intBits])
      ensures r < Pow2(intBits)
    {
      ghost var s := Bits();
      var m := if N < intBits then N else intBits;
      BitSeq.ValueBound(s[..m]);
      Pow2Monotone(m, intBits);
      if N == 0 {
        return 0;
      }
      r := 0;
      var i := 0;
      while i < intBits && i < N
        invariant i <= m && r == BitSeq.Value(s[..i])
      {
        ghost var prefix := s[..i];
        assert s[..i + 1] == prefix + [s[i]];
        BitSeq.ValueSnoc(prefix, s[i]);
        BitSeq.ValueBound(prefix);
        if Get(i) {
          SetBitAbove(r, i);
          r := WithBit(r, i, true);
        }
        i := i + 1;
      }
      assert i == m;
    }

    /** `to_ulong()` where `unsigned long` has `ulongBits` bits: overflow exactly when
        `N` exceeds them, else the value of the bits. */
    method ToULong(ulongBits: nat) returns (r: Result<nat>)
      requires Valid() && (ulongBits == 32 || ulongBits == 64)
      ensures r == if N > ulongBits then Err(Overflow) else Ok(BitSeq.Value(Bits()))
    {
      if N > ulongBits {
        return Err(Overflow);
      }
      var v := DoIntConvert(ulongBits);
      assert Bits()[..N] == Bits();
      r := Ok(v);
    }

    /** `to_ullong()`: overflow exactly when `N > 64`, else the value of the bits. */
    method ToULLong() returns (r: Result<nat>)
      requires Valid()
      ensures r == if N > 64 then Err(Overflow) else Ok(BitSeq.Value(Bits()))
    {
      if N > 64 {
        return Err(Overflow);
      }
      var v := DoIntConvert(64);
      assert Bits()[..N] == Bits();
      r := Ok(v);
    }

    /** `operator~`: a fresh bitset, every bit of it written as the inverse. */
    method Negated(garbage: seq<nat>) returns (ret: CompactBitset)
      requires Valid() && WellFormed(garbage, N)
      ensures fresh(ret) && fresh(ret.data) && ret.Valid() && ret.N == N
      ensures ret.Bits() == BitSeq.Not(Bits())
    {
      ret := new CompactBitset.Uninitialized(N, garbage);
      for i := 0 to N
        invariant fresh(ret.data) && ret.Valid() && ret.N == N
        invariant forall k :: 0 <= k < i ==> ret.Bits()[k] == !Bits()[k]
      {
        ret.Store(i, !Get(i));
      }
    }

    /** The padding loop of the shift operators: `ret[i] = false` for `lo <= i < hi`. */
    method ClearRange(lo: nat, hi: nat)
      requires Valid() && lo <= hi <= N
      modifies data
      ensures Valid()
      ensures forall k :: 0 <= k < N ==> Bits()[k] == (old(Bits())[k] && !(lo <= k < hi))
    {
      ghost var before := Bits();
      for i := lo to hi
        invariant Valid()
        invariant forall k :: 0 <= k < N ==> Bits()[k] == (before[k] && !(lo <= k < i))
      {
        Store(i, false);
      }
    }

    /** `operator<<(shift)`: bits below `shift` written clear, then bit `i` copied to
        `i + shift` while that is below `N`. */
    method ShiftLeft(shift: nat, garbage: seq<nat>) returns (ret: CompactBitset)
      requires Valid() && WellFormed(garbage, N)
      ensures fresh(ret) && fresh(ret.data) && ret.Valid() && ret.N == N
      ensures ret.Bits() == BitSeq.Shl(Bits(), shift)
    {
      ret := new CompactBitset.Uninitialized(N, garbage);
      ghost var src := Bits();
      ghost var target := BitSeq.Shl(src, shift);
      ghost var initial := ret.Bits();
      var low := if shift < N then shift else N;
      ret.ClearRange(0, low);
      assert ret.Bits() == BitSeq.Overlaid(initial, target, low);
      var i := 0;
      while i + shift < N
        invariant low + i <= N && (i > 0 ==> low == shift)
        invariant fresh(ret.data) && ret.Valid() && ret.N == N && Bits() == src
        invariant ret.Bits() == BitSeq.Overlaid(initial, target, low + i)
        decreases N - i
      {
        var b := Get(i);
        BitSeq.ShlAt(src, shift, i);
        BitSeq.OverlaidStep(initial, target, low + i);
        ret.Store(i + shift, b);
        i := i + 1;
      }
      BitSeq.OverlaidEnds(initial, target);
    }

    /** `operator>>(shift)`: bits from `endpos = N - shift` (or 0) up written clear,
        then bit `i + shift` copied to `i` below `endpos`. */
    method ShiftRight(shift: nat, garbage: seq<nat>) returns (ret: CompactBitset)
      requires Valid() && WellFormed(garbage, N)
      ensures fresh(ret) && fresh(ret.data) && ret.Valid() && ret.N == N
      ensures ret.Bits() == BitSeq.Shr(Bits(), shift)
    {
      ret := new CompactBitset.Uninitialized(N, garbage);
      ghost var src := Bits();
      ghost var target := BitSeq.Shr(src, shift);
      var endpos := if N >= shift then N - shift else 0;
      ret.ClearRange(endpos, N);
      ghost var cleared := ret.Bits();
      assert forall k :: endpos <= k < N ==> cleared[k] == target[k];
      var i := 0;
      while i < endpos
        invariant i <= endpos
        invariant fresh(ret.data) && ret.Valid() && ret.N == N && Bits() == src
        invariant ret.Bits() == BitSeq.Overlaid(cleared, target, i)
      {
        var b := Get(i + shift);
        BitSeq.ShrAt(src, shift, i);
        BitSeq.OverlaidStep(cleared, target, i);
        ret.Store(i, b);
        i := i + 1;
      }
      assert ret.Bits() == target;
    }

    /** `operator&=`, that is `*this = *this & rhs`. */
    method AndAssign(rhs: CompactBitset, garbage: seq<nat>)
      requires Valid() && rhs.Valid() && rhs.N == N && WellFormed(garbage, N)
      modifies data
      ensures Valid() && Bits() == BitSeq.And(old(Bits()), old(rhs.Bits()))
    {
      var tmp := And(this, rhs, garbage);
      Assign(tmp);
    }

    /** `operator|=`, that is `*this = *this | rhs`. */
    method OrAssign(rhs: CompactBitset, garbage: seq<nat>)
      requires Valid() && rhs.Valid() && rhs.N == N && WellFormed(garbage, N)
      modifies data
      ensures Valid() && Bits() == BitSeq.Or(old(Bits()), old(rhs.Bits()))
    {
      var tmp := Or(this, rhs, garbage);
      Assign(tmp);
    }

    /** `operator^=`, that is `*this = *this ^ rhs`. */
    method XorAssign(rhs: CompactBitset, garbage: seq<nat>)
      requires Valid() && rhs.Valid() && rhs.N == N && WellFormed(garbage, N)
      modifies data
      ensures Valid() && Bits() == BitSeq.Xor(old(Bits()), old(rhs.Bits()))
    {
      var tmp := Xor(this, rhs, garbage);
      Assign(tmp);
    }

    /** `operator<<=`, that is `*this = *this << shift`. */
    method ShiftLeftAssign(shift: nat, garbage: seq<nat>)
      requires Valid() && WellFormed(garbage, N)
      modifies data
      ensures Valid() && Bits() == BitSeq.Shl(old(Bits()), shift)
    {
      var tmp := ShiftLeft(shift, garbage);
      Assign(tmp);
    }

    /** `operator>>=`, that is `*this = *this >> shift`. */
    method ShiftRightAssign(shift: nat, garbage: seq<nat>)
      requires Valid() && WellFormed(garbage, N)
      modifies data
      ensures Valid() && Bits() == BitSeq.Shr(old(Bits()), shift)
    {
      var tmp := ShiftRight(shift, garbage);
      Assign(tmp);
    }
  }

  /** `compact_bitset::reference`: word `word` of the owner's array (the `T &word`
      member) and the bit offset `bpos` in it. */
  class Reference {
    const owner: CompactBitset
    const word: nat
    const bpos: nat
    /** The bit position this proxy was made for. */
    ghost const pos: nat

    ghost predicate Valid()
      reads this, owner, owner.data
    {
      owner.Valid() && pos < owner.N
      && word == pos / WordBits(owner.N) && bpos == pos % WordBits(owner.N)
    }

    constructor (owner: CompactBitset, word: nat, bpos: nat, ghost pos: nat)
      requires owner.Valid() && pos < owner.N
      requires word == pos / WordBits(owner.N) && bpos == pos % WordBits(owner.N)
      ensures this.owner == owner && this.word == word && this.bpos == bpos && this.pos == pos
      ensures Valid()
    {
      this.owner := owner;
      this.word := word;
      this.bpos := bpos;
      this.pos := pos;
    }

    /** `operator bool`: `word >> bpos & 0x1`. */
    function Value(): (b: bool)
      reads this, owner, owner.data
      requires Valid()
      ensures b == owner.Bits()[pos]
    {
      Locate(owner.N, pos);
      Bit(owner.data[word], bpos)
    }

    /** `operator=(bool)`: `word | T{1} << bpos` or `word & ~(T{1} << bpos)`. */
    method Assign(b: bool)
      requires Valid()
      modifies owner.data
      ensures Valid()
      ensures owner.data[..] == WriteBit(old(owner.data[..]), owner.N, pos, b)
      ensures owner.Bits() == old(owner.Bits())[pos := b]
      ensures old(owner.PaddingClear()) ==> owner.PaddingClear()
    {
      Locate(owner.N, pos);
      WriteBitEffect(owner.data[..], owner.N, pos, b);
      owner.data[word] := WithBit(owner.data[word], bpos, b);
    }

    /** Copy assignment of a proxy: assigns the value of the bit `o` refers to. */
    method AssignFrom(o: Reference)
      requires Valid() && o.Valid()
      modifies owner.data
      ensures Valid()
      ensures owner.Bits() == old(owner.Bits())[pos := old(o.Value())]
      ensures old(owner.PaddingClear()) ==> owner.PaddingClear()
    {
      var b := o.Value();
      Assign(b);
    }

    /** `flip()`: assigns the inverse of the bit. */
    method Flip()
      requires Valid()
      modifies owner.data
      ensures Valid()
      ensures owner.Bits() == old(owner.Bits())[pos := !old(owner.Bits())[pos]]
      ensures old(owner.PaddingClear()) ==> owner.PaddingClear()
    {
      var b := Value();
      Assign(!b);
    }

    /** `operator~` as written: `~bool(*this)` is true whatever the bit. */
    function Complement(): (b: bool)
      reads this, owner, owner.data
      requires Valid()
      ensures b
    {
      PromotedComplement(Value())
    }

    /** `operator~` as evidently intended (and as `std::bitset::reference` has it):
        the inverse of the bit. */
    function Inverse(): (b: bool)
      reads this, owner, owner.data
      requires Valid()
      ensures b == !owner.Bits()[pos]
    {
      !Value()
    }

    /** The two disagree exactly on a set bit: there `operator~` as written answers
        `true` where the inverse is `false`. */
    lemma ComplementDiffers()
      requires Valid()
      ensures Complement() != Inverse() <==> owner.Bits()[pos]
    {
    }
  }

  /** `operator&`: a fresh bitset, bit `i` written as `lhs[i] & rhs[i]`. */
  method And(lhs: CompactBitset, rhs: CompactBitset, garbage: seq<nat>) returns (ret: CompactBitset)
    requires lhs.Valid() && rhs.Valid() && rhs.N == lhs.N && WellFormed(garbage, lhs.N)
    ensures fresh(ret) && fresh(ret.data) && ret.Valid() && ret.N == lhs.N
    ensures ret.Bits() == BitSeq.And(lhs.Bits(), rhs.Bits())
  {
    ret := new CompactBitset.Uninitialized(lhs.N, garbage);
    for i := 0 to lhs.N
      invariant fresh(ret.data) && ret.Valid() && ret.N == lhs.N
      invariant forall k :: 0 <= k < i ==> ret.Bits()[k] == (lhs.Bits()[k] && rhs.Bits()[k])
    {
      ret.Store(i, lhs.Get(i) && rhs.Get(i));
    }
  }

  /** `operator|`: a fresh bitset, bit `i` written as `lhs[i] | rhs[i]`. */
  method Or(lhs: CompactBitset, rhs: CompactBitset, garbage: seq<nat>) returns (ret: CompactBitset)
    requires lhs.Valid() && rhs.Valid() && rhs.N == lhs.N && WellFormed(garbage, lhs.N)
    ensures fresh(ret) && fresh(ret.data) && ret.Valid() && ret.N == lhs.N
    ensures ret.Bits() == BitSeq.Or(lhs.Bits(), rhs.Bits())
  {
    ret := new CompactBitset.Uninitialized(lhs.N, garbage);
    for i := 0 to lhs.N
      invariant fresh(ret.data) && ret.Valid() && ret.N == lhs.N
      invariant forall k :: 0 <= k < i ==> ret.Bits()[k] == (lhs.Bits()[k] || rhs.Bits()[k])
    {
      ret.Store(i, lhs.Get(i) || rhs.Get(i));
    }
  }

  /** `operator^`: a fresh bitset, bit `i` written as `lhs[i] ^ rhs[i]`. */
  method Xor(lhs: CompactBitset, rhs: CompactBitset, garbage: seq<nat>) returns (ret: CompactBitset)
    requires lhs.Valid() && rhs.Valid() && rhs.N == lhs.N && WellFormed(garbage, lhs.N)
    ensures fresh(ret) && fresh(ret.data) && ret.Valid() && ret.N == lhs.N
    ensures ret.Bits() == BitSeq.Xor(lhs.Bits(), rhs.Bits())
  {
    ret := new CompactBitset.Uninitialized(lhs.N, garbage);
    for i := 0 to lhs.N
      invariant fresh(ret.data) && ret.Valid() && ret.N == lhs.N
      invariant forall k :: 0 <= k < i ==> ret.Bits()[k] == (lhs.Bits()[k] != rhs.Bits()[k])
    {
      ret.Store(i, lhs.Get(i) != rhs.Get(i));
    }
  }

  /** The constructor from `unsigned long long`: a default-constructed bitset, then
      bit `i` written for every set bit `i` of `val` below `N`, shifting `val` right
      until it is zero. */
  method FromInt(n: nat, val: nat) returns (x: CompactBitset)
    requires val < 0x1_0000_0000_0000_0000
    ensures fresh(x) && fresh(x.data) && x.Valid() && x.PaddingClear()
    ensures x.N == n && x.Bits() == BitSeq.IntToBits(n, val)
  {
    x := new CompactBitset(n);
    ghost var target, zero := BitSeq.IntToBits(n, val), BitSeq.AllFalse(n);
    BitSeq.OverlaidEnds(zero, target);
    var i, v := 0, val;
    while v != 0 && i < n
      invariant i <= n && v == Shifted(val, i)
      invariant fresh(x.data) && x.Valid() && x.PaddingClear() && x.N == n
      invariant x.Bits() == BitSeq.Overlaid(zero, target, i)
      decreases n - i
    {
      BitOfShifted(val, i, 0);
      assert target[i] == Bit(v, 0);
      BitSeq.OverlaidStep(zero, target, i);
      if v % 2 == 1 {
        x.Store(i, true);
      }
      ShiftedStep(val, i);
      i, v := i + 1, v / 2;
    }
    forall k | i <= k < n
      ensures !target[k]
    {
      ShiftedZero(val, i, k);
    }
    assert BitSeq.Overlaid(zero, target, i) == target;
  }

  /** The constructor from a `std::string`: out of range when `pos` is not an index of
      `str`; otherwise characters from `pos` up to the end index `min(len, |str|)`,
      at most `n` of them, become bits `0, 1, ...`, and the first character that is
      neither `zero` nor `one` is an invalid argument. */
  method FromString(n: nat, str: string, pos: nat, len: nat, zero: char, one: char)
    returns (r: Result<CompactBitset>)
    ensures r.Err? ==> BitSeq.ParseString(n, str, pos, len, zero, one) == Err(r.error)
    ensures r.Ok? ==>
      fresh(r.value) && fresh(r.value.data) && r.value.Valid() && r.value.PaddingClear()
      && r.value.N == n && BitSeq.ParseString(n, str, pos, len, zero, one) == Ok(r.value.Bits())
  {
    var x := new CompactBitset(n);
    if pos >= |str| {
      return Err(OutOfRange);
    }
    var end := if len < |str| then len else |str|;
    ghost var c := BitSeq.ReadCount(n, |str|, pos, len);
    var i, j := pos, 0;
    while i < end && j < n
      invariant i == pos + j && j <= c
      invariant fresh(x.data) && x.Valid() && x.PaddingClear() && x.N == n
      invariant BitSeq.Digits(str, pos, i, zero, one)
      invariant x.Bits() == BitSeq.ParsedBits(n, str, pos, j, one)
      decreases n - j
    {
      BitSeq.ParsedBitsStep(n, str, pos, j, one);
      var ch := str[i];
      if ch == one {
        x.Store(j, true);
      } else if ch == zero {
        x.Store(j, false);
      } else {
        return Err(InvalidArgument);
      }
      i, j := i + 1, j + 1;
    }
    assert j == c;
    return Ok(x);
  }

  /** The constructor from a C string: `cstr` is the whole character array. With
      `count == NPos` the string is what precedes the first NUL, which must exist;
      otherwise it is the first `count` characters of the array, NULs included. It
      delegates to the `std::string` constructor with `count` as the end index. */
  method FromCString(n: nat, cstr: seq<char>, count: nat, zero: char, one: char)
    returns (r: Result<CompactBitset>)
    requires count == BitSeq.NPos ==> '\0' in cstr
    requires count != BitSeq.NPos ==> count <= |cstr|
    ensures var str := if count == BitSeq.NPos then cstr[..BitSeq.CStrLen(cstr)] else cstr[..count];
      (r.Err? ==> BitSeq.ParseString(n, str, 0, count, zero, one) == Err(r.error))
      && (r.Ok? ==>
        fresh(r.value) && fresh(r.value.data) && r.value.Valid() && r.value.PaddingClear()
        && r.value.N == n && BitSeq.ParseString(n, str, 0, count, zero, one) == Ok(r.value.Bits()))
  {
    var str := if count == BitSeq.NPos then cstr[..BitSeq.CStrLen(cstr)] else cstr[..count];
    r := FromString(n, str, 0, count, zero, one);
  }

  /** `operator>>` on a stream holding `input`: resets `x`, then consumes characters
      while they are `'0'` or `'1'` and fewer than `N` were taken, writing each as a
      bit. A character of another kind, or the end of the input, is only peeked at.
      `failed` is the failbit: set when `N > 0` and nothing was consumed. */
  method Extract(input: seq<char>, x: CompactBitset) returns (consumed: nat, failed: bool)
    requires x.Valid()
    modifies x.data
    ensures x.Valid() && x.PaddingClear()
    ensures consumed == BitSeq.PrefixLen(input, x.N)
    ensures x.Bits() == BitSeq.Extracted(input, x.N)
    ensures failed == (x.N > 0 && consumed == 0)
  {
    var one, zero := '1', '0';
    var i, ok := 0, 0;
    x.ResetAll();
    while i < x.N
      invariant i == ok && i <= x.N && i <= |input|
      invariant forall k :: 0 <= k < i ==> input[k] == '0' || input[k] == '1'
      invariant x.Valid() && x.PaddingClear() && x.Bits() == BitSeq.ParsedBits(x.N, input, 0, i, one)
    {
      if i >= |input| {
        break;
      }
      var ch := input[i];
      if ch != one && ch != zero {
        break;
      }
      BitSeq.ParsedBitsStep(x.N, input, 0, i, one);
      x.Store(i, ch == one);
      ok := ok + 1;
      i := i + 1;
    }
    BitSeq.PrefixLenUnique(input, x.N, ok);
    consumed := ok;
    failed := x.N > 0 && ok == 0;
  }

  /** `std::hash<compact_bitset<N>>` where `unsigned long` is `ulongBytes` bytes wide
      and `strHash` is `std::hash<std::string>`. `N` is compared with `sizeof`, a
      byte count: `to_ulong()` when `N <= sizeof(unsigned long)`, `to_ullong()` when
      `N <= sizeof(unsigned long long)`, otherwise the hash of `to_string()`. */
  method Hash(x: CompactBitset, ulongBytes: nat, strHash: string -> nat) returns (h: nat)
    requires x.Valid() && (ulongBytes == 4 || ulongBytes == 8)
    ensures h == BitSeq.HashOf(x.Bits(), strHash)
  {
    if x.N <= ulongBytes {
      var r := x.ToULong(8 * ulongBytes);
      h := r.value;
    } else if x.N <= 8 {
      var r := x.ToULLong();
      h := r.value;
    } else {
      var s := x.ToString('0', '1');
      h := strHash(s);
    }
  }
}
