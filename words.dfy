/** Backing words of a compact bitset.

    The C++ type picks `uint8_t`, `uint16_t`, `uint32_t` or `uint64_t` as its word.
    A word of width `t` is modelled as a natural number below `2^t` (`Fits`). The
    C++ word expressions the bitset uses (`w >> k & 0x1`, `w | T{1} << k`,
    `w & ~(T{1} << k)`, `w & ((T(1) << k) - 1)`, `~w` stored back into `T`) are
    functions on those numbers, and each has a lemma giving its effect on every bit. */
module Words {

  function Pow2(k: nat): (p: nat)
    ensures p > 0
  {
    if k == 0 then 1 else 2 * Pow2(k - 1)
  }

  /** Bit `k` of `w`, that is `w >> k & 0x1`. */
  function Bit(w: nat, k: nat): bool
  {
    if k == 0 then w % 2 == 1 else Bit(w / 2, k - 1)
  }

  /** `w` is a value of a `t`-bit unsigned type. */
  predicate Fits(w: nat, t: nat)
  {
    w < Pow2(t)
  }

  /** The word with exactly the low `k` bits set: `(T(1) << k) - 1`, and `~T(0)`
      when `k` is the width of `T`. */
  function Mask(k: nat): nat
  {
    Pow2(k) - 1
  }

  /** `w & Mask(k)`: the low `k` bits of `w`. */
  function Masked(w: nat, k: nat): nat
  {
    if k == 0 then 0 else w % 2 + 2 * Masked(w / 2, k - 1)
  }

  /** `~w` stored back into a `t`-bit word. */
  function Complement(w: nat, t: nat): nat
    requires Fits(w, t)
  {
    Pow2(t) - 1 - w
  }

  /** `w` after `reference::operator=(b)` on offset `k`: `w | T{1} << k` when `b`,
      else `w & ~(T{1} << k)`. Setting a set bit or clearing a clear one changes
      nothing; otherwise the bit's value `2^k` is added or taken away. */
  function WithBit(w: nat, k: nat, b: bool): nat
  {
    if b == Bit(w, k) then w
    else if b then w + Pow2(k)
    else BitOfSubPow2(w, k, k); w - Pow2(k)
  }

  /** `w >> k`. */
  function Shifted(w: nat, k: nat): nat
  {
    if k == 0 then w else Shifted(w / 2, k - 1)
  }

  /** Bit `j` of `w >> k` is bit `k + j` of `w`. */
  lemma {:induction false} BitOfShifted(w: nat, k: nat, j: nat)
    ensures Bit(Shifted(w, k), j) == Bit(w, k + j)
  {
    if k > 0 {
      BitOfShifted(w / 2, k - 1, j);
    }
  }

  /** Once `w >> k` is zero, no bit of `w` at or above `k` is set. */
  lemma ShiftedZero(w: nat, k: nat, j: nat)
    requires Shifted(w, k) == 0 && k <= j
    ensures !Bit(w, j)
  {
    BitOfShifted(w, k, j - k);
    ZeroBits(j - k);
  }

  /** `w >> (k + 1)` is `(w >> k) >> 1`. */
  lemma {:induction false} ShiftedStep(w: nat, k: nat)
    ensures Shifted(w, k + 1) == Shifted(w, k) / 2
  {
    if k > 0 {
      ShiftedStep(w / 2, k - 1);
    }
  }

  lemma {:induction false} Pow2Monotone(a: nat, b: nat)
    requires a <= b
    ensures Pow2(a) <= Pow2(b)
  {
    if a < b {
      Pow2Monotone(a, b - 1);
    }
  }

  /** `~bool(x)` as C++ evaluates it: the `bool` is promoted to the `int` 0 or 1, `~`
      yields -1 or -2, and that converts back to `bool` as "nonzero". */
  function PromotedComplement(b: bool): (r: bool)
    ensures r
  {
    (-1 - if b then 1 else 0) != 0
  }

  lemma {:induction false} BitAbove(w: nat, t: nat, j: nat)
    requires Fits(w, t) && j >= t
    ensures !Bit(w, j)
  {
    if j > 0 {
      if t > 0 {
        BitAbove(w / 2, t - 1, j - 1);
      } else {
        BitAbove(w / 2, 0, j - 1);
      }
    }
  }

  lemma {:induction false} BitOfMask(k: nat, j: nat)
    ensures Bit(Mask(k), j) == (j < k)
  {
    if k == 0 {
      BitAbove(0, 0, j);
    } else if j > 0 {
      assert Mask(k) / 2 == Mask(k - 1);
      BitOfMask(k - 1, j - 1);
    }
  }

  lemma {:induction false} BitOfMasked(w: nat, k: nat, j: nat)
    ensures Bit(Masked(w, k), j) == (j < k && Bit(w, j))
  {
    if k == 0 {
      BitAbove(0, 0, j);
    } else if j > 0 {
      assert Masked(w, k) / 2 == Masked(w / 2, k - 1);
      BitOfMasked(w / 2, k - 1, j - 1);
    }
  }

  lemma {:induction false} MaskedFits(w: nat, k: nat)
    ensures Fits(Masked(w, k), k)
  {
    if k > 0 {
      MaskedFits(w / 2, k - 1);
    }
  }

  lemma {:induction false} BitOfComplement(w: nat, t: nat, j: nat)
    requires Fits(w, t) && j < t
    ensures Bit(Complement(w, t), j) == !Bit(w, j)
  {
    if j > 0 {
      assert Complement(w, t) / 2 == Complement(w / 2, t - 1);
      BitOfComplement(w / 2, t - 1, j - 1);
    }
  }

  lemma {:induction false} BitOfAddPow2(w: nat, k: nat, j: nat)
    requires !Bit(w, k)
    ensures Bit(w + Pow2(k), j) == (j == k || Bit(w, j))
  {
    if k == 0 {
      if j > 0 {
        assert (w + 1) / 2 == w / 2;
      }
    } else {
      var p := Pow2(k - 1);
      assert w + Pow2(k) == 2 * (w / 2 + p) + w % 2;
      if j > 0 {
        BitOfAddPow2(w / 2, k - 1, j - 1);
      }
    }
  }

  lemma {:induction false} BitOfSubPow2(w: nat, k: nat, j: nat)
    requires Bit(w, k)
    ensures w >= Pow2(k)
    ensures Bit(w - Pow2(k), j) == (j != k && Bit(w, j))
  {
    if k == 0 {
      if j > 0 {
        assert (w - 1) / 2 == w / 2;
      }
    } else {
      var p := Pow2(k - 1);
      BitOfSubPow2(w / 2, k - 1, if j == 0 then 0 else j - 1);
      assert w - Pow2(k) == 2 * (w / 2 - p) + w % 2;
    }
  }

  /** Writing bit `k` sets that bit to `b` and leaves every other bit as it was. */
  lemma BitOfWithBit(w: nat, k: nat, b: bool, j: nat)
    ensures Bit(WithBit(w, k, b), j) == if j == k then b else Bit(w, j)
  {
    if b != Bit(w, k) {
      if b {
        BitOfAddPow2(w, k, j);
      } else {
        BitOfSubPow2(w, k, j);
      }
    }
  }

  /** Setting bit `k` of a value below `2^k` adds `2^k`. */
  lemma SetBitAbove(w: nat, k: nat)
    requires Fits(w, k)
    ensures WithBit(w, k, true) == w + Pow2(k)
  {
    BitAbove(w, k, k);
  }

  lemma {:induction false} AddPow2Fits(w: nat, t: nat, k: nat)
    requires Fits(w, t) && k < t && !Bit(w, k)
    ensures Fits(w + Pow2(k), t)
  {
    var q := Pow2(t - 1);
    assert Pow2(t) == 2 * q;
    if k > 0 {
      var p := Pow2(k - 1);
      AddPow2Fits(w / 2, t - 1, k - 1);
      assert w + Pow2(k) == 2 * (w / 2 + p) + w % 2;
    }
  }

  /** Writing a bit below the width keeps the word within the width. */
  lemma WithBitFits(w: nat, t: nat, k: nat, b: bool)
    requires Fits(w, t) && k < t
    ensures Fits(WithBit(w, k, b), t)
  {
    if b != Bit(w, k) && b {
      AddPow2Fits(w, t, k);
    }
  }

  /** Two `t`-bit words with the same bits below `t` are equal. */
  lemma {:induction false} Extensionality(w: nat, v: nat, t: nat)
    requires Fits(w, t) && Fits(v, t)
    requires forall j :: 0 <= j < t ==> Bit(w, j) == Bit(v, j)
    ensures w == v
  {
    if t > 0 {
      forall j | 0 <= j < t - 1
        ensures Bit(w / 2, j) == Bit(v / 2, j)
      {
        assert Bit(w, j + 1) == Bit(v, j + 1);
      }
      Extensionality(w / 2, v / 2, t - 1);
      assert Bit(w, 0) == Bit(v, 0);
    }
  }

  lemma {:induction false} ZeroBits(j: nat)
    ensures !Bit(0, j)
  {
    if j > 0 {
      ZeroBits(j - 1);
    }
  }

  /** A `t`-bit word is zero exactly when all its bits below `t` are clear. */
  lemma WordZero(w: nat, t: nat)
    requires Fits(w, t)
    ensures (w == 0) ==> (forall j :: 0 <= j < t ==> !Bit(w, j))
    ensures (forall j :: 0 <= j < t ==> !Bit(w, j)) ==> (w == 0)
  {
    forall j | 0 <= j < t {
      ZeroBits(j);
    }
    if forall j :: 0 <= j < t ==> !Bit(w, j) {
      Extensionality(w, 0, t);
    }
  }

  /** A `t`-bit word is `Mask(t)` exactly when all its bits below `t` are set. */
  lemma WordAllOnes(w: nat, t: nat)
    requires Fits(w, t)
    ensures (w == Mask(t)) ==> (forall j :: 0 <= j < t ==> Bit(w, j))
    ensures (forall j :: 0 <= j < t ==> Bit(w, j)) ==> (w == Mask(t))
  {
    forall j | 0 <= j < t {
      BitOfMask(t, j);
    }
    if forall j :: 0 <= j < t ==> Bit(w, j) {
      Extensionality(w, Mask(t), t);
    }
  }

  /** Two `t`-bit words are equal exactly when their bits below `t` agree. */
  lemma WordEqual(w: nat, v: nat, t: nat)
    requires Fits(w, t) && Fits(v, t)
    ensures (w == v) ==> (forall j :: 0 <= j < t ==> Bit(w, j) == Bit(v, j))
    ensures (forall j :: 0 <= j < t ==> Bit(w, j) == Bit(v, j)) ==> (w == v)
  {
    if forall j :: 0 <= j < t ==> Bit(w, j) == Bit(v, j) {
      Extensionality(w, v, t);
    }
  }

  /** `w & Mask(k)` is zero exactly when the bits of `w` below `k` are clear. */
  lemma MaskedZero(w: nat, k: nat)
    ensures (Masked(w, k) == 0) ==> (forall j :: 0 <= j < k ==> !Bit(w, j))
    ensures (forall j :: 0 <= j < k ==> !Bit(w, j)) ==> (Masked(w, k) == 0)
  {
    MaskedFits(w, k);
    WordZero(Masked(w, k), k);
    forall j | 0 <= j < k {
      BitOfMasked(w, k, j);
    }
  }

  /** `w & Mask(k) == Mask(k)` exactly when the bits of `w` below `k` are set. */
  lemma MaskedAllOnes(w: nat, k: nat)
    ensures (Masked(w, k) == Mask(k)) ==> (forall j :: 0 <= j < k ==> Bit(w, j))
    ensures (forall j :: 0 <= j < k ==> Bit(w, j)) ==> (Masked(w, k) == Mask(k))
  {
    MaskedFits(w, k);
    WordAllOnes(Masked(w, k), k);
    forall j | 0 <= j < k {
      BitOfMasked(w, k, j);
    }
  }

  /** `w & Mask(k) == v & Mask(k)` exactly when `w` and `v` agree below `k`. */
  lemma MaskedEqual(w: nat, v: nat, k: nat)
    ensures (Masked(w, k) == Masked(v, k)) ==> (forall j :: 0 <= j < k ==> Bit(w, j) == Bit(v, j))
    ensures (forall j :: 0 <= j < k ==> Bit(w, j) == Bit(v, j)) ==> (Masked(w, k) == Masked(v, k))
  {
    MaskedFits(w, k);
    MaskedFits(v, k);
    WordEqual(Masked(w, k), Masked(v, k), k);
    forall j | 0 <= j < k
      ensures Bit(Masked(w, k), j) == Bit(w, j) && Bit(Masked(v, k), j) == Bit(v, j)
    {
      BitOfMasked(w, k, j);
      BitOfMasked(v, k, j);
    }
  }

  lemma {:induction false} MulAtLeast(d: nat, k: nat)
    requires k >= 1
    ensures d * k >= d
  {
    if k > 1 {
      MulAtLeast(d, k - 1);
      assert d * k == d * (k - 1) + d;
    }
  }

  /** Division with remainder is unique. */
  lemma DivModUnique(x: nat, d: nat, q: nat, r: nat)
    requires d > 0 && x == d * q + r && r < d
    ensures x / d == q && x % d == r
  {
    var q', r' := x / d, x % d;
    assert x == d * q' + r';
    if q' > q {
      assert d * q' == d * q + d * (q' - q);
      MulAtLeast(d, q' - q);
      assert false;
    } else if q' < q {
      assert d * q == d * q' + d * (q - q');
      MulAtLeast(d, q - q');
      assert false;
    }
  }

  /** `Masked` is the remainder modulo `2^k`, the arithmetic reading of
      `w & ((T(1) << k) - 1)`. */
  lemma {:induction false} MaskedIsMod(w: nat, k: nat)
    ensures Masked(w, k) == w % Pow2(k)
  {
    if k > 0 {
      MaskedIsMod(w / 2, k - 1);
      HalfDivMod(w, Pow2(k - 1));
    }
  }

  /** The remainder by `2 * p` from the remainder of the halved value by `p`. */
  lemma HalfDivMod(w: nat, p: nat)
    requires p > 0
    ensures w % (2 * p) == 2 * ((w / 2) % p) + w % 2
  {
    var q, r := (w / 2) / p, (w / 2) % p;
    assert w / 2 == p * q + r;
    assert w == (2 * p) * q + (2 * r + w % 2);
    DivModUnique(w, 2 * p, q, 2 * r + w % 2);
  }

}
