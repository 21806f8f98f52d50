/** What the operations of a compact bitset compute, stated on the abstract bitset: a
    sequence of `N` booleans, index `i` being bit `i` (`b[i]`). */
module BitSeq {
  import opened Words
  import opened Errors

  function AllFalse(n: nat): seq<bool>
  {
    seq(n, _ => false)
  }

  function AllTrue(n: nat): seq<bool>
  {
    seq(n, _ => true)
  }

  /** No bit is set. */
  predicate NoneSet(s: seq<bool>)
  {
    forall i :: 0 <= i < |s| ==> !s[i]
  }

  /** Every bit is set. */
  predicate AllSet(s: seq<bool>)
  {
    forall i :: 0 <= i < |s| ==> s[i]
  }

  /** `g` with its first `i` bits replaced by those of `t`: a bitset part way through
      a loop that writes `t` into it one bit at a time from bit 0. */
  function Overlaid(g: seq<bool>, t: seq<bool>, i: nat): (s: seq<bool>)
    requires |g| == |t| && i <= |t|
    ensures |s| == |t|
  {
    seq(|t|, k requires 0 <= k < |t| => if k < i then t[k] else g[k])
  }

  /** Writing bit `i` of `t` moves the loop one step on; nothing to write when the bit
      already holds it. Before the first step the bitset is `g`, after the last `t`. */
  lemma OverlaidStep(g: seq<bool>, t: seq<bool>, i: nat)
    requires |g| == |t| && i < |t|
    ensures Overlaid(g, t, i + 1) == Overlaid(g, t, i)[i := t[i]]
    ensures g[i] == t[i] ==> Overlaid(g, t, i + 1) == Overlaid(g, t, i)
  {
    assert Overlaid(g, t, i + 1) == Overlaid(g, t, i)[i := t[i]];
  }

  lemma OverlaidEnds(g: seq<bool>, t: seq<bool>)
    requires |g| == |t|
    ensures Overlaid(g, t, 0) == g && Overlaid(g, t, |t|) == t
  {
  }

  /** `~x`: every bit inverted. */
  function Not(s: seq<bool>): seq<bool>
  {
    seq(|s|, i requires 0 <= i < |s| => !s[i])
  }

  /** `lhs & rhs`, bit by bit. */
  function And(a: seq<bool>, b: seq<bool>): seq<bool>
    requires |a| == |b|
  {
    seq(|a|, i requires 0 <= i < |a| => a[i] && b[i])
  }

  /** `lhs | rhs`, bit by bit. */
  function Or(a: seq<bool>, b: seq<bool>): seq<bool>
    requires |a| == |b|
  {
    seq(|a|, i requires 0 <= i < |a| => a[i] || b[i])
  }

  /** `lhs ^ rhs`, bit by bit. */
  function Xor(a: seq<bool>, b: seq<bool>): seq<bool>
    requires |a| == |b|
  {
    seq(|a|, i requires 0 <= i < |a| => a[i] != b[i])
  }

  /** `x << k`: bit `i` is bit `i - k` of `x` when `i >= k`, else clear. */
  function Shl(s: seq<bool>, k: nat): seq<bool>
  {
    seq(|s|, i requires 0 <= i < |s| => i >= k && s[i - k])
  }

  /** Bit `i` of `x` lands at `i + k` of `x << k`. */
  lemma ShlAt(s: seq<bool>, k: nat, i: nat)
    requires i + k < |s|
    ensures Shl(s, k)[i + k] == s[i]
  {
  }

  /** `x >> k`: bit `i` is bit `i + k` of `x` when that bit exists, else clear. */
  function Shr(s: seq<bool>, k: nat): seq<bool>
  {
    seq(|s|, i requires 0 <= i < |s| => i + k < |s| && s[i + k])
  }

  /** Bit `i + k` of `x` lands at `i` of `x >> k`. */
  lemma ShrAt(s: seq<bool>, k: nat, i: nat)
    requires i + k < |s|
    ensures Shr(s, k)[i] == s[i + k]
  {
  }

  /** The number of set bits. */
  function CountOf(s: seq<bool>): nat
  {
    if |s| == 0 then 0 else CountOf(s[..|s| - 1]) + if s[|s| - 1] then 1 else 0
  }

  /** The count is the number of positions holding a set bit. */
  lemma {:induction false} CountIsCardinality(s: seq<bool>)
    ensures CountOf(s) == |set i | 0 <= i < |s| && s[i]|
  {
    if |s| > 0 {
      var p := s[..|s| - 1];
      CountIsCardinality(p);
      var below := set i | 0 <= i < |p| && p[i];
      var all := set i | 0 <= i < |s| && s[i];
      if s[|s| - 1] {
        assert all == below + {|s| - 1};
      } else {
        assert all == below;
      }
    }
  }

  /** The set bits of `x` and of `~x` together are all `N` bits. */
  lemma {:induction false} CountComplement(s: seq<bool>)
    ensures CountOf(s) + CountOf(Not(s)) == |s|
  {
    if |s| > 0 {
      CountComplement(s[..|s| - 1]);
      assert Not(s)[..|s| - 1] == Not(s[..|s| - 1]);
    }
  }

  lemma {:induction false} CountAllTrue(n: nat)
    ensures CountOf(AllTrue(n)) == n
  {
    if n > 0 {
      CountAllTrue(n - 1);
      assert AllTrue(n)[..n - 1] == AllTrue(n - 1);
    }
  }

  lemma {:induction false} CountAllFalse(n: nat)
    ensures CountOf(AllFalse(n)) == 0
  {
    if n > 0 {
      CountAllFalse(n - 1);
      assert AllFalse(n)[..n - 1] == AllFalse(n - 1);
    }
  }

  /** `x ^ x` has no bit set, `x & ~x` neither, and `x | ~x` has every bit set. */
  lemma Complementary(s: seq<bool>)
    ensures Xor(s, s) == AllFalse(|s|)
    ensures And(s, Not(s)) == AllFalse(|s|)
    ensures Or(s, Not(s)) == AllTrue(|s|)
  {
  }

  /** Shifting by at least `N` in either direction clears every bit. */
  lemma ShiftsSaturate(s: seq<bool>, k: nat)
    requires k >= |s|
    ensures Shl(s, k) == AllFalse(|s|)
    ensures Shr(s, k) == AllFalse(|s|)
  {
  }

  /** Shifting left and then right by the same amount clears the top `k` bits and
      keeps the others. */
  lemma ShlThenShr(s: seq<bool>, k: nat)
    ensures Shr(Shl(s, k), k) == seq(|s|, i requires 0 <= i < |s| => i + k < |s| && s[i])
  {
  }

  /** The number whose binary digits, least significant first, are the bits. */
  function Value(s: seq<bool>): nat
  {
    if |s| == 0 then 0 else (if s[0] then 1 else 0) + 2 * Value(s[1..])
  }

  /** A value read from `k` bits is below `2^k`. */
  lemma {:induction false} ValueBound(s: seq<bool>)
    ensures Value(s) < Pow2(|s|)
  {
    if |s| > 0 {
      ValueBound(s[1..]);
    }
  }

  /** Bit `i` of the value is bit `i` of the bitset. */
  lemma {:induction false} BitOfValue(s: seq<bool>, i: nat)
    ensures Bit(Value(s), i) == (i < |s| && s[i])
  {
    if |s| == 0 {
      ZeroBits(i);
    } else {
      var d := if s[0] then 1 else 0;
      assert Value(s) == 2 * Value(s[1..]) + d;
      DivModUnique(Value(s), 2, Value(s[1..]), d);
      if i > 0 {
        BitOfValue(s[1..], i - 1);
      }
    }
  }

  /** Appending a bit adds its weight `2^k` when it is set. */
  lemma {:induction false} ValueSnoc(s: seq<bool>, b: bool)
    ensures Value(s + [b]) == Value(s) + if b then Pow2(|s|) else 0
  {
    if |s| > 0 {
      assert (s + [b])[1..] == s[1..] + [b];
      ValueSnoc(s[1..], b);
    }
  }

  /** Different bitsets of one size have different values. */
  lemma ValueInjective(a: seq<bool>, b: seq<bool>)
    requires |a| == |b| && Value(a) == Value(b)
    ensures a == b
  {
    forall i | 0 <= i < |a|
      ensures a[i] == b[i]
    {
      BitOfValue(a, i);
      BitOfValue(b, i);
    }
  }

  /** The first `n` binary digits of `v`, least significant first. */
  function IntToBits(n: nat, v: nat): seq<bool>
  {
    seq(n, i requires 0 <= i < n => Bit(v, i))
  }

  /** Reading an `n`-bit bitset built from `v` gives back `v` modulo `2^n`. */
  lemma {:induction false} IntRoundTrip(n: nat, v: nat)
    ensures Value(IntToBits(n, v)) == v % Pow2(n)
  {
    ValueOfIntToBits(n, v);
    MaskedIsMod(v, n);
  }

  lemma {:induction false} ValueOfIntToBits(n: nat, v: nat)
    ensures Value(IntToBits(n, v)) == Masked(v, n)
  {
    if n > 0 {
      assert IntToBits(n, v)[1..] == IntToBits(n - 1, v / 2);
      ValueOfIntToBits(n - 1, v / 2);
    }
  }

  /** Building a bitset from its own value gives it back. */
  lemma BitsRoundTrip(s: seq<bool>)
    ensures IntToBits(|s|, Value(s)) == s
  {
    forall i | 0 <= i < |s|
      ensures IntToBits(|s|, Value(s))[i] == s[i]
    {
      BitOfValue(s, i);
    }
  }

  /** `to_string(zero, one)`: character `i` is `one` when bit `i` is set, else `zero`. */
  function ToStr(s: seq<bool>, zero: char, one: char): string
  {
    seq(|s|, i requires 0 <= i < |s| => if s[i] then one else zero)
  }

  /** `std::string::npos`, the largest `size_t`. */
  const NPos: nat := 0xFFFF_FFFF_FFFF_FFFF

  /** How many characters the string constructor reads: from `pos` up to the end
      index `min(len, size)`, and no more than `n`. */
  function ReadCount(n: nat, size: nat, pos: nat, len: nat): nat
  {
    var end := if len < size then len else size;
    if end <= pos then 0 else if end - pos < n then end - pos else n
  }

  /** The bitset the string constructor builds from `str`, or the exception it throws. */
  function ParseString(n: nat, str: string, pos: nat, len: nat, zero: char, one: char): Result<seq<bool>>
  {
    if pos >= |str| then Err(OutOfRange)
    else
      var c := ReadCount(n, |str|, pos, len);
      if !Digits(str, pos, pos + c, zero, one) then Err(InvalidArgument)
      else Ok(ParsedBits(n, str, pos, c, one))
  }

  /** `std::basic_string(str)` on a NUL-terminated character array: the number of
      characters before the first NUL. */
  function CStrLen(a: seq<char>): (k: nat)
    requires '\0' in a
    ensures k < |a| && a[k] == '\0'
    ensures forall i :: 0 <= i < k ==> a[i] != '\0'
  {
    if a[0] == '\0' then 0 else 1 + CStrLen(a[1..])
  }

  /** A NUL among the characters read is neither digit, so the constructor throws
      `invalid_argument`. */
  lemma NulReadIsInvalid(n: nat, str: string, len: nat, zero: char, one: char, i: nat)
    requires i < |str| && i < len && i < n && str[i] == '\0'
    requires zero != '\0' && one != '\0'
    ensures ParseString(n, str, 0, len, zero, one) == Err(InvalidArgument)
  {
    assert i < ReadCount(n, |str|, 0, len);
  }

  /** Every character of `str[lo..hi]` is `zero` or `one`. */
  predicate Digits(str: string, lo: nat, hi: nat, zero: char, one: char)
    requires lo <= hi <= |str|
  {
    forall k :: lo <= k < hi ==> str[k] == zero || str[k] == one
  }

  /** Bit `j` is set when the `j`-th of the `c` characters read from `pos` is `one`. */
  function ParsedBits(n: nat, str: string, pos: nat, c: nat, one: char): (s: seq<bool>)
    requires pos + c <= |str|
    ensures |s| == n
  {
    seq(n, j requires 0 <= j < n => j < c && str[pos + j] == one)
  }

  /** Reading one more character sets bit `c` when that character is `one`. */
  lemma ParsedBitsStep(n: nat, str: string, pos: nat, c: nat, one: char)
    requires pos + c < |str| && c < n
    ensures ParsedBits(n, str, pos, c + 1, one) == ParsedBits(n, str, pos, c, one)[c := str[pos + c] == one]
  {
  }

  /** An empty string is out of range for every `n` and every `pos`, `n == 0` included. */
  lemma EmptyStringOutOfRange(n: nat, pos: nat, len: nat, zero: char, one: char)
    ensures ParseString(n, "", pos, len, zero, one) == Err(OutOfRange)
  {
  }

  /** Parsing what `to_string` printed gives the bitset back, when it has a bit. */
  lemma FormatThenParse(s: seq<bool>, zero: char, one: char)
    requires 0 < |s| <= NPos && zero != one
    ensures ParseString(|s|, ToStr(s, zero, one), 0, NPos, zero, one) == Ok(s)
  {
    var str := ToStr(s, zero, one);
    assert ReadCount(|s|, |str|, 0, NPos) == |s|;
    var parsed := ParsedBits(|s|, str, 0, |s|, one);
    forall j | 0 <= j < |s|
      ensures parsed[j] == s[j]
    {
    }
    assert parsed == s;
    assert ParseString(|s|, str, 0, NPos, zero, one) == Ok(parsed);
  }

  /** Printing what was parsed from a string of at most `n` `zero`s and `one`s gives
      the string back, followed by `zero`s for the bits it did not reach. */
  lemma ParseThenFormat(n: nat, str: string, zero: char, one: char)
    requires 0 < |str| <= n && |str| <= NPos && zero != one
    requires forall j :: 0 <= j < |str| ==> str[j] == zero || str[j] == one
    ensures ParseString(n, str, 0, NPos, zero, one).Ok?
    ensures ToStr(ParseString(n, str, 0, NPos, zero, one).value, zero, one)
         == str + seq(n - |str|, _ => zero)
  {
    assert ReadCount(n, |str|, 0, NPos) == |str|;
  }

  /** The length of the longest prefix of `input` made of `'0'` and `'1'`, at most `n`
      long: what `operator>>` consumes. */
  function PrefixLen(input: seq<char>, n: nat): (k: nat)
    ensures k <= n && k <= |input|
    ensures forall i :: 0 <= i < k ==> input[i] == '0' || input[i] == '1'
    ensures k < n && k < |input| ==> input[k] != '0' && input[k] != '1'
  {
    if n == 0 || |input| == 0 || (input[0] != '0' && input[0] != '1') then 0
    else 1 + PrefixLen(input[1..], n - 1)
  }

  /** A prefix of digits that stops at `n`, at the end of the input or before another
      character is the one `PrefixLen` finds. */
  lemma {:induction false} PrefixLenUnique(input: seq<char>, n: nat, k: nat)
    requires k <= n && k <= |input|
    requires forall i :: 0 <= i < k ==> input[i] == '0' || input[i] == '1'
    requires k < n && k < |input| ==> input[k] != '0' && input[k] != '1'
    ensures PrefixLen(input, n) == k
  {
    if k > 0 {
      PrefixLenUnique(input[1..], n - 1, k - 1);
    }
  }

  /** The bitset `operator>>` leaves behind: the consumed characters as bits, the rest clear. */
  function Extracted(input: seq<char>, n: nat): seq<bool>
  {
    ParsedBits(n, input, 0, PrefixLen(input, n), '1')
  }

  /** `std::hash`: the value for bitsets of at most 8 bits (on both integer paths),
      otherwise `strHash` (`std::hash<std::string>`) of `to_string()`. */
  function HashOf(s: seq<bool>, strHash: string -> nat): nat
  {
    if |s| <= 8 then Value(s) else strHash(ToStr(s, '0', '1'))
  }

  /** Bitsets of at most 8 bits never collide. */
  lemma HashInjectiveSmall(a: seq<bool>, b: seq<bool>, strHash: string -> nat)
    requires |a| == |b| <= 8 && a != b
    ensures HashOf(a, strHash) != HashOf(b, strHash)
  {
    if Value(a) == Value(b) {
      ValueInjective(a, b);
    }
  }
}
