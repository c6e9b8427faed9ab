/**
 * 32-bit machine words (Rust's `u32`) and the unsigned integers they denote.
 *
 * Every address and mask of the model is a `bv32`, so the source's bit operations
 * are written as they are there. Integer counts (how many subnets, how many
 * addresses) are related to words by `Value`, defined bit by bit, and the ranges
 * `lo..hi` that the source iterates over are modelled by `Range`.
 *
 * The facts about words that need bit-level reasoning are kept in small lemmas
 * that mention no integers (the solver decides those by bit-blasting); the lemmas
 * about `Value` only combine them.
 */
module Words {

  const AllOnes: bv32 := 0xFFFF_FFFF

  /** The number of distinct 32-bit words, 2^32. */
  const WordCount: nat := 0x1_0000_0000

  /** 2 to the power k. */
  function Pow2(k: nat): (r: nat)
    ensures r > 0
  {
    if k == 0 then 1 else 2 * Pow2(k - 1)
  }

  /** Bit i of w, counting from the least significant bit. */
  predicate Bit(w: bv32, i: bv8)
    requires i < 32
  {
    (w >> i) & 1 == 1
  }

  /** w consists of k one bits followed by 32 - k zero bits. */
  ghost predicate IsPrefixMask(w: bv32, k: bv8)
  {
    k <= 32 && forall i: bv8 :: i < 32 ==> (Bit(w, i) <==> 32 - k <= i)
  }

  /** The least significant bit of w as a number. */
  function LowBit(w: bv32): nat
  {
    if w & 1 == 1 then 1 else 0
  }

  /** The unsigned integer that w denotes. */
  function Value(w: bv32): nat
    decreases w
  {
    if w == 0 then 0 else 2 * Value(w >> 1) + LowBit(w)
  }

  /** n modulo 2^32, as a word: the word reached by counting up n times from 0. */
  function Word(n: nat): bv32
  {
    if n == 0 then 0 else Word(n - 1) + 1
  }

  // ---------------------------------------------------------------------------
  // Bit-level facts (no integers involved)

  lemma HalfSmaller(w: bv32)
    requires w != 0
    ensures w >> 1 < w && w >> 1 != AllOnes
  {}

  lemma EvenSucc(w: bv32)
    requires w & 1 == 0
    ensures (w + 1) >> 1 == w >> 1 && (w + 1) & 1 == 1
  {}

  lemma OddSucc(w: bv32)
    requires w & 1 == 1 && w != AllOnes
    ensures (w + 1) >> 1 == (w >> 1) + 1 && (w + 1) & 1 == 0
  {}

  lemma PredNotMax(w: bv32)
    requires w != 0
    ensures w - 1 != AllOnes && (w - 1) + 1 == w
  {}

  lemma ShiftBack(w: bv32)
    requires w < 0x8000_0000
    ensures (w << 1) >> 1 == w && (w << 1) & 1 == 0
    ensures ((w << 1) | 1) >> 1 == w && ((w << 1) | 1) & 1 == 1
  {}

  lemma PowerStep(k: bv8)
    requires 0 < k < 32
    ensures (1 as bv32) << k == ((1 as bv32) << (k - 1)) << 1
    ensures (1 as bv32) << (k - 1) < 0x8000_0000
  {}

  lemma OnesStep(k: bv8)
    requires 0 < k <= 32
    ensures AllOnes >> (32 - k) == ((AllOnes >> (33 - k)) << 1) | 1
    ensures AllOnes >> (33 - k) < 0x8000_0000
  {}

  lemma ZerosStep(w: bv32, s: bv8, k: bv8)
    requires s <= k <= 32 && 0 < k
    requires w << (32 - s) == 0
    requires (w >> s) | (AllOnes << (k - s)) == AllOnes
    ensures 0 < s ==> w & 1 == 0 && (w >> 1) << (33 - s) == 0
    ensures 0 < s ==> ((w >> 1) >> (s - 1)) | (AllOnes << (k - s)) == AllOnes
    ensures s == 0 ==> w & 1 == 1 && ((w >> 1) >> 0) | (AllOnes << (k - 1)) == AllOnes
    ensures s == 0 ==> (w >> 1) << 32 == 0
  {}

  lemma PrefixMaskShape(s: bv8)
    requires s < 32
    ensures (AllOnes << s) << (32 - s) == 0
    ensures ((AllOnes << s) >> s) | (AllOnes << (32 - s)) == AllOnes
  {}

  // ---------------------------------------------------------------------------
  // Value and Word

  lemma ValueUnfold(w: bv32)
    ensures Value(w) == 2 * Value(w >> 1) + LowBit(w)
  {
    if w == 0 {
      assert w >> 1 == 0;
    }
  }

  lemma ValueSuccStep(w: bv32, h: bv32)
    requires w != AllOnes && h == w >> 1
    requires w & 1 == 1 ==> Value(h + 1) == Value(h) + 1
    ensures Value(w + 1) == Value(w) + 1
  {
    ValueUnfold(w + 1);
    ValueUnfold(w);
    if w & 1 == 0 {
      EvenSucc(w);
    } else {
      OddSucc(w);
    }
  }

  /** Adding one to a word that is not all ones adds one to its value. */
  lemma {:induction false} ValueSucc(w: bv32)
    requires w != AllOnes
    ensures Value(w + 1) == Value(w) + 1
    decreases w
  {
    var h := w >> 1;
    if w & 1 == 1 {
      HalfSmaller(w);
      ValueSucc(h);
    }
    ValueSuccStep(w, h);
  }

  /** Subtracting one from a non-zero word subtracts one from its value. */
  lemma ValuePred(w: bv32)
    requires w != 0
    ensures Value(w - 1) + 1 == Value(w)
  {
    PredNotMax(w);
    ValueSucc(w - 1);
  }

  /** The word with only bit k set denotes 2^k. */
  lemma {:induction false} ValuePow2(k: bv8)
    requires k < 32
    ensures Value((1 as bv32) << k) == Pow2(k as int)
    decreases k
  {
    if k == 0 {
      ValueUnfold(1);
      assert (1 as bv32) >> 1 == 0;
    } else {
      PowerStep(k);
      var y := (1 as bv32) << (k - 1);
      ValuePow2(k - 1);
      ValueUnfold(y << 1);
      ShiftBack(y);
    }
  }

  /** The word whose k low bits are ones and the rest zeros denotes 2^k - 1. */
  lemma {:induction false} ValueLowOnes(k: bv8)
    requires k <= 32
    ensures Value(AllOnes >> (32 - k)) == Pow2(k as int) - 1
    decreases k
  {
    if k == 0 {
      assert AllOnes >> (32 - k) == 0;
    } else {
      OnesStep(k);
      var y := AllOnes >> (33 - k);
      ValueLowOnes(k - 1);
      assert 32 - (k - 1) == 33 - k;
      ValueUnfold((y << 1) | 1);
      ShiftBack(y);
    }
  }

  /** Every word is the Word of its value. */
  lemma {:induction false} WordValue(w: bv32)
    ensures Word(Value(w)) == w
    decreases Value(w)
  {
    if w != 0 {
      ValuePred(w);
      PredNotMax(w);
      WordValue(w - 1);
    }
  }

  lemma {:induction false} Pow2Add(a: nat, b: nat)
    ensures Pow2(a + b) == Pow2(a) * Pow2(b)
    decreases b
  {
    if b > 0 {
      Pow2Add(a, b - 1);
    }
  }

  lemma WordCountPower()
    ensures Pow2(32) == WordCount
  {
    assert Pow2(8) == 256;
    Pow2Add(8, 8);
    Pow2Add(16, 16);
  }

  /** Value of the all-ones word. */
  lemma ValueAllOnes()
    ensures Value(AllOnes) == WordCount - 1
  {
    WordCountPower();
    ValueLowOnes(32);
    assert AllOnes >> (32 - 32 as bv8) == AllOnes;
  }

  /** Below 2^32, Word and Value are inverse: Word(n) denotes n. */
  lemma {:induction false} ValueWord(n: nat)
    requires n < WordCount
    ensures Value(Word(n)) == n
  {
    if n > 0 {
      ValueWord(n - 1);
      ValueSuccBelow(Word(n - 1));
    }
  }

  lemma ValueSuccBelow(w: bv32)
    requires Value(w) + 1 < WordCount
    ensures Value(w + 1) == Value(w) + 1
  {
    ValueAllOnes();
    ValueSucc(w);
  }

  /** The word 2^k - 2, for 0 < k < 32, denotes 2^k - 2. */
  lemma ValuePow2Minus2(k: bv8)
    requires 0 < k < 32
    ensures Value((((1 as bv32) << k) - 1) - 1) == Pow2(k as int) - 2
  {
    var p := (1 as bv32) << k;
    PowerNonZero(k, p);
    ValuePow2(k);
    ValuePred(p);
    ValuePred(p - 1);
  }

  lemma PowerNonZero(k: bv8, p: bv32)
    requires 0 < k < 32 && p == (1 as bv32) << k
    ensures p != 0 && p - 1 != 0
  {}

  /** The word of k low one bits, less one, denotes 2^k - 2. */
  lemma ValueLowOnesMinus1(x: bv32, k: bv8)
    requires 0 < k <= 32 && x == AllOnes >> (32 - k)
    ensures Value(x - 1) == Pow2(k as int) - 2
  {
    ValueLowOnes(k);
    LowOnesNonZero(x, k);
    ValuePred(x);
  }

  lemma LowOnesNonZero(x: bv32, k: bv8)
    requires 0 < k <= 32 && x == AllOnes >> (32 - k)
    ensures x != 0
  {}

  lemma ShrStep(w: bv32, h: bv32, k: bv8)
    requires 0 < k <= 32 && h == w >> 1 && w >> k == 0
    ensures h >> (k - 1) == 0
  {}

  lemma ShrZero(w: bv32)
    requires w >> 0 == 0
    ensures w == 0
  {}

  /** A word whose bits from k upwards are zero denotes less than 2^k. */
  lemma {:induction false} ValueLess(w: bv32, k: bv8)
    requires k <= 32 && w >> k == 0
    ensures Value(w) < Pow2(k as int)
    decreases k
  {
    if k == 0 {
      ShrZero(w);
    } else {
      var h := w >> 1;
      ShrStep(w, h, k);
      ValueLess(h, k - 1);
      ValueUnfold(w);
    }
  }

  /** Every word denotes less than 2^32. */
  lemma ValueBound(w: bv32)
    ensures Value(w) < WordCount
  {
    WordCountPower();
    ValueLess(w, 32);
  }

  lemma ShrHalf(w: bv32, h: bv32, k: bv8)
    requires 0 < k <= 32 && h == w >> 1
    ensures w >> k == h >> (k - 1)
  {}

  /** Only the zero word denotes 0. */
  lemma ValueZero(w: bv32)
    requires Value(w) == 0
    ensures w == 0
  {
    WordValue(w);
  }

  /** Two words with the same value are the same word. */
  lemma ValueInjective(v: bv32, w: bv32)
    requires Value(v) == Value(w)
    ensures v == w
  {
    WordValue(v);
    WordValue(w);
  }

  /** The words denoting 0 and 1 are 0 and 1. */
  lemma ValueIsZero(w: bv32)
    ensures Value(w) == 0 <==> w == 0
  {
    if Value(w) == 0 {
      ValueZero(w);
    }
  }

  lemma ValueIsOne(w: bv32)
    ensures Value(w) == 1 <==> w == 1
  {
    if Value(w) == 1 {
      ValueInjective(w, 1);
    }
  }

  /** A word with a bit set at position k or above denotes at least 2^k. */
  lemma {:induction false} ValueAtLeast(w: bv32, k: bv8)
    requires k <= 32 && w >> k != 0
    ensures Value(w) >= Pow2(k as int)
    decreases k
  {
    if k == 0 {
      if Value(w) == 0 {
        ValueZero(w);
      }
    } else {
      var h := w >> 1;
      ShrHalf(w, h, k);
      ValueAtLeast(h, k - 1);
      ValueUnfold(w);
    }
  }

  /** Conversely, a word denoting less than 2^k has no bits from k upwards. */
  lemma ShrOfSmall(w: bv32, k: bv8)
    requires k <= 32 && Value(w) < Pow2(k as int)
    ensures w >> k == 0
  {
    if w >> k != 0 {
      ValueAtLeast(w, k);
    }
  }

  /** Powers of two grow with the exponent. */
  lemma {:induction false} Pow2Monotonic(a: nat, b: nat)
    requires a <= b
    ensures Pow2(a) <= Pow2(b)
    decreases b
  {
    if a < b {
      Pow2Monotonic(a, b - 1);
    }
  }

  lemma Pow2Step(s: bv8)
    requires 0 < s
    ensures Pow2(s as int) == 2 * Pow2((s - 1) as int)
  {
    assert (s - 1) as int == s as int - 1;
  }

  lemma AndNotStep(a: bv32, b: bv32, c: bv32, ha: bv32, hb: bv32, hc: bv32)
    requires a & b == b && c == a & !b && ha == a >> 1 && hb == b >> 1 && hc == c >> 1
    ensures hc == ha & !hb && ha & hb == hb
    ensures (b & 1 == 1 ==> a & 1 == 1 && c & 1 == 0) && (b & 1 == 0 ==> c & 1 == a & 1)
  {}

  /** Subtracting b, all of whose bits are set in a, clears those bits. */
  lemma SubtractBits(a: bv32, b: bv32)
    requires a & b == b
    ensures a - b == a & !b
  {}

  /** Clearing the bits of b, all of which are set in a, subtracts the value of b. */
  lemma {:induction false} ValueAndNot(a: bv32, b: bv32)
    requires a & b == b
    ensures Value(a & !b) + Value(b) == Value(a)
    decreases a
  {
    if a == 0 {
      assert b == 0 && a & !b == 0;
    } else {
      var c, ha, hb := a & !b, a >> 1, b >> 1;
      var hc := c >> 1;
      AndNotStep(a, b, c, ha, hb, hc);
      HalfSmaller(a);
      ValueAndNot(ha, hb);
      ValueUnfold(a);
      ValueUnfold(b);
      ValueUnfold(c);
    }
  }

  lemma MulMonotonic(m: int, a: int, b: int)
    requires 0 < m
    ensures a <= b ==> m * a <= m * b
  {
    assert m * b - m * a == m * (b - a);
  }

  /** Division with remainder is unique. */
  lemma ModUnique(x: int, m: int, d: int, r: int)
    requires 0 < m && x == m * d + r && 0 <= r < m
    ensures x % m == r
  {
    var q := x / m;
    assert x == m * q + x % m;
    MulMonotonic(m, q + 1, d);
    MulMonotonic(m, d + 1, q);
  }

  /** The quotient of a division with remainder is unique. */
  lemma DivUnique(x: int, m: int, d: int, r: int)
    requires 0 < m && x == m * d + r && 0 <= r < m
    ensures x / m == d
  {
    var q := x / m;
    assert x == m * q + x % m;
    MulMonotonic(m, q + 1, d);
    MulMonotonic(m, d + 1, q);
  }

  /** Dividing by a and then by b is dividing by a * b. */
  lemma DivDiv(n: nat, a: nat, b: nat)
    requires 0 < a && 0 < b
    ensures n / a / b == n / (a * b)
  {
    var q, r1, r2 := n / a / b, n % a, n / a % b;
    assert n / a == b * q + r2;
    assert n == a * (n / a) + r1;
    assert n == (a * b) * q + (a * r2 + r1) by {
      assert a * (b * q + r2) == (a * b) * q + a * r2;
    }
    MulMonotonic(a, r2, b - 1);
    assert a * (b - 1) == a * b - a;
    DivUnique(n, a * b, q, a * r2 + r1);
  }

  /** Shifting right by k divides the value by 2^k. */
  lemma {:induction false} ValueShr(w: bv32, k: bv8)
    requires k <= 32
    ensures Value(w >> k) == Value(w) / Pow2(k as int)
    decreases k
  {
    if k == 0 {
      ValueShrNone(w, k);
    } else {
      ValueShr(w >> 1, k - 1);
      ValueShrStep(w, w >> 1, k);
    }
  }

  lemma ValueShrStep(w: bv32, h: bv32, k: bv8)
    requires 0 < k <= 32 && h == w >> 1
    requires Value(h >> (k - 1)) == Value(h) / Pow2((k - 1) as int)
    ensures Value(w >> k) == Value(w) / Pow2(k as int)
  {
    ShrHalf(w, h, k);
    ValueUnfold(w);
    Pow2Step(k);
    HalveThenDivide(Value(w), Value(h), LowBit(w), Pow2((k - 1) as int), Pow2(k as int));
  }

  lemma HalveThenDivide(v: nat, half: nat, low: nat, p: nat, q: nat)
    requires v == 2 * half + low && low < 2 && 0 < p && q == 2 * p
    ensures half / p == v / q
  {
    DivUnique(v, 2, half, low);
    DivDiv(v, 2, p);
  }

  lemma ValueShrNone(w: bv32, k: bv8)
    requires k == 0
    ensures Value(w >> k) == Value(w) / Pow2(k as int)
  {
    assert w >> k == w;
    assert Pow2(k as int) == Pow2(0) == 1;
  }

  lemma LowBitsArith(vw: nat, vh: nat, vx: nat, vxh: nat, bw: nat, bx: nat, p: nat, p1: nat)
    requires vw == 2 * vh + bw && vx == 2 * vxh + bx && bx == bw && bw < 2
    requires 0 < p1 && p == 2 * p1 && vxh == vh % p1
    ensures vx == vw % p
  {
    var d, r := vh / p1, vh % p1;
    assert vh == p1 * d + r;
    ModUnique(vw, p, d, 2 * r + bw);
  }

  lemma MaskHalf(m: bv32, s: bv8, hm: bv32)
    requires 0 < s <= 32 && m == AllOnes >> (32 - s) && hm == m >> 1
    ensures hm == AllOnes >> (32 - (s - 1)) && m & 1 == 1
  {}

  lemma AndHalf(w: bv32, m: bv32, x: bv32, h: bv32, hm: bv32, hx: bv32)
    requires x == w & m && h == w >> 1 && hm == m >> 1 && hx == x >> 1 && m & 1 == 1
    ensures hx == h & hm && x & 1 == w & 1
  {}

  /** The s low bits of a word denote its value modulo 2^s. */
  lemma {:induction false} ValueLowBits(w: bv32, m: bv32, s: bv8)
    requires s <= 32 && m == AllOnes >> (32 - s)
    ensures Value(w & m) == Value(w) % Pow2(s as int)
    decreases s
  {
    if s == 0 {
      assert m == 0;
    } else {
      var x, h, hm := w & m, w >> 1, m >> 1;
      var hx := x >> 1;
      MaskHalf(m, s, hm);
      AndHalf(w, m, x, h, hm, hx);
      ValueLowBits(h, hm, s - 1);
      ValueUnfold(w);
      ValueUnfold(x);
      Pow2Step(s);
      LowBitsArith(Value(w), Value(h), Value(x), Value(hx), LowBit(w), LowBit(x), Pow2(s as int), Pow2((s - 1) as int));
    }
  }

  // ---------------------------------------------------------------------------
  // Ranges

  /** Rust's half-open range `lo..hi` of u32 values, in the order it yields them. */
  function Range(lo: bv32, hi: bv32): seq<bv32>
  {
    if lo < hi then seq(Value(hi - lo), j requires 0 <= j => Word(j) + lo) else []
  }

  /** Rust's inclusive range `lo..=hi` of u32 values, in the order it yields them. */
  function InclusiveRange(lo: bv32, hi: bv32): seq<bv32>
  {
    if lo <= hi then seq(Value(hi - lo) + 1, j requires 0 <= j => Word(j) + lo) else []
  }

  /** `1..hi` yields the hi - 1 words 1, 2, ..., hi - 1. */
  lemma RangeFromOne(hi: bv32)
    ensures hi != 0 ==> |Range(1, hi)| + 1 == Value(hi)
    ensures forall j :: 0 <= j < |Range(1, hi)| ==> Range(1, hi)[j] == Word(j + 1)
  {
    if hi != 0 {
      ValuePred(hi);
    }
  }

  /** `1..=hi` yields the hi words 1, 2, ..., hi. */
  lemma InclusiveRangeFromOne(hi: bv32)
    ensures |InclusiveRange(1, hi)| == Value(hi)
    ensures forall j :: 0 <= j < |InclusiveRange(1, hi)| ==> InclusiveRange(1, hi)[j] == Word(j + 1)
  {
    InclusiveRangeCount(hi);
  }

  lemma InclusiveRangeCount(hi: bv32)
    ensures |InclusiveRange(1, hi)| == Value(hi)
  {
    if hi == 0 {
      assert !(1 <= hi);
    } else {
      OneAtMost(hi);
      ValuePred(hi);
    }
  }

  lemma OneAtMost(hi: bv32)
    requires hi != 0
    ensures 1 <= hi && hi - 1 != AllOnes
  {}

  // ---------------------------------------------------------------------------
  // Counting zero bits

  /** The number of zero bits among the k least significant bits of w. */
  function ZerosBelow(w: bv32, k: bv8): nat
    decreases k
  {
    if k == 0 then 0 else (if w & 1 == 0 then 1 else 0) + ZerosBelow(w >> 1, k - 1)
  }

  /** Rust's `u32::count_zeros`. */
  function CountZeros(w: bv32): nat
  {
    ZerosBelow(w, 32)
  }

  lemma {:induction false} ZerosBelowShape(w: bv32, s: bv8, k: bv8)
    requires s <= k <= 32
    requires w << (32 - s) == 0
    requires (w >> s) | (AllOnes << (k - s)) == AllOnes
    ensures ZerosBelow(w, k) == s as int
    decreases k
  {
    if k > 0 {
      ZerosStep(w, s, k);
      if s > 0 {
        ZerosBelowShape(w >> 1, s - 1, k - 1);
      } else {
        ZerosBelowShape(w >> 1, 0, k - 1);
      }
    }
  }

  /** A mask of 32 - s one bits followed by s zero bits has exactly s zero bits. */
  lemma CountZerosPrefixMask(s: bv8)
    requires s < 32
    ensures CountZeros(AllOnes << s) == s as int
  {
    PrefixMaskShape(s);
    ZerosBelowShape(AllOnes << s, s, 32);
  }
}
