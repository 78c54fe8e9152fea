/** Natural numbers as rows of bits, and the two bit tricks that find the length of a 64-bit word. */
module Bits {
  import opened Arith

  predicate Bit(v: nat, i: nat)
    decreases i
  {
    if i == 0 then v % 2 == 1 else Bit(v / 2, i - 1)
  }

  /** The bits of a number moved down by `k` places. */
  function ShiftRight(v: nat, k: nat): nat
    decreases k
  {
    if k == 0 then v else ShiftRight(v / 2, k - 1)
  }

  /** How often a number can be halved: the place above its highest bit. */
  function Levels(v: nat): (r: nat)
  {
    if v == 0 then 0 else 1 + Levels(v / 2)
  }

  // ----- Single bits -----

  lemma {:induction false} NoBit(i: nat)
    ensures !Bit(0, i)
  {
    if i > 0 { NoBit(i - 1); }
  }

  lemma {:induction false} ShiftBit(v: nat, k: nat, i: nat)
    ensures Bit(ShiftRight(v, k), i) <==> Bit(v, i + k)
    decreases k
  {
    if k > 0 { ShiftBit(v / 2, k - 1, i); }
  }

  lemma OrHalf(a: nat, b: nat)
    ensures Or(a, b) / 2 == Or(a / 2, b / 2)
    ensures Or(a, b) % 2 == 1 <==> a % 2 == 1 || b % 2 == 1
  {
  }

  lemma {:induction false} OrBit(a: nat, b: nat, i: nat)
    ensures Bit(Or(a, b), i) <==> Bit(a, i) || Bit(b, i)
    decreases i
  {
    OrHalf(a, b);
    if i > 0 { OrBit(a / 2, b / 2, i - 1); }
  }

  lemma {:induction false} OnesBit(k: nat, i: nat)
    ensures Bit(Pow(2, k) - 1, i) <==> i < k
    decreases i
  {
    if k == 0 {
      NoBit(i);
    } else {
      assert (Pow(2, k) - 1) / 2 == Pow(2, k - 1) - 1 && (Pow(2, k) - 1) % 2 == 1;
      if i > 0 { OnesBit(k - 1, i - 1); }
    }
  }

  /** A power of two has a bit in common with a mask exactly when the mask has that bit. */
  lemma {:induction false} PowerMask(p: nat, mask: nat)
    ensures And(Pow(2, p), mask) != 0 <==> Bit(mask, p)
    decreases p
  {
    if mask == 0 {
      NoBit(p);
    } else if p > 0 {
      assert Pow(2, p) / 2 == Pow(2, p - 1) && Pow(2, p) % 2 == 0;
      PowerMask(p - 1, mask / 2);
    } else {
      assert And(0, mask / 2) == 0;
    }
  }

  ghost predicate SameBits(a: nat, b: nat)
  {
    forall i: nat :: Bit(a, i) <==> Bit(b, i)
  }

  lemma {:induction false} SameBitsEqual(a: nat, b: nat)
    requires SameBits(a, b)
    ensures a == b
    decreases a + b
  {
    if a + b > 0 {
      assert Bit(a, 0) <==> Bit(b, 0);
      forall i: nat ensures Bit(a / 2, i) <==> Bit(b / 2, i) {
        assert Bit(a, i + 1) <==> Bit(b, i + 1);
      }
      SameBitsEqual(a / 2, b / 2);
    }
  }

  lemma {:induction false} HighestBit(v: nat)
    requires v > 0
    ensures Bit(v, Levels(v) - 1)
  {
    if v > 1 { HighestBit(v / 2); }
  }

  lemma {:induction false} NoHigherBit(v: nat, i: nat)
    requires i >= Levels(v)
    ensures !Bit(v, i)
  {
    if v == 0 { NoBit(i); } else { NoHigherBit(v / 2, i - 1); }
  }

  lemma {:induction false} LevelsBound(v: nat, k: nat)
    requires v < Pow(2, k)
    ensures Levels(v) <= k
  {
    if v > 0 { LevelsBound(v / 2, k - 1); }
  }

  lemma {:induction false} LevelsGrow(v: nat)
    ensures Levels(v) <= Levels(v + 1)
  {
    if v > 0 && (v + 1) / 2 == v / 2 + 1 { LevelsGrow(v / 2); }
  }

  // ----- Filling up below the highest bit -----

  /** One of the `k` bits from place `i` up is set. */
  predicate Any(v: nat, i: nat, k: nat)
    decreases k
  {
    k > 0 && (Bit(v, i) || Any(v, i + 1, k - 1))
  }

  lemma {:induction false} AnySplit(v: nat, i: nat, a: nat, b: nat)
    ensures Any(v, i, a + b) <==> Any(v, i, a) || Any(v, i + a, b)
    decreases a
  {
    if a > 0 { AnySplit(v, i + 1, a - 1, b); }
  }

  lemma {:induction false} AnyMember(v: nat, i: nat, k: nat, j: nat)
    requires i <= j < i + k && Bit(v, j)
    ensures Any(v, i, k)
    decreases k
  {
    if j > i { AnyMember(v, i + 1, k - 1, j); }
  }

  lemma {:induction false} NoneAbove(v: nat, i: nat, k: nat)
    requires i >= Levels(v)
    ensures !Any(v, i, k)
    decreases k
  {
    NoHigherBit(v, i);
    if k > 0 { NoneAbove(v, i + 1, k - 1); }
  }

  /** Every bit of `w` says whether one of the `k` bits from there up is set in `v`. */
  ghost predicate Spread(v: nat, w: nat, k: nat)
  {
    forall i: nat :: Bit(w, i) <==> Any(v, i, k)
  }

  lemma SpreadStart(v: nat)
    ensures Spread(v, v, 1)
  {
    forall i: nat ensures Bit(v, i) <==> Any(v, i, 1) {
    }
  }

  /** Or-ing a word with itself moved down doubles the spread. */
  lemma SpreadStep(v: nat, w: nat, k: nat)
    requires Spread(v, w, k)
    ensures Spread(v, Or(w, ShiftRight(w, k)), 2 * k)
  {
    forall i: nat ensures Bit(Or(w, ShiftRight(w, k)), i) <==> Any(v, i, 2 * k) {
      OrBit(w, ShiftRight(w, k), i);
      ShiftBit(w, k, i);
      AnySplit(v, i, k, k);
    }
  }

  /** The source's six steps. */
  function Smear(v: nat): nat
  {
    var v1 := Or(v, ShiftRight(v, 1));
    var v2 := Or(v1, ShiftRight(v1, 2));
    var v3 := Or(v2, ShiftRight(v2, 4));
    var v4 := Or(v3, ShiftRight(v3, 8));
    var v5 := Or(v4, ShiftRight(v4, 16));
    Or(v5, ShiftRight(v5, 32))
  }

  lemma SmearSpreads(v: nat)
    ensures Spread(v, Smear(v), 64)
  {
    var v1 := Or(v, ShiftRight(v, 1));
    var v2 := Or(v1, ShiftRight(v1, 2));
    var v3 := Or(v2, ShiftRight(v2, 4));
    var v4 := Or(v3, ShiftRight(v3, 8));
    var v5 := Or(v4, ShiftRight(v4, 16));
    SpreadStart(v);
    SpreadStep(v, v, 1);
    SpreadStep(v, v1, 2);
    SpreadStep(v, v2, 4);
    SpreadStep(v, v3, 8);
    SpreadStep(v, v4, 16);
    SpreadStep(v, v5, 32);
  }

  lemma AnyExactly(v: nat, i: nat, k: nat)
    requires Levels(v) <= k
    ensures Any(v, i, k) <==> i < Levels(v)
  {
    if i < Levels(v) {
      HighestBit(v);
      AnyMember(v, i, k, Levels(v) - 1);
    } else {
      NoneAbove(v, i, k);
    }
  }

  lemma SpreadAll(v: nat, w: nat, k: nat, ones: nat)
    requires Spread(v, w, k) && Levels(v) <= k && ones == Pow(2, Levels(v)) - 1
    ensures w == ones
  {
    forall i: nat ensures Bit(w, i) <==> Bit(ones, i) {
      OnesBit(Levels(v), i);
      AnyExactly(v, i, k);
      assert Bit(w, i) <==> Any(v, i, k);
    }
    SameBitsEqual(w, ones);
  }

  /** On a 64-bit word the six steps set every bit up to the highest, and no other. */
  lemma SmearFills(v: nat)
    requires Levels(v) <= 64
    ensures Smear(v) == Pow(2, Levels(v)) - 1
  {
    SmearSpreads(v);
    SpreadAll(v, Smear(v), 64, Pow(2, Levels(v)) - 1);
  }

  // ----- Finding the place of a single bit -----

  /** `n` blocks of `k` ones, each followed by `k` zeros. */
  function Stripes(k: nat, n: nat): nat
    decreases n
  {
    if n == 0 then 0 else Pow(2, k) - 1 + Pow(2, 2 * k) * Stripes(k, n - 1)
  }

  /** Adding above place `m` changes no bit below it. */
  lemma {:induction false} BitsOfSum(low: nat, high: nat, m: nat, i: nat)
    requires low < Pow(2, m)
    ensures Bit(low + Pow(2, m) * high, i) <==> if i < m then Bit(low, i) else Bit(high, i - m)
    decreases m
  {
    if m > 0 {
      var p := Pow(2, m - 1);
      assert Pow(2, m) * high == 2 * (p * high) by { MulAssoc(2, p, high); }
      assert (low + 2 * (p * high)) / 2 == low / 2 + p * high && (low + 2 * (p * high)) % 2 == low % 2;
      if i > 0 { BitsOfSum(low / 2, high, m - 1, i - 1); }
    }
  }

  /** The width of the stripes. */
  function Span(k: nat, n: nat): nat
    decreases n
  {
    if n == 0 then 0 else 2 * k + Span(k, n - 1)
  }

  /** The remainder, by repeated subtraction. */
  function Rem(i: nat, period: nat): (r: nat)
    requires period > 0
    ensures r < period
    decreases i
  {
    if i < period then i else Rem(i - period, period)
  }

  lemma {:induction false} StripesBit(k: nat, n: nat, i: nat)
    requires 0 < k && i < Span(k, n)
    ensures Bit(Stripes(k, n), i) <==> Rem(i, 2 * k) < k
    decreases n
  {
    PowMonotone(2, k, 2 * k);
    BitsOfSum(Pow(2, k) - 1, Stripes(k, n - 1), 2 * k, i);
    if i < 2 * k {
      OnesBit(k, i);
    } else {
      StripesBit(k, n - 1, i - 2 * k);
    }
  }

  lemma FourStripes(k: nat, n: nat, ones: nat, period: nat, s: nat)
    requires ones == Pow(2, k) - 1 && period == Pow(2, 2 * k) && s == Stripes(k, n)
    ensures Stripes(k, n + 4) == ones + period * (ones + period * (ones + period * (ones + period * s)))
    ensures Span(k, n + 4) == Span(k, n) + 8 * k
  {
    assert Stripes(k, n + 1) == ones + period * s;
    assert Stripes(k, n + 3) == ones + period * Stripes(k, n + 2);
    assert Span(k, n + 3) == 2 * k + Span(k, n + 2);
  }

  lemma Mask32()
    ensures Stripes(32, 1) == 0x0000_0000_FFFF_FFFF && Span(32, 1) == 64
  {
    assert Pow(2, 8) == 256;
    PowAdd(2, 8, 8);
    PowAdd(2, 16, 16);
    assert Stripes(32, 0) == 0;
  }

  lemma Mask16()
    ensures Stripes(16, 2) == 0x0000_FFFF_0000_FFFF && Span(16, 2) == 64
  {
    assert Pow(2, 8) == 256;
    PowAdd(2, 8, 8);
    PowAdd(2, 16, 16);
    assert Stripes(16, 1) == 0xFFFF;
  }

  lemma Mask8()
    ensures Stripes(8, 4) == 0x00FF_00FF_00FF_00FF && Span(8, 4) == 64
  {
    assert Pow(2, 8) == 256;
    PowAdd(2, 8, 8);
    FourStripes(8, 0, 0xFF, 0x1_0000, 0);
  }

  lemma Mask4()
    ensures Stripes(4, 8) == 0x0F0F_0F0F_0F0F_0F0F && Span(4, 8) == 64
  {
    assert Pow(2, 4) == 16 && Pow(2, 8) == 256;
    FourStripes(4, 0, 0xF, 0x100, 0);
    FourStripes(4, 4, 0xF, 0x100, 0x0F0F_0F0F);
  }

  lemma Mask2()
    ensures Stripes(2, 16) == 0x3333_3333_3333_3333 && Span(2, 16) == 64
  {
    assert Pow(2, 2) == 4 && Pow(2, 4) == 16;
    FourStripes(2, 0, 3, 0x10, 0);
    FourStripes(2, 4, 3, 0x10, 0x3333);
    FourStripes(2, 8, 3, 0x10, 0x3333_3333);
    FourStripes(2, 12, 3, 0x10, 0x3333_3333_3333);
  }

  lemma Mask1()
    ensures Stripes(1, 32) == 0x5555_5555_5555_5555 && Span(1, 32) == 64
  {
    assert Pow(2, 1) == 2 && Pow(2, 2) == 4;
    FourStripes(1, 0, 1, 4, 0);
    FourStripes(1, 4, 1, 4, 0x55);
    FourStripes(1, 8, 1, 4, 0x5555);
    FourStripes(1, 12, 1, 4, 0x55_5555);
    FourStripes(1, 16, 1, 4, 0x5555_5555);
    FourStripes(1, 20, 1, 4, 0x55_5555_5555);
    FourStripes(1, 24, 1, 4, 0x5555_5555_5555);
    FourStripes(1, 28, 1, 4, 0x55_5555_5555_5555);
  }

  /** The source's parallel search, on a word with one bit set or none. */
  function ClzPower2(v: nat): int
  {
    64
    - (if v != 0 then 1 else 0)
    - (if And(v, 0x0000_0000_FFFF_FFFF) != 0 then 32 else 0)
    - (if And(v, 0x0000_FFFF_0000_FFFF) != 0 then 16 else 0)
    - (if And(v, 0x00FF_00FF_00FF_00FF) != 0 then 8 else 0)
    - (if And(v, 0x0F0F_0F0F_0F0F_0F0F) != 0 then 4 else 0)
    - (if And(v, 0x3333_3333_3333_3333) != 0 then 2 else 0)
    - (if And(v, 0x5555_5555_5555_5555) != 0 then 1 else 0)
  }

  lemma StripeMask(k: nat, n: nat, p: nat, mask: nat)
    requires 0 < k && mask == Stripes(k, n) && p < Span(k, n)
    ensures And(Pow(2, p), mask) != 0 <==> Rem(p, 2 * k) < k
  {
    PowerMask(p, mask);
    StripesBit(k, n, p);
  }

  lemma {:induction false} HalfPeriod(p: nat, k: nat)
    requires k > 0
    ensures Rem(p, 2 * k) == Rem(p, k) + if Rem(p, 2 * k) < k then 0 else k
    decreases p
  {
    if p >= 2 * k {
      HalfPeriod(p - 2 * k, k);
      assert Rem(p, k) == Rem(p - k, k) == Rem(p - k - k, k);
    } else if p >= k {
      assert Rem(p - k, k) == p - k;
    }
  }

  lemma UpperHalf(big: nat, small: nat, k: nat, taken: nat)
    requires big == small + (if big < k then 0 else k) && taken == if big < k then k else 0
    ensures big == small + k - taken
  {
  }

  lemma HalfTaken(p: nat, k: nat, taken: nat)
    requires k > 0 && taken == if Rem(p, 2 * k) < k then k else 0
    ensures Rem(p, 2 * k) == Rem(p, k) + k - taken
  {
    HalfPeriod(p, k);
    UpperHalf(Rem(p, 2 * k), Rem(p, k), k, taken);
  }

  lemma LowRemainders(p: nat, d: nat, e: nat, f: nat)
    requires d == (if Rem(p, 8) < 4 then 4 else 0) && e == (if Rem(p, 4) < 2 then 2 else 0)
    requires f == if Rem(p, 2) < 1 then 1 else 0
    ensures Rem(p, 8) == 7 - d - e - f
  {
    HalfTaken(p, 4, d);
    HalfTaken(p, 2, e);
    HalfTaken(p, 1, f);
  }

  /** A number below 64 from its remainders. */
  lemma FromRemainders(p: nat, a: nat, b: nat, c: nat, d: nat, e: nat, f: nat)
    requires p < 64
    requires a == (if Rem(p, 64) < 32 then 32 else 0) && b == (if Rem(p, 32) < 16 then 16 else 0)
    requires c == (if Rem(p, 16) < 8 then 8 else 0) && d == (if Rem(p, 8) < 4 then 4 else 0)
    requires e == (if Rem(p, 4) < 2 then 2 else 0) && f == (if Rem(p, 2) < 1 then 1 else 0)
    ensures p == 63 - a - b - c - d - e - f
  {
    HalfTaken(p, 32, a);
    HalfTaken(p, 16, b);
    HalfTaken(p, 8, c);
    LowRemainders(p, d, e, f);
  }

  lemma ClzFrom(v: nat, p: nat)
    requires v != 0 && p < 64
    requires And(v, 0x0000_0000_FFFF_FFFF) != 0 <==> Rem(p, 64) < 32
    requires And(v, 0x0000_FFFF_0000_FFFF) != 0 <==> Rem(p, 32) < 16
    requires And(v, 0x00FF_00FF_00FF_00FF) != 0 <==> Rem(p, 16) < 8
    requires And(v, 0x0F0F_0F0F_0F0F_0F0F) != 0 <==> Rem(p, 8) < 4
    requires And(v, 0x3333_3333_3333_3333) != 0 <==> Rem(p, 4) < 2
    requires And(v, 0x5555_5555_5555_5555) != 0 <==> Rem(p, 2) < 1
    ensures ClzPower2(v) == p
  {
    FromRemainders(p, if Rem(p, 64) < 32 then 32 else 0, if Rem(p, 32) < 16 then 16 else 0,
                   if Rem(p, 16) < 8 then 8 else 0, if Rem(p, 8) < 4 then 4 else 0,
                   if Rem(p, 4) < 2 then 2 else 0, if Rem(p, 2) < 1 then 1 else 0);
  }

  lemma At32(v: nat, p: nat)
    requires v == Pow(2, p) && p < 64
    ensures And(v, 0x0000_0000_FFFF_FFFF) != 0 <==> Rem(p, 64) < 32
  {
    Mask32();
    StripeMask(32, 1, p, 0x0000_0000_FFFF_FFFF);
  }

  lemma At16(v: nat, p: nat)
    requires v == Pow(2, p) && p < 64
    ensures And(v, 0x0000_FFFF_0000_FFFF) != 0 <==> Rem(p, 32) < 16
  {
    Mask16();
    StripeMask(16, 2, p, 0x0000_FFFF_0000_FFFF);
  }

  lemma At8(v: nat, p: nat)
    requires v == Pow(2, p) && p < 64
    ensures And(v, 0x00FF_00FF_00FF_00FF) != 0 <==> Rem(p, 16) < 8
  {
    Mask8();
    StripeMask(8, 4, p, 0x00FF_00FF_00FF_00FF);
  }

  lemma At4(v: nat, p: nat)
    requires v == Pow(2, p) && p < 64
    ensures And(v, 0x0F0F_0F0F_0F0F_0F0F) != 0 <==> Rem(p, 8) < 4
  {
    Mask4();
    StripeMask(4, 8, p, 0x0F0F_0F0F_0F0F_0F0F);
  }

  lemma At2(v: nat, p: nat)
    requires v == Pow(2, p) && p < 64
    ensures And(v, 0x3333_3333_3333_3333) != 0 <==> Rem(p, 4) < 2
  {
    Mask2();
    StripeMask(2, 16, p, 0x3333_3333_3333_3333);
  }

  lemma At1(v: nat, p: nat)
    requires v == Pow(2, p) && p < 64
    ensures And(v, 0x5555_5555_5555_5555) != 0 <==> Rem(p, 2) < 1
  {
    Mask1();
    StripeMask(1, 32, p, 0x5555_5555_5555_5555);
  }

  /** Despite its name in the source it finds the place of the bit. */
  lemma ClzFindsPlace(p: nat)
    requires p < 64
    ensures ClzPower2(Pow(2, p)) == p
  {
    var v := Pow(2, p);
    At32(v, p);
    At16(v, p);
    At8(v, p);
    At4(v, p);
    At2(v, p);
    At1(v, p);
    ClzFrom(v, p);
  }

  // ----- The depth of a tree -----

  const TWO_64: nat := 0x1_0000_0000_0000_0000

  function Wrap64(x: nat): (r: nat)
  {
    x % TWO_64
  }

  function NextPowerOf2(v: nat): nat
    requires v > 0
  {
    Wrap64(Smear(v - 1) + 1)
  }

  function MaxDepth(count: nat): int
  {
    if count == 0 then 0 else ClzPower2(NextPowerOf2(count)) + 1
  }

  lemma PowerDoubled(k: nat, p: nat)
    requires Pow(2, k) == p
    ensures Pow(2, 2 * k) == p * p
  {
    PowAdd(2, k, k);
  }

  lemma TopPower(k: nat)
    requires k == 64
    ensures Pow(2, k) == TWO_64
  {
    var e := k / 8;
    assert Pow(2, e) == 256;
    PowerDoubled(e, 256);
    PowerDoubled(2 * e, 0x1_0000);
    PowerDoubled(4 * e, 0x1_0000_0000);
  }

  lemma PowerWord(p: nat, k: nat)
    requires p <= k == 64
    ensures ClzPower2(Wrap64(Pow(2, p))) == p
  {
    TopPower(k);
    if p < k {
      PowMonotone(2, p + 1, k);
      DivModUnique(0, TWO_64, Pow(2, p));
      ClzFindsPlace(p);
    } else {
      DivModUnique(1, TWO_64, 0);
    }
  }

  lemma FewLevels(count: nat, k: nat)
    requires count < TWO_64 && k == 64
    ensures Levels(count) <= k
  {
    TopPower(k);
    LevelsBound(count, k);
  }

  lemma NextPowerIs(count: nat, ones: nat)
    requires Smear(count) == ones
    ensures NextPowerOf2(count + 1) == Wrap64(ones + 1)
  {
    assert count + 1 - 1 == count;
  }

  /** The depth the source computes for one more node than `count`, for every 64-bit count: the
      levels of the tree and one more. */
  lemma DepthIsLevels(count: nat)
    requires count < TWO_64
    ensures MaxDepth(count + 1) == Levels(count) + 1
  {
    FewLevels(count, 64);
    SmearFills(count);
    NextPowerIs(count, Pow(2, Levels(count)) - 1);
    PowerWord(Levels(count), 64);
  }
}
