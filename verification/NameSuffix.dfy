/** The suffix of an account name: twelve 5-bit symbols and a 4-bit one in a 64-bit word, of which the
    part after the last dot inside the name is kept. */
module NameSuffix {
  import opened Arith

  // ----- Names as symbol lists -----

  predicate IsDot(c: nat)
  {
    c == 0
  }

  /** The position of the last dot, or -1. */
  function LastDot(s: seq<nat>): (r: int)
    ensures -1 <= r < |s|
  {
    if s == [] then -1 else if IsDot(s[|s| - 1]) then |s| - 1 else LastDot(s[..|s| - 1])
  }

  /** The position of the last dot that some other symbol follows, or -1. */
  function LastInnerDot(s: seq<nat>): (r: int)
    ensures -1 <= r && (r >= 0 ==> r < |s| - 1)
  {
    if s == [] then -1
    else if IsDot(s[|s| - 1]) then LastInnerDot(s[..|s| - 1])
    else LastDot(s[..|s| - 1])
  }

  function Dots(n: nat): (r: seq<nat>)
    ensures |r| == n
  {
    if n == 0 then [] else Dots(n - 1) + [0]
  }

  /** Everything through that dot dropped, and dots added at the end. */
  function SuffixSymbols(s: seq<nat>): (r: seq<nat>)
    ensures |r| == |s|
  {
    var k: nat := LastInnerDot(s) + 1;
    s[k..] + Dots(k)
  }

  /** An inner dot at position `i`: some later symbol is not a dot. */
  predicate InnerDot(s: seq<nat>, i: int)
  {
    0 <= i < |s| && IsDot(s[i]) && exists j :: i < j < |s| && !IsDot(s[j])
  }

  lemma {:induction false} LastDotMeaning(s: seq<nat>)
    ensures LastDot(s) >= 0 ==> IsDot(s[LastDot(s)])
    ensures forall i :: LastDot(s) < i < |s| ==> !IsDot(s[i])
  {
    if s != [] && !IsDot(s[|s| - 1]) {
      LastDotMeaning(s[..|s| - 1]);
    }
  }

  /** `LastInnerDot` is an inner dot, and there is none after it. */
  lemma {:induction false} LastInnerDotMeaning(s: seq<nat>)
    ensures LastInnerDot(s) >= 0 ==> InnerDot(s, LastInnerDot(s))
    ensures forall i :: LastInnerDot(s) < i ==> !InnerDot(s, i)
  {
    if s != [] {
      var n := |s| - 1;
      var init := s[..n];
      if IsDot(s[n]) {
        LastInnerDotMeaning(init);
        forall i ensures InnerDot(s, i) <==> InnerDot(init, i) {
          if InnerDot(s, i) {
            var j :| i < j < |s| && !IsDot(s[j]);
            assert !IsDot(init[j]);
          }
          if InnerDot(init, i) {
            var j :| i < j < |init| && !IsDot(init[j]);
            assert !IsDot(s[j]);
          }
        }
      } else {
        LastDotMeaning(init);
      }
    }
  }

  lemma {:induction false} NoDotLeft(s: seq<nat>, k: nat)
    requires LastDot(s) < k <= |s|
    ensures LastDot(s[k..]) == -1
  {
    if k < |s| {
      NoDotLeft(s[..|s| - 1], k);
      assert s[k..][..|s| - k - 1] == s[..|s| - 1][k..];
    }
  }

  lemma {:induction false} NoInnerDotLeft(s: seq<nat>, k: nat)
    requires LastInnerDot(s) < k <= |s|
    ensures LastInnerDot(s[k..]) == -1
  {
    if k < |s| {
      var init := s[..|s| - 1];
      assert s[k..][..|s| - k - 1] == init[k..];
      if IsDot(s[|s| - 1]) {
        NoInnerDotLeft(init, k);
      } else {
        NoDotLeft(init, k);
      }
    }
  }

  lemma {:induction false} DotsAtEnd(s: seq<nat>, k: nat)
    ensures LastInnerDot(s + Dots(k)) == LastInnerDot(s)
  {
    if k == 0 {
      assert s + Dots(0) == s;
    } else {
      DotsAtEnd(s, k - 1);
      assert (s + Dots(k))[..|s| + k - 1] == s + Dots(k - 1);
    }
  }

  lemma NothingDropped(s: seq<nat>)
    requires LastInnerDot(s) == -1
    ensures SuffixSymbols(s) == s
  {
    assert s[0..] + Dots(0) == s;
  }

  /** The suffix has no dot inside it, so taking the suffix again changes nothing. */
  lemma SuffixIdempotent(s: seq<nat>)
    ensures LastInnerDot(SuffixSymbols(s)) == -1
    ensures SuffixSymbols(SuffixSymbols(s)) == SuffixSymbols(s)
  {
    var k: nat := LastInnerDot(s) + 1;
    NoInnerDotLeft(s, k);
    DotsAtEnd(s[k..], k);
    NothingDropped(SuffixSymbols(s));
  }

  // ----- Names as words -----

  /** The `count` low-order base-32 digits of `x`, most significant first. */
  function Fives(count: nat, x: nat): (r: seq<nat>)
    ensures |r| == count
  {
    if count == 0 then [] else Fives(count - 1, x / 32) + [x % 32]
  }

  /** Twelve symbols of five bits and one of four. */
  function Symbols(n: nat): (r: seq<nat>)
    ensures |r| == 13
  {
    Fives(12, n / 16) + [n % 16]
  }

  lemma {:induction false} FivesAt(count: nat, x: nat, i: nat)
    requires i < count
    ensures Fives(count, x)[i] == x / Pow(32, count - 1 - i) % 32
  {
    if i < count - 1 {
      FivesAt(count - 1, x / 32, i);
      DivDiv(x, 32, Pow(32, count - 2 - i));
    } else {
      assert Pow(32, 0) == 1;
    }
  }

  /** `x` with `j` zero digits after it in base 32. */
  function Up(x: nat, j: nat): (r: nat)
  {
    if j == 0 then x else 32 * Up(x, j - 1)
  }

  lemma {:induction false} UpProduct(x: nat, j: nat)
    ensures Up(x, j) == x * Pow(32, j)
  {
    if j > 0 {
      UpProduct(x, j - 1);
      MulAssoc(x, 32, Pow(32, j - 1));
      MulAssoc(32, x, Pow(32, j - 1));
    }
  }

  lemma {:induction false} UpSplit(x: nat, k: nat)
    ensures Up(x / Pow(32, k), k) + x % Pow(32, k) == x
  {
    UpProduct(x / Pow(32, k), k);
  }

  lemma {:induction false} UpBound(u: nat, k: nat, j: nat)
    requires u < Pow(32, k)
    ensures Up(u, j) + Pow(32, j) <= Pow(32, k + j)
  {
    if j > 0 { UpBound(u, k, j - 1); }
  }

  lemma {:induction false} FivesConcat(a: nat, b: nat, x: nat, y: nat)
    requires y < Pow(32, b)
    ensures Fives(a + b, Up(x, b) + y) == Fives(a, x) + Fives(b, y)
    decreases b
  {
    if b > 0 {
      assert y / 32 < Pow(32, b - 1);
      FivesConcat(a, b - 1, x, y / 32);
      assert (Up(x, b) + y) / 32 == Up(x, b - 1) + y / 32;
      assert (Up(x, b) + y) % 32 == y % 32;
    } else {
      assert Fives(0, y) == [];
    }
  }

  lemma {:induction false} FivesOfZero(count: nat)
    ensures Fives(count, 0) == Dots(count)
  {
    if count > 0 { FivesOfZero(count - 1); }
  }

  lemma {:induction false} FivesTail(count: nat, k: nat, x: nat)
    requires k <= count
    ensures Fives(count, x)[count - k..] == Fives(k, x)
  {
    if k > 0 {
      FivesTail(count - 1, k - 1, x / 32);
    }
  }

  lemma FivesOfRemainder(k: nat, x: nat)
    ensures Fives(k, x % Pow(32, k)) == Fives(k, x)
  {
    UpSplit(x, k);
    FivesConcat(0, k, x / Pow(32, k), x % Pow(32, k));
  }

  // ----- 64-bit operations -----

  const TWO_64: nat := 0x1_0000_0000_0000_0000

  function Wrap64(x: nat): (r: nat)
    ensures r < TWO_64
  {
    x % TWO_64
  }

  function ShiftRight(x: nat, k: nat): nat
  {
    x / Pow(2, k)
  }

  function ShiftLeft(x: nat, k: nat): nat
  {
    Wrap64(Doubled(x, k))
  }

  /** The loop over the twelve 5-bit symbols, and the thirteenth. */
  method FindInnerDot(n: nat) returns (after: int)
    ensures after == BitsAfter(LastInnerDot(Symbols(n)))
  {
    ghost var s := Symbols(n);
    var tmp := 0;
    after := 0;
    var bits := 59;
    ghost var i := 0;
    while bits >= 4
      invariant 0 <= i <= 12 && bits == 59 - 5 * i
      invariant tmp == BitsAfter(LastDot(s[..i])) && after == BitsAfter(LastInnerDot(s[..i]))
      decreases bits
    {
      SymbolAt(n, i);
      SymbolStep(s, i);
      var c := And(ShiftRight(n, bits), 0x1F);
      if c == 0 {
        tmp := bits;
      } else {
        after := tmp;
      }
      bits := bits - 5;
      i := i + 1;
    }
    ThirteenthSymbol(n);
    SymbolStep(s, 12);
    assert s[..13] == s;
    if And(n, 0x0F) != 0 {
      after := tmp;
    }
  }

  function Mask(after: nat): nat
  {
    Wrap64(ShiftLeft(1, after) + (TWO_64 - 16))
  }

  function Place(high: nat, low: nat, shift: nat): (r: nat)
    requires shift >= 1
    ensures r < TWO_64
  {
    Wrap64(ShiftLeft(high, shift) + ShiftLeft(low, shift - 1))
  }

  /** The source's expression for a name whose last inner dot has `after` bits behind it. */
  function MoveSuffix(n: nat, after: nat): (r: nat)
    requires 4 <= after <= 59
    ensures r < TWO_64
  {
    Place(And(n, Mask(after)), And(n, 0x0F), 64 - after)
  }

  /** The search and the expression that moves the suffix to the front, as the source writes them,
      compute the suffix of the symbol list. */
  method NameSuffix(n: nat) returns (r: nat)
    requires n < TWO_64
    ensures r < TWO_64
    ensures Symbols(r) == SuffixSymbols(Symbols(n))
  {
    var after := FindInnerDot(n);
    ghost var d := LastInnerDot(Symbols(n));
    if after == 0 {
      assert d == -1;
      NothingDropped(Symbols(n));
      return n;
    }
    SuffixMoves(n, d);
    r := MoveSuffix(n, after);
  }

  lemma {:induction false} FivesInjective(k: nat, a: nat, b: nat)
    requires a < Pow(32, k) && b < Pow(32, k) && Fives(k, a) == Fives(k, b)
    ensures a == b
  {
    if k > 0 {
      var fa, fb := Fives(k - 1, a / 32), Fives(k - 1, b / 32);
      assert fa == (fa + [a % 32])[..k - 1] && fb == (fb + [b % 32])[..k - 1];
      assert a % 32 == Fives(k, a)[k - 1] == Fives(k, b)[k - 1] == b % 32;
      FivesInjective(k - 1, a / 32, b / 32);
    }
  }

  /** A 64-bit name is determined by its symbols. */
  lemma SymbolsInjective(a: nat, b: nat)
    requires a < TWO_64 && b < TWO_64 && Symbols(a) == Symbols(b)
    ensures a == b
  {
    TopPower();
    var fa, fb := Fives(12, a / 16), Fives(12, b / 16);
    assert fa == Symbols(a)[..12] == Symbols(b)[..12] == fb;
    assert a % 16 == Symbols(a)[12] == Symbols(b)[12] == b % 16;
    FivesInjective(12, a / 16, b / 16);
  }

  /** The suffix of a suffix is the same word. */
  method NameSuffixTwice(n: nat) returns (once: nat, twice: nat)
    requires n < TWO_64
    ensures once == twice
    ensures Symbols(once) == SuffixSymbols(Symbols(n))
  {
    once := NameSuffix(n);
    twice := NameSuffix(once);
    SuffixIdempotent(Symbols(n));
    SymbolsInjective(once, twice);
  }

  /** The number of bits after the symbol at a position, 0 for none. */
  function BitsAfter(d: int): int
  {
    if d < 0 then 0 else 59 - 5 * d
  }

  /** What one more symbol does to the last dot and the last inner dot. */
  lemma SymbolStep(s: seq<nat>, i: nat)
    requires i < |s|
    ensures LastDot(s[..i + 1]) == if IsDot(s[i]) then i else LastDot(s[..i])
    ensures LastInnerDot(s[..i + 1]) == if IsDot(s[i]) then LastInnerDot(s[..i]) else LastDot(s[..i])
  {
    assert s[..i + 1][..i] == s[..i];
  }

  lemma PowFive(j: nat)
    ensures Pow(2, 5 * j) == Pow(32, j)
  {
    assert Pow(2, 5) == 32;
    PowPow(2, 5, j);
  }

  lemma PowFourFive(j: nat)
    ensures Pow(2, 4 + 5 * j) == 16 * Pow(32, j)
  {
    assert Pow(2, 4) == 16;
    PowAdd(2, 4, 5 * j);
    PowFive(j);
  }

  lemma SymbolAt(n: nat, i: nat)
    requires i < 12
    ensures And(ShiftRight(n, 59 - 5 * i), 0x1F) == Symbols(n)[i]
  {
    var k := 11 - i;
    assert Pow(2, 5) == 32;
    AndLowMask(ShiftRight(n, 59 - 5 * i), 5);
    PowFourFive(k);
    assert 59 - 5 * i == 4 + 5 * k;
    DivDiv(n, 16, Pow(32, k));
    FivesAt(12, n / 16, i);
  }

  lemma ThirteenthSymbol(n: nat)
    ensures And(n, 0x0F) == n % 16 == Symbols(n)[12]
  {
    assert Pow(2, 4) == 16;
    AndLowMask(n, 4);
  }

  // ----- Moving the suffix to the front -----

  lemma DoubledByFive(y: nat)
    ensures Doubled(y, 4) == 16 * y && Doubled(y, 5) == 32 * y
  {
    assert Doubled(y, 2) == 2 * Doubled(y, 1);
    assert Doubled(y, 4) == 2 * Doubled(y, 3);
  }

  lemma {:induction false} DoubledFive(x: nat, j: nat)
    ensures Doubled(x, 5 * j) == Up(x, j)
  {
    if j > 0 {
      DoubledFive(x, j - 1);
      DoubledMore(x, 5, 5 * (j - 1));
      DoubledByFive(Up(x, j - 1));
    }
  }

  lemma DoubledFourFive(x: nat, j: nat)
    ensures Doubled(x, 4 + 5 * j) == 16 * Up(x, j)
  {
    DoubledFive(x, j);
    DoubledMore(x, 4, 5 * j);
    DoubledByFive(Up(x, j));
  }

  lemma {:induction false} DoubledScaled(x: nat, k: nat)
    ensures Doubled(16 * x, k) == 16 * Doubled(x, k)
  {
    if k > 0 { DoubledScaled(x, k - 1); }
  }

  lemma WrapSmall(x: nat)
    requires x < TWO_64
    ensures Wrap64(x) == x
  {
    DivModUnique(0, TWO_64, x);
  }

  lemma WrapOnce(x: nat)
    requires x < TWO_64
    ensures Wrap64(x + TWO_64) == x
  {
    DivModUnique(1, TWO_64, x);
  }

  lemma {:induction false} UpOne(k: nat)
    ensures Up(1, k) == Pow(32, k)
  {
    if k > 0 { UpOne(k - 1); }
  }

  lemma MaskBit(k: nat)
    requires k <= 11
    ensures 16 <= 16 * Pow(32, k) < TWO_64
    ensures ShiftLeft(1, 4 + 5 * k) == 16 * Pow(32, k)
  {
    TopPower();
    PowMonotone(32, k, 12);
    PowMonotone(32, k + 1, 12);
    DoubledFourFive(1, k);
    UpOne(k);
    WrapSmall(16 * Pow(32, k));
  }

  lemma MaskWord(k: nat)
    requires k <= 11
    ensures Mask(4 + 5 * k) == 16 * Pow(32, k) - 16
  {
    var x := 16 * Pow(32, k);
    MaskBit(k);
    WrapOnce(x - 16);
    assert x + (TWO_64 - 16) == x - 16 + TWO_64;
  }

  lemma MaskProduct(k: nat)
    ensures 16 * Pow(32, k) - 16 == (Pow(2, 5 * k) - 1) * Pow(2, 4)
  {
    PowFive(k);
    assert Pow(2, 4) == 16;
  }

  /** The masked bits are the last `k` of the 5-bit symbols. */
  lemma MaskedValue(n: nat, k: nat)
    requires k <= 11
    ensures And(n, Mask(4 + 5 * k)) == 16 * (n / 16 % Pow(32, k))
  {
    MaskWord(k);
    MaskProduct(k);
    AndHighMask(n, 4, 5 * k);
    PowFive(k);
    assert Pow(2, 4) == 16;
  }

  /** The digits of `u`, then `t`, then zeros, as a base-32 number of twelve digits. */
  function Moved(u: nat, t: nat, k: nat): (r: nat)
    requires k <= 11
  {
    Up(u, 12 - k) + Up(t, 11 - k)
  }

  lemma {:induction false} UpSmall(t: nat, j: nat)
    requires t < 16
    ensures Up(t, j) < Pow(32, j + 1)
  {
    if j > 0 { UpSmall(t, j - 1); } else { assert Pow(32, 1) == 32 * Pow(32, 0); }
  }

  lemma MovedBound(u: nat, t: nat, k: nat)
    requires k <= 11 && u < Pow(32, k) && t < 16
    ensures Moved(u, t, k) < Pow(32, 12)
  {
    UpBound(u, k, 12 - k);
    UpSmall(t, 11 - k);
  }

  lemma ShiftSymbols(u: nat, k: nat)
    requires k <= 11 && u < Pow(32, k)
    ensures ShiftLeft(16 * u, 60 - 5 * k) == 16 * Up(u, 12 - k)
  {
    UpBound(u, k, 12 - k);
    TopPower();
    assert 60 - 5 * k == 5 * (12 - k);
    DoubledScaled(u, 60 - 5 * k);
    DoubledFive(u, 12 - k);
    WrapSmall(16 * Up(u, 12 - k));
  }

  lemma ShiftThirteenth(t: nat, k: nat)
    requires k <= 11 && t < 16
    ensures ShiftLeft(t, 59 - 5 * k) == 16 * Up(t, 11 - k)
  {
    UpSmall(t, 11 - k);
    PowMonotone(32, 12 - k, 12);
    TopPower();
    assert 59 - 5 * k == 4 + 5 * (11 - k);
    DoubledFourFive(t, 11 - k);
    WrapSmall(16 * Up(t, 11 - k));
  }

  /** The two shifts, and their sum, lose no bit and do not overlap. */
  lemma ShiftedValue(u: nat, t: nat, k: nat)
    requires k <= 11 && u < Pow(32, k) && t < 16
    ensures Place(16 * u, t, 60 - 5 * k) == 16 * Moved(u, t, k)
  {
    ShiftSymbols(u, k);
    ShiftThirteenth(t, k);
    MovedBound(u, t, k);
    TopPower();
    WrapSmall(16 * Moved(u, t, k));
  }

  lemma TopPower()
    ensures TWO_64 == 16 * Pow(32, 12)
  {
    assert Pow(32, 4) == 1048576;
    PowAdd(32, 4, 4);
    PowAdd(32, 8, 4);
  }

  lemma {:induction false} ThirteenthFives(t: nat, j: nat)
    requires t < 16
    ensures Fives(j + 1, Up(t, j)) == [t] + Dots(j)
  {
    if j > 0 {
      ThirteenthFives(t, j - 1);
      assert Up(t, j) / 32 == Up(t, j - 1) && Up(t, j) % 32 == 0;
    } else {
      assert Fives(1, t) == Fives(0, t / 32) + [t % 32];
    }
  }

  lemma DotsMoved(s: seq<nat>, t: nat, j: nat)
    ensures s + ([t] + Dots(j)) + [0] == s + [t] + Dots(j + 1)
  {
    assert Dots(j + 1) == Dots(j) + [0];
    assert s + ([t] + Dots(j)) + [0] == s + [t] + (Dots(j) + [0]);
  }

  lemma FivesMoved(u: nat, t: nat, k: nat, j: nat)
    requires u < Pow(32, k) && t < 16
    ensures Fives(k + (j + 1), Up(u, j + 1) + Up(t, j)) == Fives(k, u) + ([t] + Dots(j))
  {
    var y := Up(t, j);
    UpSmall(t, j);
    ThirteenthFives(t, j);
    FivesConcat(k, j + 1, u, y);
  }

  lemma MovedFives(u: nat, t: nat, k: nat)
    requires k <= 11 && u < Pow(32, k) && t < 16
    ensures Fives(12, Moved(u, t, k)) == Fives(k, u) + ([t] + Dots(11 - k))
  {
    var j := 11 - k;
    FivesMoved(u, t, k, j);
    assert k + (j + 1) == 12 && 12 - k == j + 1;
  }

  lemma SixteenTimes(m: nat, f: seq<nat>)
    requires Fives(12, m) == f
    ensures Symbols(16 * m) == f + [0]
  {
    DivModUnique(m, 16, 0);
  }

  lemma MovedSymbols(u: nat, t: nat, k: nat)
    requires k <= 11 && u < Pow(32, k) && t < 16
    ensures Symbols(16 * Moved(u, t, k)) == Fives(k, u) + [t] + Dots(12 - k)
  {
    MovedFives(u, t, k);
    SixteenTimes(Moved(u, t, k), Fives(k, u) + ([t] + Dots(11 - k)));
    DotsMoved(Fives(k, u), t, 11 - k);
  }

  /** The expression, as a base-32 number. */
  lemma MoveSuffixValue(n: nat, k: nat)
    requires k <= 11
    ensures MoveSuffix(n, 4 + 5 * k) == 16 * Moved(n / 16 % Pow(32, k), n % 16, k)
  {
    MaskedValue(n, k);
    ThirteenthSymbol(n);
    ShiftedValue(n / 16 % Pow(32, k), n % 16, k);
  }

  /** The expression, for the inner dot at position `d`. */
  lemma SuffixMoves(n: nat, d: nat)
    requires d <= 11
    ensures Symbols(MoveSuffix(n, BitsAfter(d))) == Symbols(n)[d + 1..] + Dots(d + 1)
  {
    var k := 11 - d;
    assert BitsAfter(d) == 4 + 5 * k;
    MoveSuffixValue(n, k);
    MovedSymbols(n / 16 % Pow(32, k), n % 16, k);
    SuffixSlice(n, k);
  }

  lemma SuffixSlice(n: nat, k: nat)
    requires k <= 12
    ensures Symbols(n)[12 - k..] == Fives(k, n / 16 % Pow(32, k)) + [n % 16]
  {
    FivesOfRemainder(k, n / 16);
    FivesTail(12, k, n / 16);
  }
}
