/** Powers, bitwise operations on natural numbers, little-endian numerals and the lexicographic
    order, shared by the byte-level modules. */
module Arith {

  type byte = x: int | 0 <= x < 256

  function Pow(base: nat, e: nat): (r: nat)
    ensures base > 0 ==> r > 0
  {
    if e == 0 then 1 else
      var p := Pow(base, e - 1);
      MulPositive(base, p);
      base * p
  }

  lemma MulPositive(a: nat, b: nat)
    ensures a * b >= 0
    ensures a > 0 && b > 0 ==> a * b > 0
  {
  }

  lemma {:induction false} PowAdd(base: nat, a: nat, b: nat)
    ensures Pow(base, a + b) == Pow(base, a) * Pow(base, b)
    decreases a
  {
    if a > 0 {
      PowAdd(base, a - 1, b);
      MulAssoc(base, Pow(base, a - 1), Pow(base, b));
    }
  }

  lemma {:induction false} PowPow(base: nat, a: nat, b: nat)
    ensures Pow(Pow(base, a), b) == Pow(base, a * b)
    decreases b
  {
    if b > 0 {
      PowPow(base, a, b - 1);
      PowAdd(base, a, a * (b - 1));
      assert a + a * (b - 1) == a * b;
    } else {
      assert a * b == 0;
    }
  }

  lemma {:induction false} PowMonotone(base: nat, a: nat, b: nat)
    requires base > 0 && a <= b
    ensures Pow(base, a) <= Pow(base, b)
    decreases b
  {
    if a < b {
      PowMonotone(base, a, b - 1);
      MulMonotone(1, base, Pow(base, b - 1));
    }
  }

  lemma MulAssoc(a: int, b: int, c: int)
    ensures (a * b) * c == a * (b * c)
  {
  }

  lemma MulMonotone(a: int, b: int, c: int)
    requires 0 <= c
    ensures a <= b ==> a * c <= b * c
    ensures a < b && 0 < c ==> a * c < b * c
  {
  }

  lemma Distribute(a: int, b: int, c: int)
    ensures (a + b) * c == a * c + b * c
    ensures c * (a + b) == c * a + c * b
  {
  }

  /** The quotient and remainder of a number written as `q * m + r`. */
  lemma DivModUnique(q: int, m: int, r: int)
    requires 0 <= r < m
    ensures (q * m + r) / m == q && (q * m + r) % m == r
  {
    var x := q * m + r;
    var d := x / m - q;
    assert x == m * (x / m) + x % m;
    assert m * (x / m) == m * q + m * d by { Distribute(q, d, m); assert q + d == x / m; }
    assert d * m == r - x % m;
    if d > 0 { MulMonotone(1, d, m); assert false; }
    if d < 0 { MulMonotone(d, -1, m); assert false; }
  }

  lemma DivBound(x: nat, m: nat, k: nat)
    requires m > 0 && x < m * k
    ensures x / m < k
  {
    if x / m >= k {
      MulMonotone(k, x / m, m);
      assert false;
    }
  }

  /** Bitwise or. */
  function Or(x: nat, y: nat): (r: nat)
  {
    if x == 0 then y
    else if y == 0 then x
    else 2 * Or(x / 2, y / 2) + (if x % 2 == 1 || y % 2 == 1 then 1 else 0)
  }

  /** Numbers with no common bit: "or" is addition. */
  lemma {:induction false} OrDisjoint(a: nat, k: nat, b: nat)
    requires b < Pow(2, k)
    ensures Or(a * Pow(2, k), b) == a * Pow(2, k) + b
    decreases k
  {
    if k == 0 {
      assert a * Pow(2, k) == a;
    } else if b > 0 {
      var p := Pow(2, k - 1);
      var x := a * Pow(2, k);
      assert x == 2 * (a * p) by { MulAssoc(a, 2, p); MulAssoc(2, a, p); }
      if x > 0 {
        DivModUnique(a * p, 2, 0);
        assert x / 2 == a * p && x % 2 == 0;
        OrDisjoint(a, k - 1, b / 2);
        assert b == 2 * (b / 2) + b % 2;
      }
    }
  }

  /** `x` with `k` zero bits after it. */
  function Doubled(x: nat, k: nat): nat
    decreases k
  {
    if k == 0 then x else 2 * Doubled(x, k - 1)
  }

  lemma {:induction false} DoubledMore(x: nat, a: nat, b: nat)
    ensures Doubled(x, a + b) == Doubled(Doubled(x, b), a)
    decreases a
  {
    if a > 0 { DoubledMore(x, a - 1, b); }
  }

  lemma {:induction false} DoubledOne(k: nat)
    ensures Doubled(1, k) == Pow(2, k)
  {
    if k > 0 { DoubledOne(k - 1); }
  }

  lemma {:induction false} OrDoubled(a: nat, k: nat, b: nat)
    requires b < Pow(2, k)
    ensures Or(Doubled(a, k), b) == Doubled(a, k) + b
    decreases k
  {
    if k > 0 {
      OrDoubled(a, k - 1, b / 2);
      assert Doubled(a, k) / 2 == Doubled(a, k - 1) && Doubled(a, k) % 2 == 0;
    }
  }

  /** Bitwise and. */
  function And(x: nat, y: nat): (r: nat)
  {
    if x == 0 || y == 0 then 0
    else 2 * And(x / 2, y / 2) + (if x % 2 == 1 && y % 2 == 1 then 1 else 0)
  }

  /** Masking with `k` ones keeps the remainder modulo 2^k. */
  lemma {:induction false} AndLowMask(x: nat, k: nat)
    ensures And(x, Pow(2, k) - 1) == x % Pow(2, k)
  {
    var p := Pow(2, k);
    if k > 0 {
      var q := Pow(2, k - 1);
      AndLowMask(x / 2, k - 1);
      assert (p - 1) / 2 == q - 1 && (p - 1) % 2 == 1;
      HalfRemainder(x, q);
    }
  }

  lemma HalfRemainder(x: nat, q: nat)
    requires q > 0
    ensures x % (2 * q) == 2 * ((x / 2) % q) + x % 2
  {
    var a, b := x / 2 / q, (x / 2) % q;
    assert x / 2 == q * a + b;
    assert x == a * (2 * q) + (2 * b + x % 2) by { MulAssoc(2, q, a); }
    DivModUnique(a, 2 * q, 2 * b + x % 2);
  }

  /** Masking with `k` ones that stand `b` places up. */
  lemma {:induction false} AndHighMask(x: nat, b: nat, k: nat)
    ensures And(x, (Pow(2, k) - 1) * Pow(2, b)) == ((x / Pow(2, b)) % Pow(2, k)) * Pow(2, b)
    decreases b
  {
    var ones := Pow(2, k) - 1;
    if b == 0 {
      AndLowMask(x, k);
    } else {
      var p := Pow(2, b - 1);
      assert ones * Pow(2, b) == 2 * (ones * p) by { MulAssoc(ones, 2, p); MulAssoc(2, ones, p); }
      MulPositive(ones, p);
      AndHighMask(x / 2, b - 1, k);
      DivDiv(x, 2, p);
      var r := (x / 2 / p) % Pow(2, k);
      assert r * Pow(2, b) == 2 * (r * p) by { MulAssoc(r, 2, p); MulAssoc(2, r, p); }
      AndEven(x, ones * p);
    }
  }

  lemma AndEven(x: nat, y: nat)
    ensures And(x, 2 * y) == 2 * And(x / 2, y)
  {
    assert 2 * y / 2 == y && 2 * y % 2 == 0;
  }

  lemma DivDiv(x: nat, a: nat, b: nat)
    requires a > 0 && b > 0
    ensures a * b > 0 && x / (a * b) == x / a / b
  {
    MulPositive(a, b);
    var q, r := x / a / b, (x / a) % b;
    assert x / a == b * q + r;
    assert x == a * (b * q + r) + x % a;
    assert a * (b * q + r) == q * (a * b) + a * r by {
      Distribute(b * q, r, a);
      MulAssoc(a, b, q);
    }
    MulMonotone(r, b - 1, a);
    assert a * r <= a * b - a;
    DivModUnique(q, a * b, a * r + x % a);
  }

  /** The `n` low-order bytes of `v`, least significant first: the memory image of an
      unsigned integer of that size. */
  function LittleEndian(n: nat, v: nat): (r: seq<byte>)
    ensures |r| == n
  {
    if n == 0 then [] else [v % 256] + LittleEndian(n - 1, v / 256)
  }

  function FromLittleEndian(bs: seq<byte>): (r: nat)
  {
    if bs == [] then 0 else bs[0] + 256 * FromLittleEndian(bs[1..])
  }

  lemma {:induction false} LittleEndianRoundTrip(n: nat, v: nat)
    requires v < Pow(256, n)
    ensures FromLittleEndian(LittleEndian(n, v)) == v
  {
    if n > 0 {
      DivBound(v, 256, Pow(256, n - 1));
      LittleEndianRoundTrip(n - 1, v / 256);
      assert LittleEndian(n, v)[1..] == LittleEndian(n - 1, v / 256);
    }
  }

  lemma {:induction false} FromLittleEndianBound(bs: seq<byte>)
    ensures FromLittleEndian(bs) < Pow(256, |bs|)
  {
    if bs != [] {
      FromLittleEndianBound(bs[1..]);
    }
  }

  // ----- Lexicographic order -----

  predicate LexLess(a: seq<nat>, b: seq<nat>)
  {
    b != [] && (a == [] || a[0] < b[0] || (a[0] == b[0] && LexLess(a[1..], b[1..])))
  }

  /** Any two lists are equal or ordered one way, and none is below itself. */
  lemma {:induction false} LexOrder(a: seq<nat>, b: seq<nat>)
    ensures !LexLess(a, a)
    ensures LexLess(a, b) || a == b || LexLess(b, a)
  {
    if a != [] {
      LexOrder(a[1..], if b == [] then [] else b[1..]);
      if b != [] && a[0] == b[0] && a[1..] == b[1..] {
        assert a == [a[0]] + a[1..] == b;
      }
    }
  }

  lemma {:induction false} LexTransitive(a: seq<nat>, b: seq<nat>, c: seq<nat>)
    requires LexLess(a, b) && LexLess(b, c)
    ensures LexLess(a, c)
  {
    if a != [] && a[0] == b[0] == c[0] {
      LexTransitive(a[1..], b[1..], c[1..]);
    }
  }

  lemma {:induction false} LexConcat(a: seq<nat>, a': seq<nat>, b: seq<nat>, b': seq<nat>)
    requires |a| == |b|
    ensures LexLess(a + a', b + b') <==> LexLess(a, b) || (a == b && LexLess(a', b'))
  {
    if a == [] {
      assert a + a' == a' && b + b' == b';
    } else {
      LexConcat(a[1..], a', b[1..], b');
      assert (a + a')[1..] == a[1..] + a' && (b + b')[1..] == b[1..] + b';
      assert a == [a[0]] + a[1..] && b == [b[0]] + b[1..];
    }
  }
}
