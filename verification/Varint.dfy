/** The variable-length integers that prefix every container: `unsigned_int` and `signed_int`. */
module Varint {
  import opened Arith

  /** Why a read stops. `OutOfBounds` is the stream's own bounds assertion, `SizeMismatch` the
      element-count assertion of a fixed-size array, and `Undefined` a shift by at least the
      width of the shifted type, which C++ gives no meaning. */
  datatype Error = OutOfBounds | SizeMismatch | Undefined

  datatype Parsed<+T> = Ok(value: T, rest: seq<byte>) | Fail(error: Error)

  const TWO_30: int := 0x4000_0000
  const TWO_31: int := 0x8000_0000
  const TWO_32: int := 0x1_0000_0000

  /** A number kept in an unsigned 32-bit variable. */
  function Wrap32(x: int): (r: int)
    ensures 0 <= r < TWO_32
  {
    x % 0x1_0000_0000
  }

  lemma Wrap32Value(q: int, r: int)
    requires 0 <= r < TWO_32
    ensures Wrap32(q * TWO_32 + r) == r
  {
    DivModUnique(q, TWO_32, r);
  }

  /** Adding on to a wrapped number. */
  lemma WrapAdd(a: int, b: int)
    ensures Wrap32(Wrap32(a) + b) == Wrap32(a + b)
  {
    var r := Wrap32(a) + b;
    var q, k, m := a / TWO_32, r / TWO_32, Wrap32(r);
    assert a == q * TWO_32 + Wrap32(a) && r == k * TWO_32 + m;
    Distribute(q, k, TWO_32);
    Wrap32Value(q + k, m);
  }

  /** Seven bits a byte, least significant first; the top bit says that more follow. */
  function EncodeVarint(v: nat): (r: seq<byte>)
    ensures |r| > 0
  {
    if v < 128 then [v] else [128 + v % 128] + EncodeVarint(v / 128)
  }

  /** The bits of byte number `k` that fit in 32 bits: only four of the fifth. */
  function Kept(b: byte, k: nat): (r: nat)
  {
    if k < 4 then b % 128 else b % 128 % 16
  }

  function DecodeFrom(bs: seq<byte>, k: nat, acc: nat): (r: Parsed<nat>)
    decreases |bs|
  {
    if bs == [] then Fail(OutOfBounds)
    else if k > 4 then Fail(Undefined)
    else
      var acc' := acc + Kept(bs[0], k) * Pow(128, k);
      if bs[0] >= 128 then DecodeFrom(bs[1..], k + 1, acc') else Ok(acc', bs[1..])
  }

  function DecodeVarint(bs: seq<byte>): (r: Parsed<nat>)
  {
    DecodeFrom(bs, 0, 0)
  }

  lemma Powers128()
    ensures Pow(128, 0) == 1 && Pow(128, 1) == 128 && Pow(128, 2) == 16384
    ensures Pow(128, 3) == 2097152 && Pow(128, 4) == 268435456 && Pow(128, 5) == 34359738368
  {
    assert Pow(128, 3) == 128 * Pow(128, 2);
    assert Pow(128, 5) == 128 * Pow(128, 4);
  }

  /** One byte read, from a stream that starts with it. */
  lemma DecodeByte(b: byte, rest: seq<byte>, k: nat, acc: nat, kept: nat)
    requires k <= 4 && kept == Kept(b, k)
    ensures DecodeFrom([b] + rest, k, acc) ==
              if b >= 128 then DecodeFrom(rest, k + 1, acc + kept * Pow(128, k)) else Ok(acc + kept * Pow(128, k), rest)
  {
    assert ([b] + rest)[1..] == rest;
  }

  lemma EncodeMore(v: nat, tail: seq<byte>)
    requires v >= 128
    ensures EncodeVarint(v) + tail == [128 + v % 128] + (EncodeVarint(v / 128) + tail)
  {
  }

  lemma {:induction false} DecodeEncoded(v: nat, tail: seq<byte>, k: nat, acc: nat)
    requires k <= 4 && v * Pow(128, k) < TWO_32
    ensures DecodeFrom(EncodeVarint(v) + tail, k, acc) == Ok(acc + v * Pow(128, k), tail)
    decreases v
  {
    LastByteFits(v, k);
    if v < 128 {
      assert EncodeVarint(v) == [v];
      DecodeByte(v, tail, k, acc, v);
    } else {
      var low, high, p := v % 128, v / 128, Pow(128, k);
      EncodeMore(v, tail);
      DecodeByte(128 + low, EncodeVarint(high) + tail, k, acc, low);
      SplitProduct(v, low, high, p);
      assert Pow(128, k + 1) == 128 * p;
      DecodeEncoded(high, tail, k + 1, acc + low * p);
    }
  }

  lemma LastByteFits(v: nat, k: nat)
    requires k <= 4 && v * Pow(128, k) < TWO_32
    ensures k == 4 ==> v < 16
  {
    if k == 4 {
      Powers128();
      MulMonotone(16, v, Pow(128, 4));
    }
  }

  lemma SplitProduct(v: nat, low: nat, high: nat, p: nat)
    requires v == 128 * high + low
    ensures v * p == low * p + high * (128 * p)
    ensures high * (128 * p) <= v * p
  {
    MulPositive(low, p);
  }

  /** Every 32-bit value survives, whatever follows it. */
  lemma VarintRoundTrip(v: nat, tail: seq<byte>)
    requires v < TWO_32
    ensures DecodeVarint(EncodeVarint(v) + tail) == Ok(v, tail)
  {
    assert v * Pow(128, 0) == v;
    DecodeEncoded(v, tail, 0, 0);
  }

  /** A successful read gives a 32-bit value and leaves a proper suffix of the input. */
  lemma {:induction false} DecodeFromBounds(bs: seq<byte>, k: nat, acc: nat)
    requires k <= 5 && acc < Pow(128, k)
    requires k == 5 ==> acc < TWO_32
    ensures DecodeFrom(bs, k, acc).Ok? ==>
              DecodeFrom(bs, k, acc).value < TWO_32 && |DecodeFrom(bs, k, acc).rest| < |bs|
    ensures DecodeFrom(bs, k, acc).Fail? ==> DecodeFrom(bs, k, acc).error != SizeMismatch
    decreases |bs|
  {
    if bs != [] && k <= 4 {
      Powers128();
      MulMonotone(Kept(bs[0], k), if k < 4 then 127 else 15, Pow(128, k));
      if bs[0] >= 128 {
        DecodeFromBounds(bs[1..], k + 1, acc + Kept(bs[0], k) * Pow(128, k));
      }
    }
  }

  lemma DecodeVarintBounds(bs: seq<byte>)
    ensures DecodeVarint(bs).Ok? ==> DecodeVarint(bs).value < TWO_32 && |DecodeVarint(bs).rest| < |bs|
    ensures DecodeVarint(bs).Fail? ==> DecodeVarint(bs).error != SizeMismatch
  {
    Powers128();
    DecodeFromBounds(bs, 0, 0);
  }

  /** More input never changes what has been read, nor an error other than running out. */
  lemma {:induction false} DecodeFromExtend(bs: seq<byte>, tail: seq<byte>, k: nat, acc: nat)
    ensures DecodeFrom(bs, k, acc).Ok? ==>
              DecodeFrom(bs + tail, k, acc) ==
              Ok(DecodeFrom(bs, k, acc).value, DecodeFrom(bs, k, acc).rest + tail)
    ensures DecodeFrom(bs, k, acc).Fail? && DecodeFrom(bs, k, acc).error != OutOfBounds ==>
              DecodeFrom(bs + tail, k, acc) == DecodeFrom(bs, k, acc)
    decreases |bs|
  {
    if bs != [] {
      assert (bs + tail)[0] == bs[0];
      assert (bs + tail)[1..] == bs[1..] + tail;
      if k <= 4 && bs[0] >= 128 {
        DecodeFromExtend(bs[1..], tail, k + 1, acc + Kept(bs[0], k) * Pow(128, k));
      }
    }
  }

  // ----- signed_int -----

  /** A 32-bit pattern read as a signed number. */
  function AsInt32(u: int): (r: int)
    ensures -TWO_31 <= r < TWO_31
  {
    var m := Wrap32(u);
    if m < TWO_31 then m else m - TWO_32
  }

  lemma AsInt32AtMost(u: nat)
    ensures AsInt32(u) <= u
    ensures u < TWO_31 ==> AsInt32(u) == u
  {
    Wrap32Value(u / TWO_32, u % TWO_32);
    if u < TWO_31 { Wrap32Value(0, u); }
  }

  /** The zig-zag transform of the writer: doubling, xor-ed with the sign mask. For a
      non-negative number the mask is zero, for a negative one it flips every bit. */
  function ZigZag(n: int): (r: nat)
    requires -TWO_31 <= n < TWO_31
    ensures r < TWO_32
  {
    if n >= 0 then 2 * n else TWO_32 - 1 - Wrap32(2 * n)
  }

  lemma ZigZagValue(n: int)
    requires -TWO_31 <= n < TWO_31
    ensures ZigZag(n) == if n >= 0 then 2 * n else 2 * (-n - 1) + 1
  {
  }

  /** Xor with 0 or 1. */
  function FlipLowest(x: nat, bit: nat): nat
    requires bit <= 1
  {
    if bit == 0 then x else if x % 2 == 0 then x + 1 else x - 1
  }

  /** The reader's transform, statement by statement. Its right shift by 31 is of an unsigned
      number, so it yields the top bit and not a sign mask. */
  function UnZigZag(v: nat): (r: int)
    requires v < TWO_32
  {
    var folded := AsInt32(FlipLowest(v / 2, v / 0x8000_0000) + v % 2);
    var chosen := if v % 2 == 1 then folded else AsInt32(-folded);
    AsInt32(-chosen)
  }

  function EncodeSigned(n: int): seq<byte>
    requires -TWO_31 <= n < TWO_31
  {
    EncodeVarint(ZigZag(n))
  }

  function DecodeSigned(bs: seq<byte>): Parsed<int>
  {
    match DecodeVarint(bs)
    case Ok(v, rest) => DecodeVarintBounds(bs); Ok(UnZigZag(v), rest)
    case Fail(e) => Fail(e)
  }

  lemma AsInt32Identity(x: int)
    requires -TWO_31 <= x < TWO_31
    ensures AsInt32(x) == x
  {
  }

  /** The magnitude that reading finds: the lowest bit is flipped when the top bit is set. */
  function Magnitude(k: nat): (m: int)
    requires k < TWO_31
    ensures 0 <= m < TWO_31
    ensures m == k <==> k < TWO_30
  {
    FlipLowest(k, if k >= TWO_30 then 1 else 0)
  }

  lemma UnZigZagEven(k: nat)
    requires k < TWO_31
    ensures UnZigZag(2 * k) == Magnitude(k)
  {
    var v := 2 * k;
    assert v / 2 == k && v % 2 == 0 && v / 0x8000_0000 == if k >= TWO_30 then 1 else 0;
    AsInt32Identity(Magnitude(k));
    AsInt32Identity(-Magnitude(k));
  }

  lemma UnZigZagOdd(k: nat)
    requires k < TWO_31 - 2 || k == TWO_31 - 1
    ensures UnZigZag(2 * k + 1) == -Magnitude(k) - 1
  {
    var v := 2 * k + 1;
    assert v / 2 == k && v % 2 == 1 && v / 0x8000_0000 == if k >= TWO_30 then 1 else 0;
    AsInt32Identity(Magnitude(k) + 1);
    AsInt32Identity(-(Magnitude(k) + 1));
  }

  /** The one number whose magnitude overflows on the way: it still comes back changed. */
  lemma UnZigZagOverflow()
    ensures UnZigZag(2 * (TWO_31 - 2) + 1) == -TWO_31
  {
    var v := 2 * (TWO_31 - 2) + 1;
    assert v / 2 == TWO_31 - 2 && v % 2 == 1 && v / 0x8000_0000 == 1;
    assert AsInt32(TWO_31) == -TWO_31 && AsInt32(-(-TWO_31)) == -TWO_31;
  }

  /** A written `signed_int` reads back as itself exactly on the 31-bit range; outside it the
      lowest bit of the magnitude comes back flipped. */
  lemma SignedRoundTripExactly(n: int, tail: seq<byte>)
    requires -TWO_31 <= n < TWO_31
    ensures DecodeSigned(EncodeSigned(n) + tail) == Ok(n, tail) <==> -TWO_30 <= n < TWO_30
  {
    VarintRoundTrip(ZigZag(n), tail);
    ZigZagValue(n);
    if n >= 0 {
      UnZigZagEven(n);
    } else if n == -TWO_31 + 1 {
      UnZigZagOverflow();
    } else {
      UnZigZagOdd(-n - 1);
    }
  }

  /** The smallest positive number that does not survive. */
  lemma SignedRoundTripFails()
    ensures DecodeSigned(EncodeSigned(0x4000_0000)) == Ok(0x4000_0001, [])
  {
    VarintRoundTrip(ZigZag(0x4000_0000), []);
    UnZigZagEven(0x4000_0000);
    assert EncodeSigned(0x4000_0000) + [] == EncodeSigned(0x4000_0000);
  }
}
