/** The wire format as a pure encoder and decoder, and the laws it obeys on every type. */
module Codec {
  import opened Arith
  import opened Varint
  import opened Values

  /** The unsigned number with the same memory image as a signed one of `w` bytes. */
  function ToUnsigned(w: nat, n: int): nat
    requires 0 <= n < Pow(256, w) || 0 <= n + Pow(256, w)
  {
    if n >= 0 then n else n + Pow(256, w)
  }

  function ToSigned(w: nat, u: nat): int
  {
    if 2 * u >= Pow(256, w) then u - Pow(256, w) else u
  }

  // ----- Encoding -----

  function Encode(t: Ty, v: Val): (r: seq<byte>)
    requires HasType(t, v)
    decreases t, 0, 0
  {
    match t
    case TUint(w) => LittleEndian(w, v.n)
    case TInt(w) => LittleEndian(w, ToUnsigned(w, v.n))
    case TBool => [if v.b then 1 else 0]
    case TRaw(_) => v.bs
    case TVarUint => EncodeVarint(v.n)
    case TString => EncodeVarint(|v.bs|) + v.bs
    case TStdArray(_, e) => EncodeAll(e, v.vs)
    case TCArray(n, e) => EncodeVarint(n) + EncodeAll(e, v.vs)
    case TVector(e) => EncodeVarint(|v.vs|) + EncodeAll(e, v.vs)
    case TSet(e) => EncodeVarint(|v.vs|) + EncodeAll(e, v.vs)
    case TMap(e) => EncodeVarint(|v.vs|) + EncodeAll(e, v.vs)
    case TTuple(ts) => EncodeFields(ts, v.vs)
  }

  function EncodeAll(t: Ty, vs: seq<Val>): (r: seq<byte>)
    requires AllHaveType(t, vs)
    decreases t, 1, |vs|
  {
    if vs == [] then [] else Encode(t, vs[0]) + EncodeAll(t, vs[1..])
  }

  function EncodeFields(ts: seq<Ty>, vs: seq<Val>): (r: seq<byte>)
    requires FieldsHaveType(ts, vs)
    decreases ts, 1, 0
  {
    if ts == [] then [] else Encode(ts[0], vs[0]) + EncodeFields(ts[1..], vs[1..])
  }

  // ----- Decoding -----

  function Take(n: nat, bs: seq<byte>): (r: Parsed<seq<byte>>)
  {
    if |bs| < n then Fail(OutOfBounds) else Ok(bs[..n], bs[n..])
  }

  function Decode(t: Ty, bs: seq<byte>): (r: Parsed<Val>)
    decreases t, 0, 0
  {
    match t
    case TUint(w) => Number(Take(w, bs), false)
    case TInt(w) => Number(Take(w, bs), true)
    case TBool => Boolean(Take(1, bs))
    case TRaw(n) => Block(Take(n, bs))
    case TVarUint => (
      match DecodeVarint(bs)
      case Ok(n, rest) => Ok(VNum(n), rest)
      case Fail(e) => Fail(e))
    case TString => (
      match DecodeVarint(bs)
      case Ok(n, rest) => Block(Take(n, rest))
      case Fail(e) => Fail(e))
    case TStdArray(n, e) => List(DecodeAll(e, n, bs))
    case TCArray(n, e) => (
      match DecodeVarint(bs)
      case Ok(m, rest) => if m != n then Fail(SizeMismatch) else List(DecodeAll(e, n, rest))
      case Fail(e) => Fail(e))
    case TVector(e) => List(DecodeCounted(e, bs))
    case TSet(e) => Container(false, DecodeCounted(e, bs))
    case TMap(e) => Container(true, DecodeCounted(e, bs))
    case TTuple(ts) => List(DecodeFields(ts, bs))
  }

  function DecodeCounted(t: Ty, bs: seq<byte>): (r: Parsed<seq<Val>>)
    decreases t, 2, 0
  {
    match DecodeVarint(bs)
    case Ok(n, rest) => DecodeAll(t, n, rest)
    case Fail(e) => Fail(e)
  }

  function DecodeAll(t: Ty, n: nat, bs: seq<byte>): (r: Parsed<seq<Val>>)
    decreases t, 1, n
  {
    if n == 0 then Ok([], bs) else
    match Decode(t, bs)
    case Ok(v, rest) => Prepend([v], DecodeAll(t, n - 1, rest))
    case Fail(e) => Fail(e)
  }

  function DecodeFields(ts: seq<Ty>, bs: seq<byte>): (r: Parsed<seq<Val>>)
    decreases ts, 1, 0
  {
    if ts == [] then Ok([], bs) else
    match Decode(ts[0], bs)
    case Ok(v, rest) => Prepend([v], DecodeFields(ts[1..], rest))
    case Fail(e) => Fail(e)
  }

  function Prepend(vs: seq<Val>, p: Parsed<seq<Val>>): Parsed<seq<Val>>
  {
    match p
    case Ok(ws, rest) => Ok(vs + ws, rest)
    case Fail(e) => Fail(e)
  }

  function Number(p: Parsed<seq<byte>>, signed: bool): Parsed<Val>
  {
    match p
    case Ok(bs, rest) =>
      Ok(VNum(if signed then ToSigned(|bs|, FromLittleEndian(bs)) else FromLittleEndian(bs)), rest)
    case Fail(e) => Fail(e)
  }

  /** Any non-zero byte reads as true. */
  function Boolean(p: Parsed<seq<byte>>): Parsed<Val>
  {
    match p
    case Ok(bs, rest) => Ok(VBool(FromLittleEndian(bs) != 0), rest)
    case Fail(e) => Fail(e)
  }

  function Block(p: Parsed<seq<byte>>): Parsed<Val>
  {
    match p
    case Ok(bs, rest) => Ok(VBytes(bs), rest)
    case Fail(e) => Fail(e)
  }

  function List(p: Parsed<seq<Val>>): Parsed<Val>
  {
    match p
    case Ok(vs, rest) => Ok(VList(vs), rest)
    case Fail(e) => Fail(e)
  }

  function Container(keyed: bool, p: Parsed<seq<Val>>): Parsed<Val>
  {
    match p
    case Ok(vs, rest) => Ok(VList(Collect(keyed, vs)), rest)
    case Fail(e) => Fail(e)
  }

  // ----- Round trip -----

  /** Reading a stream that holds an encoded value followed by anything gives the value back and
      stops right after it. */
  lemma {:induction false} RoundTrip(t: Ty, v: Val, tail: seq<byte>)
    requires HasType(t, v)
    ensures Decode(t, Encode(t, v) + tail) == Ok(v, tail)
    decreases t, 0, 0
  {
    match t
    case TUint(w) => TakeFront(Encode(t, v), tail); LittleEndianRoundTrip(w, v.n);
    case TInt(w) => TakeFront(Encode(t, v), tail); LittleEndianRoundTrip(w, ToUnsigned(w, v.n));
    case TBool =>
      TakeFront(Encode(t, v), tail);
      assert FromLittleEndian([0]) == 0 && FromLittleEndian([1]) == 1;
    case TRaw(_) => TakeFront(v.bs, tail);
    case TVarUint => VarintRoundTrip(v.n, tail);
    case TString =>
      CountedRoundTrip(|v.bs|, v.bs, tail);
      TakeFront(v.bs, tail);
    case TStdArray(_, e) => AllRoundTrip(e, v.vs, tail);
    case TCArray(n, e) =>
      CountedRoundTrip(n, EncodeAll(e, v.vs), tail);
      AllRoundTrip(e, v.vs, tail);
    case TVector(e) =>
      CountedRoundTrip(|v.vs|, EncodeAll(e, v.vs), tail);
      AllRoundTrip(e, v.vs, tail);
    case TSet(e) =>
      CountedRoundTrip(|v.vs|, EncodeAll(e, v.vs), tail);
      AllRoundTrip(e, v.vs, tail);
      CollectSorted(false, v.vs);
    case TMap(e) =>
      CountedRoundTrip(|v.vs|, EncodeAll(e, v.vs), tail);
      AllRoundTrip(e, v.vs, tail);
      CollectSorted(true, v.vs);
    case TTuple(ts) => FieldsRoundTrip(ts, v.vs, tail);
  }

  lemma TakeFront(bs: seq<byte>, tail: seq<byte>)
    ensures Take(|bs|, bs + tail) == Ok(bs, tail)
  {
    assert (bs + tail)[..|bs|] == bs && (bs + tail)[|bs|..] == tail;
  }

  lemma CountedRoundTrip(n: nat, body: seq<byte>, tail: seq<byte>)
    requires n < TWO_32
    ensures DecodeVarint((EncodeVarint(n) + body) + tail) == Ok(n, body + tail)
  {
    VarintRoundTrip(n, body + tail);
    assert (EncodeVarint(n) + body) + tail == EncodeVarint(n) + (body + tail);
  }

  lemma {:induction false} AllRoundTrip(t: Ty, vs: seq<Val>, tail: seq<byte>)
    requires AllHaveType(t, vs)
    ensures DecodeAll(t, |vs|, EncodeAll(t, vs) + tail) == Ok(vs, tail)
    decreases t, 1, |vs|
  {
    if vs == [] {
      assert EncodeAll(t, vs) + tail == tail;
    } else {
      var rest := EncodeAll(t, vs[1..]) + tail;
      assert EncodeAll(t, vs) + tail == Encode(t, vs[0]) + rest;
      RoundTrip(t, vs[0], rest);
      AllRoundTrip(t, vs[1..], tail);
      assert [vs[0]] + vs[1..] == vs;
    }
  }

  lemma {:induction false} FieldsRoundTrip(ts: seq<Ty>, vs: seq<Val>, tail: seq<byte>)
    requires FieldsHaveType(ts, vs)
    ensures DecodeFields(ts, EncodeFields(ts, vs) + tail) == Ok(vs, tail)
    decreases ts, 1, 0
  {
    if ts == [] {
      assert EncodeFields(ts, vs) + tail == tail;
    } else {
      var rest := EncodeFields(ts[1..], vs[1..]) + tail;
      assert EncodeFields(ts, vs) + tail == Encode(ts[0], vs[0]) + rest;
      RoundTrip(ts[0], vs[0], rest);
      FieldsRoundTrip(ts[1..], vs[1..], tail);
      assert [vs[0]] + vs[1..] == vs;
    }
  }

  // ----- Reading is stable under more input -----

  /** How reads of `bs` and of `bs + tail` relate. */
  predicate Extends<T(==)>(p: Parsed<T>, q: Parsed<T>, tail: seq<byte>)
  {
    match p
    case Ok(v, rest) => q == Ok(v, rest + tail)
    case Fail(e) => e == OutOfBounds || q == p
  }

  /** Appending input changes neither a value that was read nor an error other than running out
      of input. */
  lemma {:induction false} ReadStable(t: Ty, bs: seq<byte>, tail: seq<byte>)
    ensures Extends(Decode(t, bs), Decode(t, bs + tail), tail)
    decreases t, 0, 0
  {
    match t
    case TUint(w) => TakeStable(w, bs, tail);
    case TInt(w) => TakeStable(w, bs, tail);
    case TBool => TakeStable(1, bs, tail);
    case TRaw(n) => TakeStable(n, bs, tail);
    case TVarUint => DecodeFromExtend(bs, tail, 0, 0);
    case TString =>
      DecodeFromExtend(bs, tail, 0, 0);
      if DecodeVarint(bs).Ok? { TakeStable(DecodeVarint(bs).value, DecodeVarint(bs).rest, tail); }
    case TStdArray(n, e) => AllStable(e, n, bs, tail);
    case TCArray(n, e) =>
      DecodeFromExtend(bs, tail, 0, 0);
      if DecodeVarint(bs).Ok? { AllStable(e, n, DecodeVarint(bs).rest, tail); }
    case TVector(e) => CountedStable(e, bs, tail);
    case TSet(e) => CountedStable(e, bs, tail);
    case TMap(e) => CountedStable(e, bs, tail);
    case TTuple(ts) => FieldsStable(ts, bs, tail);
  }

  lemma TakeStable(n: nat, bs: seq<byte>, tail: seq<byte>)
    ensures Extends(Take(n, bs), Take(n, bs + tail), tail)
  {
    if n <= |bs| {
      assert (bs + tail)[..n] == bs[..n] && (bs + tail)[n..] == bs[n..] + tail;
    }
  }

  lemma {:induction false} CountedStable(t: Ty, bs: seq<byte>, tail: seq<byte>)
    ensures Extends(DecodeCounted(t, bs), DecodeCounted(t, bs + tail), tail)
    decreases t, 2, 0
  {
    DecodeFromExtend(bs, tail, 0, 0);
    if DecodeVarint(bs).Ok? {
      AllStable(t, DecodeVarint(bs).value, DecodeVarint(bs).rest, tail);
    }
  }

  lemma {:induction false} AllStable(t: Ty, n: nat, bs: seq<byte>, tail: seq<byte>)
    ensures Extends(DecodeAll(t, n, bs), DecodeAll(t, n, bs + tail), tail)
    decreases t, 1, n
  {
    if n > 0 {
      ReadStable(t, bs, tail);
      if Decode(t, bs).Ok? {
        AllStable(t, n - 1, Decode(t, bs).rest, tail);
      }
    }
  }

  lemma {:induction false} FieldsStable(ts: seq<Ty>, bs: seq<byte>, tail: seq<byte>)
    ensures Extends(DecodeFields(ts, bs), DecodeFields(ts, bs + tail), tail)
    decreases ts, 1, 0
  {
    if ts != [] {
      ReadStable(ts[0], bs, tail);
      if Decode(ts[0], bs).Ok? {
        FieldsStable(ts[1..], Decode(ts[0], bs).rest, tail);
      }
    }
  }

  /** Encodings are prefix-free: a cut-off encoding never reads as a value, the stream's bounds
      assertion stops it. */
  lemma ProperPrefixStops(t: Ty, v: Val, n: nat)
    requires HasType(t, v) && n < |Encode(t, v)|
    ensures Decode(t, Encode(t, v)[..n]) == Fail(OutOfBounds)
  {
    var bs := Encode(t, v);
    ReadStable(t, bs[..n], bs[n..]);
    assert bs[..n] + bs[n..] == bs == bs + [];
    RoundTrip(t, v, []);
  }

  /** Different values have different encodings, even with other data behind them. */
  lemma EncodingInjective(t: Ty, v: Val, w: Val, tail: seq<byte>, tail': seq<byte>)
    requires HasType(t, v) && HasType(t, w)
    requires Encode(t, v) + tail == Encode(t, w) + tail'
    ensures v == w && tail == tail'
  {
    RoundTrip(t, v, tail);
    RoundTrip(t, w, tail');
  }

  // ----- What is read is a value of the type -----

  lemma {:induction false} ReadTyped(t: Ty, bs: seq<byte>)
    requires WellFormed(t)
    ensures Decode(t, bs).Ok? ==> HasType(t, Decode(t, bs).value)
    decreases t, 0, 0
  {
    if Decode(t, bs).Ok? {
      DecodeVarintBounds(bs);
      match t
      case TUint(w) => FromLittleEndianBound(bs[..w]);
      case TInt(w) => FromLittleEndianBound(bs[..w]);
      case TStdArray(n, e) => AllTyped(e, n, bs);
      case TCArray(n, e) => AllTyped(e, n, DecodeVarint(bs).rest);
      case TVector(e) => AllTyped(e, DecodeVarint(bs).value, DecodeVarint(bs).rest);
      case TSet(e) =>
        AllTyped(e, DecodeVarint(bs).value, DecodeVarint(bs).rest);
        CollectTyped(false, e, DecodeCounted(e, bs).value);
      case TMap(e) =>
        AllTyped(e, DecodeVarint(bs).value, DecodeVarint(bs).rest);
        CollectTyped(true, e, DecodeCounted(e, bs).value);
      case TTuple(ts) => FieldsTyped(ts, bs);
      case _ =>
    }
  }

  lemma CollectTyped(keyed: bool, t: Ty, vs: seq<Val>)
    requires AllHaveType(t, vs)
    ensures AllHaveType(t, Collect(keyed, vs)) && Sorted(keyed, Collect(keyed, vs))
    ensures |Collect(keyed, vs)| <= |vs|
  {
    CollectFirstOccurrences(keyed, vs);
    var c := Collect(keyed, vs);
    forall i | 0 <= i < |c| ensures HasType(t, c[i]) {
      assert c[i] in c;
    }
  }

  lemma {:induction false} AllTyped(t: Ty, n: nat, bs: seq<byte>)
    requires WellFormed(t)
    ensures DecodeAll(t, n, bs).Ok? ==>
              |DecodeAll(t, n, bs).value| == n && AllHaveType(t, DecodeAll(t, n, bs).value)
    decreases t, 1, n
  {
    if n > 0 {
      ReadTyped(t, bs);
      if Decode(t, bs).Ok? {
        AllTyped(t, n - 1, Decode(t, bs).rest);
      }
    }
  }

  lemma {:induction false} FieldsTyped(ts: seq<Ty>, bs: seq<byte>)
    requires forall i :: 0 <= i < |ts| ==> WellFormed(ts[i])
    ensures DecodeFields(ts, bs).Ok? ==> FieldsHaveType(ts, DecodeFields(ts, bs).value)
    decreases ts, 1, 0
  {
    if ts != [] {
      ReadTyped(ts[0], bs);
      if Decode(ts[0], bs).Ok? {
        FieldsTyped(ts[1..], Decode(ts[0], bs).rest);
      }
    }
  }

  /** Packing what was read, from whatever bytes, and reading it again gives the same value: after
      one pass the encoding is canonical, and a set or a map is written in strict key order. */
  lemma RepackIsCanonical(t: Ty, bs: seq<byte>, tail: seq<byte>)
    requires WellFormed(t) && Decode(t, bs).Ok?
    ensures HasType(t, Decode(t, bs).value)
    ensures Decode(t, Encode(t, Decode(t, bs).value) + tail) == Ok(Decode(t, bs).value, tail)
  {
    ReadTyped(t, bs);
    RoundTrip(t, Decode(t, bs).value, tail);
  }

  lemma CountedEntries(t: Ty, vs: seq<Val>, tail: seq<byte>)
    requires AllHaveType(t, vs) && |vs| < TWO_32
    ensures DecodeCounted(t, EncodeVarint(|vs|) + EncodeAll(t, vs) + tail) == Ok(vs, tail)
  {
    CountedRoundTrip(|vs|, EncodeAll(t, vs), tail);
    AllRoundTrip(t, vs, tail);
  }

  /** A set or map sent as entries in any order and with repeats is read as a sorted container of
      the first entry for each key. */
  lemma ContainerFromAnyEntries(keyed: bool, t: Ty, vs: seq<Val>, tail: seq<byte>) returns (c: seq<Val>)
    requires AllHaveType(t, vs) && |vs| < TWO_32
    ensures Decode(if keyed then TMap(t) else TSet(t), EncodeVarint(|vs|) + EncodeAll(t, vs) + tail)
            == Ok(VList(c), tail)
    ensures Sorted(keyed, c)
    ensures forall x :: x in c <==> IsFirst(keyed, vs, x)
  {
    c := Collect(keyed, vs);
    CountedEntries(t, vs, tail);
    CollectFirstOccurrences(keyed, vs);
  }
}
