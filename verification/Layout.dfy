/** Block copies and element-wise transfers of the same data agree, and which types share a wire
    format. */
module Layout {
  import opened Arith
  import opened Varint
  import opened Values
  import opened Codec

  /** Pieces of a stream, one after the other. */
  function Join(pieces: seq<seq<byte>>): (r: seq<byte>)
  {
    if pieces == [] then [] else pieces[0] + Join(pieces[1..])
  }

  lemma {:induction false} JoinStep(pieces: seq<seq<byte>>, i: nat)
    requires i < |pieces|
    ensures Join(pieces[..i + 1]) == Join(pieces[..i]) + pieces[i]
    ensures Join(pieces[..i + 1]) <= Join(pieces)
    decreases i
  {
    var tail := pieces[1..];
    assert pieces[..i + 1][1..] == tail[..i];
    if i == 0 {
      assert tail[..0] == [];
    } else {
      JoinStep(tail, i - 1);
      assert pieces[..i][1..] == tail[..i - 1];
      assert pieces[0] + (Join(tail[..i - 1]) + pieces[i]) == pieces[0] + Join(tail[..i - 1]) + pieces[i];
    }
  }

  /** The encodings of the elements of a list. */
  function Pieces(t: Ty, vs: seq<Val>): (r: seq<seq<byte>>)
    requires AllHaveType(t, vs)
    ensures |r| == |vs| && forall i :: 0 <= i < |vs| ==> r[i] == Encode(t, vs[i])
    ensures EncodeAll(t, vs) == Join(r)
    decreases |vs|
  {
    if vs == [] then [] else [Encode(t, vs[0])] + Pieces(t, vs[1..])
  }

  function FieldPieces(ts: seq<Ty>, vs: seq<Val>): (r: seq<seq<byte>>)
    requires FieldsHaveType(ts, vs)
    ensures |r| == |vs| && forall i :: 0 <= i < |vs| ==> r[i] == Encode(ts[i], vs[i])
    ensures EncodeFields(ts, vs) == Join(r)
    decreases |vs|
  {
    if vs == [] then [] else [Encode(ts[0], vs[0])] + FieldPieces(ts[1..], vs[1..])
  }

  /** Types whose arrays are copied as one block. */
  predicate Primitive(t: Ty)
  {
    t.TUint? || t.TInt? || t.TRaw?
  }

  predicate SameSize(pieces: seq<seq<byte>>, w: nat)
  {
    forall i :: 0 <= i < |pieces| ==> |pieces[i]| == w
  }

  /** Objects of `w` bytes laid out in an array: object `i` occupies bytes `i * w` up to
      `(i + 1) * w`. */
  function Image(pieces: seq<seq<byte>>, w: nat): (r: seq<byte>)
    requires SameSize(pieces, w)
    ensures |r| == |pieces| * w
  {
    seq(|pieces| * w, k requires 0 <= k < |pieces| * w =>
      DivBound(k, w, |pieces|);
      pieces[k / w][k % w])
  }

  /** An array of objects is its first one followed by the array of the others. */
  lemma ImageCons(pieces: seq<seq<byte>>, w: nat)
    requires SameSize(pieces, w) && pieces != []
    ensures Image(pieces, w) == pieces[0] + Image(pieces[1..], w)
  {
    var n := |pieces|;
    Distribute(1, n - 1, w);
    MulPositive(n - 1, w);
    forall k | 0 <= k < n * w ensures Image(pieces, w)[k] == (pieces[0] + Image(pieces[1..], w))[k] {
      DivBound(k, w, n);
      if k < w {
        DivModUnique(0, w, k);
      } else {
        var q, r := (k - w) / w, (k - w) % w;
        assert k - w == q * w + r;
        Distribute(1, q, w);
        DivModUnique(q + 1, w, r);
      }
    }
  }

  lemma PrimitiveSize(t: Ty, v: Val)
    requires Primitive(t) && HasType(t, v)
    ensures |Encode(t, v)| == t.size
  {
  }

  lemma PiecesSize(t: Ty, vs: seq<Val>)
    requires Primitive(t) && AllHaveType(t, vs)
    ensures SameSize(Pieces(t, vs), t.size)
  {
    forall i | 0 <= i < |vs| ensures |Pieces(t, vs)[i]| == t.size {
      PrimitiveSize(t, vs[i]);
    }
  }

  lemma {:induction false} ImageIsJoin(pieces: seq<seq<byte>>, w: nat)
    requires SameSize(pieces, w)
    ensures Image(pieces, w) == Join(pieces)
  {
    if pieces != [] {
      ImageCons(pieces, w);
      ImageIsJoin(pieces[1..], w);
    } else {
      assert 0 * w == 0;
    }
  }

  /** One block write of an array's memory gives the bytes of writing its elements in turn. */
  lemma BlockWriteIsElementWise(t: Ty, vs: seq<Val>)
    requires Primitive(t) && AllHaveType(t, vs)
    ensures SameSize(Pieces(t, vs), t.size)
    ensures EncodeAll(t, vs) == Image(Pieces(t, vs), t.size)
  {
    PiecesSize(t, vs);
    ImageIsJoin(Pieces(t, vs), t.size);
  }

  lemma BlockSize(t: Ty, vs: seq<Val>)
    requires Primitive(t) && AllHaveType(t, vs)
    ensures |EncodeAll(t, vs)| == |vs| * t.size
  {
    BlockWriteIsElementWise(t, vs);
  }

  /** The elements whose memory is `block`. */
  function Elements(t: Ty, n: nat, block: seq<byte>): (r: seq<Val>)
    requires Primitive(t) && |block| == n * t.size
    decreases n
  {
    if n == 0 then [] else
      assert n * t.size == t.size + (n - 1) * t.size by { Distribute(1, n - 1, t.size); }
      MulPositive(n - 1, t.size);
      PrimitiveRead(t, block);
      [Decode(t, block[..t.size]).value] + Elements(t, n - 1, block[t.size..])
  }

  lemma PrimitiveRead(t: Ty, bs: seq<byte>)
    requires Primitive(t)
    ensures |bs| < t.size ==> Decode(t, bs) == Fail(OutOfBounds)
    ensures |bs| >= t.size ==>
              Decode(t, bs[..t.size]).Ok? && Decode(t, bs) == Ok(Decode(t, bs[..t.size]).value, bs[t.size..])
  {
    if t.size <= |bs| {
      assert bs[..t.size][..t.size] == bs[..t.size];
    }
  }

  lemma {:induction false} DecodeAllCases(t: Ty, n: nat, bs: seq<byte>)
    requires Primitive(t)
    ensures |bs| < n * t.size ==> DecodeAll(t, n, bs) == Fail(OutOfBounds)
    ensures |bs| >= n * t.size ==>
              DecodeAll(t, n, bs) == Ok(Elements(t, n, bs[..n * t.size]), bs[n * t.size..])
    decreases n
  {
    var w := t.size;
    if n == 0 {
      assert n * w == 0;
    } else {
      var m := (n - 1) * w;
      assert n * w == w + m && m >= 0 by { Distribute(1, n - 1, w); MulPositive(n - 1, w); }
      PrimitiveRead(t, bs);
      if w <= |bs| {
        DecodeAllCases(t, n - 1, bs[w..]);
        if w + m <= |bs| {
          var block := bs[..w + m];
          assert block[..w] == bs[..w] && block[w..] == bs[w..][..m] && bs[w..][m..] == bs[w + m..];
        }
      }
    }
  }

  /** A block read: the memory of the whole array at once. */
  function BlockRead(t: Ty, n: nat, bs: seq<byte>): Parsed<seq<Val>>
    requires Primitive(t)
  {
    match Take(n * t.size, bs)
    case Ok(block, rest) => Ok(Elements(t, n, block), rest)
    case Fail(e) => Fail(e)
  }

  /** One block read fills the array as reading its elements in turn would, and runs out of input
      exactly when that would. */
  lemma BlockReadIsElementWise(t: Ty, n: nat, bs: seq<byte>)
    requires Primitive(t)
    ensures DecodeAll(t, n, bs) == BlockRead(t, n, bs)
  {
    DecodeAllCases(t, n, bs);
  }

  /** A built-in array and a vector of the same elements are written alike; bytes written for a
      vector read as a built-in array exactly when the count is the array's. */
  lemma ArrayVectorInterchange(n: nat, e: Ty, v: Val, tail: seq<byte>)
    requires HasType(TVector(e), v)
    ensures |v.vs| == n ==> HasType(TCArray(n, e), v) && Encode(TCArray(n, e), v) == Encode(TVector(e), v)
    ensures |v.vs| == n <==> Decode(TCArray(n, e), Encode(TVector(e), v) + tail) == Ok(v, tail)
    ensures |v.vs| != n ==> Decode(TCArray(n, e), Encode(TVector(e), v) + tail) == Fail(SizeMismatch)
  {
    if |v.vs| == n {
      RoundTrip(TCArray(n, e), v, tail);
    } else {
      CountedRoundTrip(|v.vs|, EncodeAll(e, v.vs), tail);
    }
  }

  const CHAR: Ty := TUint(1)

  function Chars(bs: seq<byte>): (r: seq<Val>)
    ensures |r| == |bs|
  {
    seq(|bs|, i requires 0 <= i < |bs| => VNum(bs[i]))
  }

  lemma CharsTyped(bs: seq<byte>)
    ensures AllHaveType(CHAR, Chars(bs))
  {
    assert Pow(256, 1) == 256;
  }

  lemma {:induction false} EncodeChars(bs: seq<byte>)
    ensures AllHaveType(CHAR, Chars(bs)) && EncodeAll(CHAR, Chars(bs)) == bs
  {
    CharsTyped(bs);
    if bs != [] {
      EncodeChars(bs[1..]);
      assert Chars(bs)[1..] == Chars(bs[1..]);
      assert LittleEndian(1, bs[0]) == [bs[0]];
    }
  }

  lemma {:induction false} DecodeChars(n: nat, bs: seq<byte>)
    ensures |bs| < n ==> DecodeAll(CHAR, n, bs) == Fail(OutOfBounds)
    ensures |bs| >= n ==> DecodeAll(CHAR, n, bs) == Ok(Chars(bs[..n]), bs[n..])
    decreases n
  {
    if n > 0 && bs != [] {
      DecodeChars(n - 1, bs[1..]);
      assert FromLittleEndian(bs[..1]) == bs[0];
      if |bs| >= n {
        assert Chars(bs[..n]) == [VNum(bs[0])] + Chars(bs[1..][..n - 1]);
        assert bs[1..][n - 1..] == bs[n..];
      }
    }
  }

  /** A string and a `vector<char>` of the same characters are written alike. */
  lemma StringIsCharVector(bs: seq<byte>)
    requires |bs| < TWO_32
    ensures HasType(TVector(CHAR), VList(Chars(bs)))
    ensures Encode(TString, VBytes(bs)) == Encode(TVector(CHAR), VList(Chars(bs)))
  {
    EncodeChars(bs);
  }

  /** Any input reads as a string exactly when it reads as a `vector<char>`, with the same
      characters. */
  lemma StringReadsAsCharVector(bs: seq<byte>)
    ensures match Decode(TString, bs)
            case Ok(v, rest) => v.VBytes? && Decode(TVector(CHAR), bs) == Ok(VList(Chars(v.bs)), rest)
            case Fail(e) => Decode(TVector(CHAR), bs) == Fail(e)
  {
    if DecodeVarint(bs).Ok? {
      DecodeChars(DecodeVarint(bs).value, DecodeVarint(bs).rest);
    }
  }
}
