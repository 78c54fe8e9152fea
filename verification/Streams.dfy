/** The two streams and the operators on them, proved against the wire format. A method's `ok` is
    false where the source's assertion stops the contract, or where the source would go on writing
    past the end of its buffer; `overrun` records the second. */
module Streams {
  import opened Arith
  import opened Varint
  import opened Values
  import opened Codec
  import opened Layout

  /** `m` with `d` laid over it from index `at`. */
  function Splice(m: seq<byte>, at: nat, d: seq<byte>): (r: seq<byte>)
    requires at + |d| <= |m|
    ensures |r| == |m|
  {
    m[..at] + d + m[at + |d|..]
  }

  lemma SpliceSplice(m: seq<byte>, at: nat, a: seq<byte>, b: seq<byte>)
    requires at + |a| + |b| <= |m|
    ensures Splice(Splice(m, at, a), at + |a|, b) == Splice(m, at, a + b)
  {
  }

  /** The state a write of `e` leaves: some prefix of `e` has been laid down from the old position
      and nothing else has changed; it is all of `e` exactly when that fits. */
  ghost predicate Wrote(m0: seq<byte>, p0: nat, m1: seq<byte>, p1: nat, end: nat, e: seq<byte>, ok: bool)
  {
    && p0 <= p1 <= end <= |m0|
    && p1 - p0 <= |e|
    && m1 == Splice(m0, p0, e[..p1 - p0])
    && (ok <==> p1 - p0 == |e|)
    && (ok <==> |e| <= end - p0)
  }

  /** A write of `b` after a completed one of `a`, both part of writing `whole`. */
  lemma WroteNext(m0: seq<byte>, p0: nat, m1: seq<byte>, p1: nat, m2: seq<byte>, p2: nat, end: nat,
                  a: seq<byte>, b: seq<byte>, whole: seq<byte>, ok: bool)
    requires Wrote(m0, p0, m1, p1, end, a, true) && Wrote(m1, p1, m2, p2, end, b, ok)
    requires a + b <= whole
    ensures ok ==> Wrote(m0, p0, m2, p2, end, a + b, true)
    ensures !ok ==> Wrote(m0, p0, m2, p2, end, whole, false)
  {
    var k := p2 - p1;
    assert a[..p1 - p0] == a;
    SpliceSplice(m0, p0, a, b[..k]);
    assert (a + b)[..p2 - p0] == a + b[..k];
    assert whole[..p2 - p0] == (a + b)[..p2 - p0];
  }

  /** What stops in the first part stops in the whole. */
  lemma WroteFront(m0: seq<byte>, p0: nat, m1: seq<byte>, p1: nat, end: nat, head: seq<byte>, whole: seq<byte>)
    requires Wrote(m0, p0, m1, p1, end, head, false) && head <= whole
    ensures Wrote(m0, p0, m1, p1, end, whole, false)
  {
    assert whole[..p1 - p0] == head[..p1 - p0];
  }

  /** The writer compares a signed byte count with the room left. The comparison is the intended
      one exactly for counts below 2^31. */
  lemma WriteCheckExact(room: nat, count: nat)
    requires room < TWO_31 && count < TWO_32
    ensures (room >= AsInt32(count) <==> room >= count) <==> count < TWO_31
  {
    if count < TWO_31 {
      AsInt32Identity(count);
    }
  }

  /** A cursor over part of a memory. */
  class Datastream {
    const mem: array<byte>
    const start: nat
    const end: nat
    var pos: nat
    ghost var overrun: bool

    ghost predicate Valid()
      reads this
    {
      start <= pos <= end <= mem.Length
    }

    /** The buffer is no larger than the difference of two pointers can tell. */
    ghost predicate Writable()
      reads this
    {
      Valid() && end - start < TWO_31
    }

    /** What is still to be read or overwritten. */
    ghost function Remaining(): (r: seq<byte>)
      reads this, mem
      requires Valid()
      ensures |r| == end - pos
    {
      mem[pos..end]
    }

    constructor (mem: array<byte>, start: nat, s: nat)
      requires start + s <= mem.Length
      ensures Valid() && this.mem == mem && this.start == start && end == start + s && pos == start && !overrun
    {
      this.mem, this.start, this.end, this.pos, this.overrun := mem, start, start + s, start, false;
    }

    method Read(s: nat) returns (ok: bool, d: seq<byte>)
      requires Valid()
      modifies this`pos
      ensures Valid()
      ensures ok <==> s <= end - old(pos)
      ensures if ok then Take(s, old(Remaining())) == Ok(d, Remaining()) else pos == old(pos)
    {
      d := [];
      ok := end - pos >= s;
      if ok {
        d := mem[pos..pos + s];
        pos := pos + s;
        assert Take(s, old(Remaining())).value == d;
      }
    }

    /** The count is compared as a signed number. A block of 2^31 bytes or more that does not fit
        gets past the comparison. */
    method Write(d: seq<byte>) returns (ok: bool)
      requires Writable()
      modifies this`pos, this`overrun, mem
      ensures Writable()
      ensures Wrote(old(mem[..]), old(pos), mem[..], pos, end, d, ok)
      ensures !ok ==> pos == old(pos)
      ensures overrun <==> old(overrun) || (!ok && end - old(pos) >= AsInt32(|d|))
      ensures |d| < TWO_31 ==> overrun == old(overrun)
    {
      AsInt32AtMost(|d|);
      var passed := end - pos >= AsInt32(|d|);
      ok := passed && |d| <= end - pos;
      if ok {
        forall i | 0 <= i < |d| {
          mem[pos + i] := d[i];
        }
        pos := pos + |d|;
      } else if passed {
        overrun := true;
      }
    }

    method Put(c: byte) returns (ok: bool)
      requires Valid()
      modifies this`pos, mem
      ensures Valid()
      ensures Wrote(old(mem[..]), old(pos), mem[..], pos, end, [c], ok)
    {
      ok := pos < end;
      if ok {
        mem[pos] := c;
        pos := pos + 1;
      }
    }

    method Get() returns (ok: bool, c: byte)
      requires Valid()
      modifies this`pos
      ensures Valid()
      ensures ok <==> old(Remaining()) != []
      ensures if ok then old(Remaining()) == [c] + Remaining() else pos == old(pos)
    {
      c := 0;
      ok := pos < end;
      if ok {
        c := mem[pos];
        pos := pos + 1;
      }
    }
  }

  type Size = x: int | 0 <= x < TWO_32

  /** The specialisation that only counts. Its counter is a 32-bit `size_t`. */
  class SizeStream {
    var size: Size

    constructor ()
      ensures size == 0
    {
      size := 0;
    }

    method Write(s: nat)
      modifies this
      ensures size == Wrap32(old(size) + s)
    {
      size := Wrap32(size + s);
    }
  }

  // ----- Writing -----

  lemma TopBit(more: bool, low: nat)
    requires low < 128
    ensures Or(if more then 128 else 0, low) == low + if more then 128 else 0
  {
    if more {
      assert Pow(2, 7) == 128;
      OrDisjoint(1, 7, low);
    }
  }

  /** The byte one round of the writer's loop emits. */
  function VarintByte(val: nat): (b: byte)
    ensures EncodeVarint(val) == [b] + if val / 128 > 0 then EncodeVarint(val / 128) else []
  {
    TopBit(val / 128 > 0, val % 128);
    Or(if val / 128 > 0 then 128 else 0, val % 128)
  }

  /** One round of writing `v`: `done` is written and `val` is left to write. */
  lemma WroteVarintByte(m0: seq<byte>, p0: nat, m1: seq<byte>, p1: nat, m2: seq<byte>, p2: nat, end: nat,
                        done: seq<byte>, val: nat, v: nat, ok: bool)
    requires done + EncodeVarint(val) == EncodeVarint(v)
    requires Wrote(m0, p0, m1, p1, end, done, true)
    requires Wrote(m1, p1, m2, p2, end, [VarintByte(val)], ok)
    ensures ok ==> Wrote(m0, p0, m2, p2, end, done + [VarintByte(val)], true)
    ensures !ok ==> Wrote(m0, p0, m2, p2, end, EncodeVarint(v), false)
    ensures var left := if val / 128 > 0 then EncodeVarint(val / 128) else [];
            done + [VarintByte(val)] + left == EncodeVarint(v)
  {
    var left := if val / 128 > 0 then EncodeVarint(val / 128) else [];
    assert done + [VarintByte(val)] + left == done + EncodeVarint(val);
    WroteNext(m0, p0, m1, p1, m2, p2, end, done, [VarintByte(val)], EncodeVarint(v), ok);
  }

  method WriteVarint(ds: Datastream, v: nat) returns (ok: bool)
    requires ds.Writable() && v < TWO_32
    modifies ds`pos, ds`overrun, ds.mem
    ensures ds.Writable()
    ensures Wrote(old(ds.mem[..]), old(ds.pos), ds.mem[..], ds.pos, ds.end, EncodeVarint(v), ok)
    ensures ds.overrun == old(ds.overrun)
  {
    ghost var m0, p0 := ds.mem[..], ds.pos;
    ghost var done: seq<byte> := [];
    var val := v;
    while true
      invariant ds.Writable() && ds.overrun == old(ds.overrun)
      invariant done + EncodeVarint(val) == EncodeVarint(v)
      invariant Wrote(m0, p0, ds.mem[..], ds.pos, ds.end, done, true)
      decreases val
    {
      ghost var m1, p1 := ds.mem[..], ds.pos;
      var b := VarintByte(val);
      ok := ds.Write([b]);
      WroteVarintByte(m0, p0, m1, p1, ds.mem[..], ds.pos, ds.end, done, val, v, ok);
      if !ok { return; }
      done := done + [b];
      val := val / 128;
      if val == 0 {
        assert done == EncodeVarint(v);
        break;
      }
    }
  }

  /** One round of writing a list piece by piece. */
  lemma WrotePiece(m0: seq<byte>, p0: nat, m1: seq<byte>, p1: nat, m2: seq<byte>, p2: nat, end: nat,
                   pieces: seq<seq<byte>>, i: nat, ok: bool)
    requires i < |pieces|
    requires Wrote(m0, p0, m1, p1, end, Join(pieces[..i]), true)
    requires Wrote(m1, p1, m2, p2, end, pieces[i], ok)
    ensures ok ==> Wrote(m0, p0, m2, p2, end, Join(pieces[..i + 1]), true)
    ensures !ok ==> Wrote(m0, p0, m2, p2, end, Join(pieces), false)
  {
    JoinStep(pieces, i);
    WroteNext(m0, p0, m1, p1, m2, p2, end, Join(pieces[..i]), pieces[i], Join(pieces), ok);
  }

  /** Writing a value lays down its encoding, and fails exactly when that does not fit. Below 2^31 bytes
      it is always an assertion that stops it. */
  method WriteValue(ds: Datastream, t: Ty, v: Val) returns (ok: bool)
    requires ds.Writable() && HasType(t, v)
    modifies ds`pos, ds`overrun, ds.mem
    ensures ds.Writable()
    ensures Wrote(old(ds.mem[..]), old(ds.pos), ds.mem[..], ds.pos, ds.end, Encode(t, v), ok)
    ensures |Encode(t, v)| < TWO_31 ==> ds.overrun == old(ds.overrun)
    decreases t, 0
  {
    match t {
      case TUint(w) => ok := ds.Write(LittleEndian(w, v.n));
      case TInt(w) => ok := ds.Write(LittleEndian(w, ToUnsigned(w, v.n)));
      case TBool => ok := ds.Write([if v.b then 1 else 0]);
      case TRaw(_) => ok := ds.Write(v.bs);
      case TVarUint => ok := WriteVarint(ds, v.n);
      case TString => ok := WriteString(ds, v.bs);
      case TStdArray(_, e) => ok := WriteAll(ds, e, v.vs);
      case TCArray(n, e) => ok := WriteCounted(ds, e, v.vs, Primitive(e));
      case TVector(e) => ok := WriteCounted(ds, e, v.vs, e == CHAR);
      case TSet(e) => ok := WriteCounted(ds, e, v.vs, false);
      case TMap(e) => ok := WriteCounted(ds, e, v.vs, false);
      case TTuple(ts) => ok := WriteFields(ds, ts, v.vs);
    }
  }

  method WriteString(ds: Datastream, s: seq<byte>) returns (ok: bool)
    requires ds.Writable() && |s| < TWO_32
    modifies ds`pos, ds`overrun, ds.mem
    ensures ds.Writable()
    ensures Wrote(old(ds.mem[..]), old(ds.pos), ds.mem[..], ds.pos, ds.end, EncodeVarint(|s|) + s, ok)
    ensures |EncodeVarint(|s|) + s| < TWO_31 ==> ds.overrun == old(ds.overrun)
  {
    ghost var head := EncodeVarint(|s|);
    ok := WriteAfter(ds, |s|, s, head, head + s);
  }

  /** A count, and then a block unless that is empty. */
  method WriteAfter(ds: Datastream, count: nat, s: seq<byte>, ghost head: seq<byte>, ghost whole: seq<byte>)
    returns (ok: bool)
    requires ds.Writable() && count < TWO_32 && head == EncodeVarint(count) && whole == head + s
    modifies ds`pos, ds`overrun, ds.mem
    ensures ds.Writable()
    ensures Wrote(old(ds.mem[..]), old(ds.pos), ds.mem[..], ds.pos, ds.end, whole, ok)
    ensures |whole| < TWO_31 ==> ds.overrun == old(ds.overrun)
  {
    ghost var m0, p0 := ds.mem[..], ds.pos;
    ok := WriteVarint(ds, count);
    if !ok {
      WroteFront(m0, p0, ds.mem[..], ds.pos, ds.end, head, whole);
    } else if |s| > 0 {
      ok := WriteRest(ds, s, m0, p0, head, whole);
    } else {
      assert whole == head;
    }
  }

  /** A block after what has been written. */
  method WriteRest(ds: Datastream, s: seq<byte>, ghost m0: seq<byte>, ghost p0: nat, ghost head: seq<byte>,
                   ghost whole: seq<byte>)
    returns (ok: bool)
    requires ds.Writable() && whole == head + s && Wrote(m0, p0, ds.mem[..], ds.pos, ds.end, head, true)
    modifies ds`pos, ds`overrun, ds.mem
    ensures ds.Writable()
    ensures Wrote(m0, p0, ds.mem[..], ds.pos, ds.end, whole, ok)
    ensures |whole| < TWO_31 ==> ds.overrun == old(ds.overrun)
  {
    ghost var m1, p1 := ds.mem[..], ds.pos;
    ok := ds.Write(s);
    WroteNext(m0, p0, m1, p1, ds.mem[..], ds.pos, ds.end, head, s, whole, ok);
  }

  /** The elements, as one block or one by one. */
  method WriteElements(ds: Datastream, e: Ty, vs: seq<Val>, block: bool) returns (ok: bool)
    requires ds.Writable() && AllHaveType(e, vs) && (block ==> Primitive(e))
    modifies ds`pos, ds`overrun, ds.mem
    ensures ds.Writable()
    ensures Wrote(old(ds.mem[..]), old(ds.pos), ds.mem[..], ds.pos, ds.end, EncodeAll(e, vs), ok)
    ensures |EncodeAll(e, vs)| < TWO_31 ==> ds.overrun == old(ds.overrun)
    decreases e, 2
  {
    if block {
      BlockWriteIsElementWise(e, vs);
      ok := ds.Write(Image(Pieces(e, vs), e.size));
    } else {
      ok := WriteAll(ds, e, vs);
    }
  }

  /** A length and then the elements. */
  method WriteCounted(ds: Datastream, e: Ty, vs: seq<Val>, block: bool) returns (ok: bool)
    requires ds.Writable() && AllHaveType(e, vs) && |vs| < TWO_32 && (block ==> Primitive(e))
    modifies ds`pos, ds`overrun, ds.mem
    ensures ds.Writable()
    ensures Wrote(old(ds.mem[..]), old(ds.pos), ds.mem[..], ds.pos, ds.end,
                  EncodeVarint(|vs|) + EncodeAll(e, vs), ok)
    ensures |EncodeVarint(|vs|) + EncodeAll(e, vs)| < TWO_31 ==> ds.overrun == old(ds.overrun)
    decreases e, 3
  {
    ghost var m0, p0, head, body := ds.mem[..], ds.pos, EncodeVarint(|vs|), EncodeAll(e, vs);
    ok := WriteVarint(ds, |vs|);
    ghost var m1, p1 := ds.mem[..], ds.pos;
    if !ok {
      WroteFront(m0, p0, m1, p1, ds.end, head, head + body);
    } else {
      ok := WriteElements(ds, e, vs, block);
      WroteNext(m0, p0, m1, p1, ds.mem[..], ds.pos, ds.end, head, body, head + body, ok);
    }
  }

  method WriteAll(ds: Datastream, e: Ty, vs: seq<Val>) returns (ok: bool)
    requires ds.Writable() && AllHaveType(e, vs)
    modifies ds`pos, ds`overrun, ds.mem
    ensures ds.Writable()
    ensures Wrote(old(ds.mem[..]), old(ds.pos), ds.mem[..], ds.pos, ds.end, EncodeAll(e, vs), ok)
    ensures |EncodeAll(e, vs)| < TWO_31 ==> ds.overrun == old(ds.overrun)
    decreases e, 1
  {
    ghost var m0, p0, pieces := ds.mem[..], ds.pos, Pieces(e, vs);
    ok := true;
    for i := 0 to |vs|
      invariant ds.Writable() && ok && (|Join(pieces)| < TWO_31 ==> ds.overrun == old(ds.overrun))
      invariant Wrote(m0, p0, ds.mem[..], ds.pos, ds.end, Join(pieces[..i]), true)
    {
      ghost var m1, p1 := ds.mem[..], ds.pos;
      JoinStep(pieces, i);
      ok := WriteValue(ds, e, vs[i]);
      WrotePiece(m0, p0, m1, p1, ds.mem[..], ds.pos, ds.end, pieces, i, ok);
      if !ok { return; }
    }
    assert pieces[..|vs|] == pieces;
  }

  method WriteFields(ds: Datastream, ts: seq<Ty>, vs: seq<Val>) returns (ok: bool)
    requires ds.Writable() && FieldsHaveType(ts, vs)
    modifies ds`pos, ds`overrun, ds.mem
    ensures ds.Writable()
    ensures Wrote(old(ds.mem[..]), old(ds.pos), ds.mem[..], ds.pos, ds.end, EncodeFields(ts, vs), ok)
    ensures |EncodeFields(ts, vs)| < TWO_31 ==> ds.overrun == old(ds.overrun)
    decreases ts, 1
  {
    ghost var m0, p0, pieces := ds.mem[..], ds.pos, FieldPieces(ts, vs);
    ok := true;
    for i := 0 to |ts|
      invariant ds.Writable() && ok && (|Join(pieces)| < TWO_31 ==> ds.overrun == old(ds.overrun))
      invariant Wrote(m0, p0, ds.mem[..], ds.pos, ds.end, Join(pieces[..i]), true)
    {
      ghost var m1, p1 := ds.mem[..], ds.pos;
      JoinStep(pieces, i);
      ok := WriteValue(ds, ts[i], vs[i]);
      WrotePiece(m0, p0, m1, p1, ds.mem[..], ds.pos, ds.end, pieces, i, ok);
      if !ok { return; }
    }
    assert pieces[..|vs|] == pieces;
  }

  // ----- Counting -----

  method CountVarint(ps: SizeStream, v: nat)
    requires v < TWO_32
    modifies ps
    ensures ps.size == Wrap32(old(ps.size) + |EncodeVarint(v)|)
  {
    var val := v;
    ghost var n := 0;
    Wrap32Value(0, ps.size);
    while true
      invariant n + |EncodeVarint(val)| == |EncodeVarint(v)|
      invariant ps.size == Wrap32(old(ps.size) + n)
      decreases val
    {
      val := val / 128;
      WrapAdd(old(ps.size) + n, 1);
      ps.Write(1);
      n := n + 1;
      if val == 0 { break; }
    }
  }

  /** Counting a value adds the length of its encoding, in 32 bits. */
  method CountValue(ps: SizeStream, t: Ty, v: Val)
    requires HasType(t, v)
    modifies ps
    ensures ps.size == Wrap32(old(ps.size) + |Encode(t, v)|)
    decreases t, 0
  {
    match t {
      case TUint(w) => ps.Write(w);
      case TInt(w) => ps.Write(w);
      case TBool => ps.Write(1);
      case TRaw(n) => ps.Write(n);
      case TVarUint => CountVarint(ps, v.n);
      case TString => CountString(ps, |v.bs|);
      case TStdArray(_, e) => CountAll(ps, e, v.vs);
      case TCArray(n, e) => CountCounted(ps, e, v.vs, Primitive(e));
      case TVector(e) => CountCounted(ps, e, v.vs, e == CHAR);
      case TSet(e) => CountCounted(ps, e, v.vs, false);
      case TMap(e) => CountCounted(ps, e, v.vs, false);
      case TTuple(ts) => CountFields(ps, ts, v.vs);
    }
  }

  method CountString(ps: SizeStream, n: nat)
    requires n < TWO_32
    modifies ps
    ensures ps.size == Wrap32(old(ps.size) + (|EncodeVarint(n)| + n))
  {
    ghost var head := |EncodeVarint(n)|;
    WrapAdd(ps.size + head, n);
    CountVarint(ps, n);
    if n > 0 { ps.Write(n); }
  }

  /** The elements, as one block or one by one. */
  method CountElements(ps: SizeStream, e: Ty, vs: seq<Val>, block: bool)
    requires AllHaveType(e, vs) && (block ==> Primitive(e))
    modifies ps
    ensures ps.size == Wrap32(old(ps.size) + |EncodeAll(e, vs)|)
    decreases e, 2
  {
    if block {
      BlockSize(e, vs);
      ps.Write(|vs| * e.size);
    } else {
      CountAll(ps, e, vs);
    }
  }

  lemma CountedBoth(start: int, a: int, b: int, mid: int, after: int)
    requires mid == Wrap32(start + a) && after == Wrap32(mid + b)
    ensures after == Wrap32(start + (a + b))
  {
    WrapAdd(start + a, b);
  }

  method CountCounted(ps: SizeStream, e: Ty, vs: seq<Val>, block: bool)
    requires AllHaveType(e, vs) && |vs| < TWO_32 && (block ==> Primitive(e))
    modifies ps
    ensures ps.size == Wrap32(old(ps.size) + |EncodeVarint(|vs|) + EncodeAll(e, vs)|)
    decreases e, 3
  {
    ghost var head, body := |EncodeVarint(|vs|)|, |EncodeAll(e, vs)|;
    CountVarint(ps, |vs|);
    ghost var mid := ps.size;
    CountElements(ps, e, vs, block);
    CountedBoth(old(ps.size), head, body, mid, ps.size);
  }

  lemma CountedPiece(pieces: seq<seq<byte>>, i: nat, start: int, before: int, after: int)
    requires i < |pieces| && before == Wrap32(start + |Join(pieces[..i])|) && after == Wrap32(before + |pieces[i]|)
    ensures after == Wrap32(start + |Join(pieces[..i + 1])|)
  {
    JoinStep(pieces, i);
    WrapAdd(start + |Join(pieces[..i])|, |pieces[i]|);
  }

  method CountAll(ps: SizeStream, e: Ty, vs: seq<Val>)
    requires AllHaveType(e, vs)
    modifies ps
    ensures ps.size == Wrap32(old(ps.size) + |EncodeAll(e, vs)|)
    decreases e, 1
  {
    ghost var pieces := Pieces(e, vs);
    Wrap32Value(0, ps.size);
    for i := 0 to |vs|
      invariant ps.size == Wrap32(old(ps.size) + |Join(pieces[..i])|)
    {
      ghost var before := ps.size;
      CountValue(ps, e, vs[i]);
      CountedPiece(pieces, i, old(ps.size), before, ps.size);
    }
    assert pieces[..|vs|] == pieces;
  }

  method CountFields(ps: SizeStream, ts: seq<Ty>, vs: seq<Val>)
    requires FieldsHaveType(ts, vs)
    modifies ps
    ensures ps.size == Wrap32(old(ps.size) + |EncodeFields(ts, vs)|)
    decreases ts, 1
  {
    ghost var pieces := FieldPieces(ts, vs);
    Wrap32Value(0, ps.size);
    for i := 0 to |ts|
      invariant ps.size == Wrap32(old(ps.size) + |Join(pieces[..i])|)
    {
      ghost var before := ps.size;
      CountValue(ps, ts[i], vs[i]);
      CountedPiece(pieces, i, old(ps.size), before, ps.size);
    }
    assert pieces[..|vs|] == pieces;
  }

  // ----- Reading -----

  datatype ReadResult<+T> = Value(value: T) | Aborted(error: Error)

  /** A read's result and the input it left, as an outcome of the decoder. */
  function Outcome<T>(r: ReadResult<T>, rest: seq<byte>): Parsed<T>
  {
    match r
    case Value(v) => Ok(v, rest)
    case Aborted(e) => Fail(e)
  }

  lemma Shift7(k: nat)
    ensures Pow(2, 7 * k) == Pow(128, k)
  {
    assert Pow(2, 7) == 128;
    PowPow(2, 7, k);
  }

  /** A 32-bit shift of byte number `k` into place keeps what fits. */
  lemma ShiftKeeps(b: byte, k: nat)
    requires k <= 4
    ensures Wrap32(b % 128 * Pow(2, 7 * k)) == Kept(b, k) * Pow(128, k)
  {
    Shift7(k);
    Powers128();
    ShiftKeepsAt(b % 128, Pow(2, 7 * k), k);
  }

  lemma ShiftKeepsAt(x: nat, p: nat, k: nat)
    requires x < 128 && k <= 4
    requires if k < 4 then p <= 2097152 else p == 0x1000_0000
    ensures Wrap32(x * p) == (if k < 4 then x else x % 16) * p
  {
    if k < 4 {
      SmallProduct(x, p);
    } else {
      FifthByte(x, x / 16, x % 16);
    }
  }

  lemma SmallProduct(x: nat, p: nat)
    requires x < 128 && p <= 2097152
    ensures Wrap32(x * p) == x * p
  {
    MulMonotone(x, 127, p);
    MulPositive(x, p);
    Wrap32Value(0, x * p);
  }

  lemma FifthByte(x: nat, high: nat, low: nat)
    requires x == 16 * high + low && low < 16
    ensures Wrap32(x * 0x1000_0000) == low * 0x1000_0000
  {
    Wrap32Value(high, low * 0x1000_0000);
  }

  /** Or-ing the next bits in adds them. */
  lemma OrKept(acc: nat, b: byte, k: nat)
    requires k <= 4 && acc < Pow(128, k)
    ensures Or(Wrap32(b % 128 * Pow(2, 7 * k)), acc) == acc + Kept(b, k) * Pow(128, k)
    ensures k < 4 ==> acc + Kept(b, k) * Pow(128, k) < Pow(128, k + 1)
  {
    ShiftKeeps(b, k);
    Shift7(k);
    OrDisjoint(Kept(b, k), 7 * k, acc);
    MulMonotone(Kept(b, k), 127, Pow(128, k));
  }

  method ReadVarint(ds: Datastream) returns (r: ReadResult<nat>)
    requires ds.Valid()
    modifies ds`pos
    ensures ds.Valid()
    ensures DecodeVarint(old(ds.Remaining())) == Outcome(r, ds.Remaining())
  {
    var v: nat, shift := 0, 0;
    ghost var k := 0;
    while true
      invariant ds.Valid() && shift == 7 * k && k <= 5
      invariant k <= 4 ==> v < Pow(128, k)
      invariant DecodeFrom(ds.Remaining(), k, v) == DecodeVarint(old(ds.Remaining()))
      decreases ds.end - ds.pos
    {
      ghost var rem := ds.Remaining();
      var ok, b := ds.Get();
      if !ok { return Aborted(OutOfBounds); }
      assert rem[1..] == ds.Remaining();
      if shift >= 32 { return Aborted(Undefined); }
      OrKept(v, b, k);
      v := Or(Wrap32(b % 128 * Pow(2, shift)), v);
      shift := shift + 7;
      k := k + 1;
      if b < 128 { return Value(v); }
    }
  }

  method ReadBlock(ds: Datastream, n: nat) returns (r: ReadResult<seq<byte>>)
    requires ds.Valid()
    modifies ds`pos
    ensures ds.Valid()
    ensures Take(n, old(ds.Remaining())) == Outcome(r, ds.Remaining())
  {
    var ok, d := ds.Read(n);
    r := if ok then Value(d) else Aborted(OutOfBounds);
  }

  /** Reading a value leaves the stream where the decoder stops, with the decoder's value, or stops
      the contract with the decoder's error. */
  method ReadValue(ds: Datastream, t: Ty) returns (r: ReadResult<Val>)
    requires ds.Valid()
    modifies ds`pos
    ensures ds.Valid()
    ensures Decode(t, old(ds.Remaining())) == Outcome(r, ds.Remaining())
    decreases t, 0
  {
    match t {
      case TUint(w) =>
        var d := ReadBlock(ds, w);
        if d.Aborted? { return Aborted(d.error); }
        r := Value(VNum(FromLittleEndian(d.value)));
      case TInt(w) =>
        var d := ReadBlock(ds, w);
        if d.Aborted? { return Aborted(d.error); }
        r := Value(VNum(ToSigned(w, FromLittleEndian(d.value))));
      case TBool =>
        var d := ReadBlock(ds, 1);
        if d.Aborted? { return Aborted(d.error); }
        r := Value(VBool(FromLittleEndian(d.value) != 0));
      case TRaw(n) =>
        var d := ReadBlock(ds, n);
        if d.Aborted? { return Aborted(d.error); }
        r := Value(VBytes(d.value));
      case TVarUint =>
        var n := ReadVarint(ds);
        if n.Aborted? { return Aborted(n.error); }
        r := Value(VNum(n.value));
      case TString =>
        var n := ReadVarint(ds);
        if n.Aborted? { return Aborted(n.error); }
        var d := ReadBlock(ds, n.value);
        if d.Aborted? { return Aborted(d.error); }
        r := Value(VBytes(d.value));
      case TStdArray(n, e) =>
        var vs := ReadAll(ds, e, n);
        if vs.Aborted? { return Aborted(vs.error); }
        r := Value(VList(vs.value));
      case TCArray(n, e) =>
        var m := ReadVarint(ds);
        if m.Aborted? { return Aborted(m.error); }
        if m.value != n { return Aborted(SizeMismatch); }
        var vs := ReadElements(ds, e, n, Primitive(e));
        if vs.Aborted? { return Aborted(vs.error); }
        r := Value(VList(vs.value));
      case TVector(e) =>
        var n := ReadVarint(ds);
        if n.Aborted? { return Aborted(n.error); }
        var vs := ReadElements(ds, e, n.value, e == CHAR);
        if vs.Aborted? { return Aborted(vs.error); }
        r := Value(VList(vs.value));
      case TSet(e) =>
        var vs := ReadContainer(ds, e, false);
        if vs.Aborted? { return Aborted(vs.error); }
        r := Value(VList(vs.value));
      case TMap(e) =>
        var vs := ReadContainer(ds, e, true);
        if vs.Aborted? { return Aborted(vs.error); }
        r := Value(VList(vs.value));
      case TTuple(ts) =>
        var vs := ReadFields(ds, ts);
        if vs.Aborted? { return Aborted(vs.error); }
        r := Value(VList(vs.value));
    }
  }

  /** A number of elements, as one block or one by one. */
  method ReadElements(ds: Datastream, e: Ty, n: nat, block: bool) returns (r: ReadResult<seq<Val>>)
    requires ds.Valid() && (block ==> Primitive(e))
    modifies ds`pos
    ensures ds.Valid()
    ensures DecodeAll(e, n, old(ds.Remaining())) == Outcome(r, ds.Remaining())
    decreases e, 2
  {
    if block {
      ghost var rem := ds.Remaining();
      BlockReadIsElementWise(e, n, rem);
      var d := ReadBlock(ds, n * e.size);
      if d.Aborted? { return Aborted(d.error); }
      r := Value(Elements(e, n, d.value));
    } else {
      r := ReadAll(ds, e, n);
    }
  }

  method ReadAll(ds: Datastream, e: Ty, n: nat) returns (r: ReadResult<seq<Val>>)
    requires ds.Valid()
    modifies ds`pos
    ensures ds.Valid()
    ensures DecodeAll(e, n, old(ds.Remaining())) == Outcome(r, ds.Remaining())
    decreases e, 1
  {
    var vs: seq<Val> := [];
    ghost var whole := DecodeAll(e, n, ds.Remaining());
    PrependNothing(whole);
    for i := 0 to n
      invariant ds.Valid()
      invariant Prepend(vs, DecodeAll(e, n - i, ds.Remaining())) == whole
    {
      ghost var rem := ds.Remaining();
      var v := ReadValue(ds, e);
      ReadRound(vs, Decode(e, rem), DecodeAll(e, n - i - 1, ds.Remaining()), v, ds.Remaining());
      if v.Aborted? { return Aborted(v.error); }
      vs := vs + [v.value];
    }
    ReadFinished(vs, ds.Remaining());
    r := Value(vs);
  }

  lemma PrependNothing(p: Parsed<seq<Val>>)
    ensures Prepend([], p) == p
  {
    assert p.Ok? ==> [] + p.value == p.value;
  }

  /** One round of reading: `v` is what the element at the front of `rem` gave, `later` what the
      decoder makes of the rest. */
  lemma ReadRound(vs: seq<Val>, front: Parsed<Val>, later: Parsed<seq<Val>>, v: ReadResult<Val>, rest: seq<byte>)
    requires front == Outcome(v, rest)
    ensures var both := match front case Ok(x, _) => Prepend([x], later) case Fail(e) => Fail(e);
            Prepend(vs, both) == match v case Value(x) => Prepend(vs + [x], later) case Aborted(e) => Fail(e)
  {
    if v.Value? && later.Ok? {
      assert vs + ([v.value] + later.value) == vs + [v.value] + later.value;
    }
  }

  lemma ReadFinished(vs: seq<Val>, rest: seq<byte>)
    ensures Prepend(vs, Ok([], rest)) == Ok(vs, rest)
  {
    assert vs + [] == vs;
  }

  /** Elements emplaced one after the other into an empty container. */
  method ReadEntries(ds: Datastream, e: Ty, n: nat, keyed: bool) returns (r: ReadResult<seq<Val>>)
    requires ds.Valid()
    modifies ds`pos
    ensures ds.Valid()
    ensures match DecodeAll(e, n, old(ds.Remaining()))
            case Ok(vs, rest) => r == Value(Collect(keyed, vs)) && ds.Remaining() == rest
            case Fail(err) => r == Aborted(err)
    decreases e, 1
  {
    var s: seq<Val> := [];
    ghost var vs: seq<Val> := [];
    ghost var whole := DecodeAll(e, n, ds.Remaining());
    PrependNothing(whole);
    for i := 0 to n
      invariant ds.Valid()
      invariant s == Collect(keyed, vs)
      invariant Prepend(vs, DecodeAll(e, n - i, ds.Remaining())) == whole
    {
      ghost var rem := ds.Remaining();
      var v := ReadValue(ds, e);
      ReadRound(vs, Decode(e, rem), DecodeAll(e, n - i - 1, ds.Remaining()), v, ds.Remaining());
      if v.Aborted? { return Aborted(v.error); }
      CollectStep(keyed, vs, v.value);
      vs := vs + [v.value];
      s := Emplace(keyed, s, v.value);
    }
    ReadFinished(vs, ds.Remaining());
    r := Value(s);
  }

  method ReadContainer(ds: Datastream, e: Ty, keyed: bool) returns (r: ReadResult<seq<Val>>)
    requires ds.Valid()
    modifies ds`pos
    ensures ds.Valid()
    ensures match DecodeCounted(e, old(ds.Remaining()))
            case Ok(vs, rest) => r == Value(Collect(keyed, vs)) && ds.Remaining() == rest
            case Fail(err) => r == Aborted(err)
    decreases e, 2
  {
    var n := ReadVarint(ds);
    if n.Aborted? { return Aborted(n.error); }
    r := ReadEntries(ds, e, n.value, keyed);
  }

  method ReadFields(ds: Datastream, ts: seq<Ty>) returns (r: ReadResult<seq<Val>>)
    requires ds.Valid()
    modifies ds`pos
    ensures ds.Valid()
    ensures DecodeFields(ts, old(ds.Remaining())) == Outcome(r, ds.Remaining())
    decreases ts, 1
  {
    var vs: seq<Val> := [];
    ghost var whole := DecodeFields(ts, ds.Remaining());
    PrependNothing(whole);
    assert ts[0..] == ts;
    for i := 0 to |ts|
      invariant ds.Valid()
      invariant Prepend(vs, DecodeFields(ts[i..], ds.Remaining())) == whole
    {
      ghost var rem := ds.Remaining();
      assert ts[i..][1..] == ts[i + 1..];
      var v := ReadValue(ds, ts[i]);
      ReadRound(vs, Decode(ts[i], rem), DecodeFields(ts[i + 1..], ds.Remaining()), v, ds.Remaining());
      if v.Aborted? { return Aborted(v.error); }
      vs := vs + [v.value];
    }
    ReadFinished(vs, ds.Remaining());
    r := Value(vs);
  }

  // ----- pack, pack_size, unpack -----

  /** The counting stream gives the length of the encoding, in 32 bits. */
  method PackSize(t: Ty, v: Val) returns (n: nat)
    requires HasType(t, v)
    ensures n == Wrap32(|Encode(t, v)|)
  {
    var ps := new SizeStream();
    CountValue(ps, t, v);
    n := ps.size;
  }

  /** Packing succeeds exactly for encodings below 2^31 bytes, and then no bounds assertion is met and
      the buffer that was allocated is filled exactly. A buffer of 2^31 bytes or more cannot be
      allocated, and from 2^32 bytes on the count has wrapped and the value does not fit. */
  method Pack(t: Ty, v: Val) returns (ok: bool, result: array<byte>)
    requires HasType(t, v)
    ensures fresh(result) && (ok <==> |Encode(t, v)| < TWO_31)
    ensures ok ==> result[..] == Encode(t, v)
  {
    var n := PackSize(t, v);
    if |Encode(t, v)| < TWO_31 { Wrap32Value(0, |Encode(t, v)|); }
    if n >= TWO_31 {
      return false, new byte[0];
    }
    result := new byte[n];
    var ds := new Datastream(result, 0, n);
    ok := WriteValue(ds, t, v);
    if ok {
      assert Encode(t, v)[..n] == Encode(t, v);
    }
  }

  method Unpack(t: Ty, buffer: array<byte>, len: nat) returns (r: ReadResult<Val>)
    requires len <= buffer.Length
    ensures match Decode(t, buffer[..len])
            case Ok(v, _) => r == Value(v)
            case Fail(e) => r == Aborted(e)
  {
    var ds := new Datastream(buffer, 0, len);
    assert ds.Remaining() == buffer[..len];
    r := ReadValue(ds, t);
  }

  /** Unpacking what was packed, at the level of the two methods. */
  method PackThenUnpack(t: Ty, v: Val) returns (ok: bool, r: ReadResult<Val>)
    requires HasType(t, v)
    ensures ok <==> |Encode(t, v)| < TWO_31
    ensures ok ==> r == Value(v)
  {
    var buffer;
    ok, buffer := Pack(t, v);
    r := Aborted(OutOfBounds);
    if ok {
      RoundTrip(t, v, []);
      assert buffer[..buffer.Length] == Encode(t, v) + [];
      r := Unpack(t, buffer, buffer.Length);
    }
  }
}
