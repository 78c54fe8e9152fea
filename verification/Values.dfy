/** The serialisable types and their values, with the ordering that sorted containers keep. */
module Values {
  import opened Arith
  import opened Varint

  /** Type descriptors, one constructor for each family of stream operators.
      `TRaw(n)` is any block copied as `n` bytes: checksums, public keys, floating point.
      `TStdArray` is `std::array`, `TCArray` a built-in array; the latter carries its length.
      `TSet` and `TMap` stand for both the `std` and the `boost` flat containers; the entry type
      of a map is the pair of its key and its value. `TTuple` is a tuple or a class. */
  datatype Ty =
    | TUint(size: nat)
    | TInt(size: nat)
    | TBool
    | TRaw(size: nat)
    | TVarUint
    | TString
    | TStdArray(count: nat, elem: Ty)
    | TCArray(count: nat, elem: Ty)
    | TVector(elem: Ty)
    | TSet(elem: Ty)
    | TMap(entry: Ty)
    | TTuple(fields: seq<Ty>)

  /** Sets and maps are given by their contents in iteration order, a map entry by the list of
      its key and its value. */
  datatype Val =
    | VNum(n: int)
    | VBool(b: bool)
    | VBytes(bs: seq<byte>)
    | VList(vs: seq<Val>)

  predicate IsPair(t: Ty)
  {
    t.TTuple? && |t.fields| == 2
  }

  /** Types the templates can be instantiated at. */
  predicate WellFormed(t: Ty)
  {
    match t
    case TStdArray(_, e) => WellFormed(e)
    case TCArray(n, e) => n < TWO_32 && WellFormed(e)
    case TVector(e) => WellFormed(e)
    case TSet(e) => WellFormed(e)
    case TMap(e) => IsPair(e) && WellFormed(e)
    case TTuple(ts) => forall i :: 0 <= i < |ts| ==> WellFormed(ts[i])
    case _ => true
  }

  predicate HasType(t: Ty, v: Val)
    decreases t, 0
  {
    match t
    case TUint(w) => v.VNum? && 0 <= v.n < Pow(256, w)
    case TInt(w) => var p: int := Pow(256, w); v.VNum? && -p <= 2 * v.n < p
    case TBool => v.VBool?
    case TRaw(n) => v.VBytes? && |v.bs| == n
    case TVarUint => v.VNum? && 0 <= v.n < TWO_32
    case TString => v.VBytes? && |v.bs| < TWO_32
    case TStdArray(n, e) => v.VList? && |v.vs| == n && AllHaveType(e, v.vs)
    case TCArray(n, e) => v.VList? && |v.vs| == n < TWO_32 && AllHaveType(e, v.vs)
    case TVector(e) => v.VList? && |v.vs| < TWO_32 && AllHaveType(e, v.vs)
    case TSet(e) => v.VList? && |v.vs| < TWO_32 && AllHaveType(e, v.vs) && Sorted(false, v.vs)
    case TMap(e) => v.VList? && |v.vs| < TWO_32 && IsPair(e) && AllHaveType(e, v.vs) && Sorted(true, v.vs)
    case TTuple(ts) => v.VList? && FieldsHaveType(ts, v.vs)
  }

  predicate AllHaveType(t: Ty, vs: seq<Val>)
    decreases t, 1
  {
    forall i :: 0 <= i < |vs| ==> HasType(t, vs[i])
  }

  predicate FieldsHaveType(ts: seq<Ty>, vs: seq<Val>)
    decreases ts, 1
  {
    |ts| == |vs| && forall i :: 0 <= i < |ts| ==> HasType(ts[i], vs[i])
  }

  // ----- Order -----

  function Rank(v: Val): nat
  {
    match v
    case VNum(_) => 0
    case VBool(_) => 1
    case VBytes(_) => 2
    case VList(_) => 3
  }

  /** Numeric order, and lexicographic order on strings, tuples and containers. */
  predicate Less(a: Val, b: Val)
  {
    if Rank(a) != Rank(b) then Rank(a) < Rank(b) else
    match a
    case VNum(n) => n < b.n
    case VBool(x) => !x && b.b
    case VBytes(s) => LexLess(s, b.bs)
    case VList(vs) => LessAll(vs, b.vs)
  }

  predicate LessAll(a: seq<Val>, b: seq<Val>)
  {
    b != [] && (a == [] || Less(a[0], b[0]) || (a[0] == b[0] && LessAll(a[1..], b[1..])))
  }

  /** Any two values are equal or ordered one way, and none is below itself. */
  lemma {:induction false} LessOrder(a: Val, b: Val)
    ensures !Less(a, a)
    ensures Less(a, b) || a == b || Less(b, a)
    decreases a, 0
  {
    match a
    case VBytes(s) => LexOrder(s, if b.VBytes? then b.bs else []);
    case VList(vs) => LessAllOrder(vs, if b.VList? then b.vs else []);
    case _ =>
  }

  lemma {:induction false} LessAllOrder(a: seq<Val>, b: seq<Val>)
    ensures !LessAll(a, a)
    ensures LessAll(a, b) || a == b || LessAll(b, a)
    decreases a, 1
  {
    if a != [] {
      LessAllOrder(a[1..], if b == [] then [] else b[1..]);
      LessOrder(a[0], if b == [] then a[0] else b[0]);
      if b != [] && a[0] == b[0] && a[1..] == b[1..] {
        assert a == [a[0]] + a[1..] == b;
      }
    }
  }

  lemma {:induction false} LessTransitive(a: Val, b: Val, c: Val)
    requires Less(a, b) && Less(b, c)
    ensures Less(a, c)
    decreases a, 0
  {
    if Rank(a) == Rank(b) == Rank(c) {
      match a
      case VBytes(s) => LexTransitive(s, b.bs, c.bs);
      case VList(vs) => LessAllTransitive(vs, b.vs, c.vs);
      case _ =>
    }
  }

  lemma {:induction false} LessAllTransitive(a: seq<Val>, b: seq<Val>, c: seq<Val>)
    requires LessAll(a, b) && LessAll(b, c)
    ensures LessAll(a, c)
    decreases a, 1
  {
    if a != [] {
      LessOrder(a[0], a[0]);
      if a[0] == b[0] && b[0] == c[0] {
        LessAllTransitive(a[1..], b[1..], c[1..]);
      } else if a[0] != b[0] && b[0] != c[0] {
        LessTransitive(a[0], b[0], c[0]);
      }
    }
  }

  // ----- Sorted containers -----

  /** What a set or (when `keyed`) a map orders its contents by. */
  function Key(keyed: bool, e: Val): Val
  {
    if keyed && e.VList? && e.vs != [] then e.vs[0] else e
  }

  predicate Sorted(keyed: bool, s: seq<Val>)
  {
    forall i, j :: 0 <= i < j < |s| ==> Less(Key(keyed, s[i]), Key(keyed, s[j]))
  }

  /** Insertion that leaves the container alone when the key is already there. */
  function Emplace(keyed: bool, s: seq<Val>, e: Val): (r: seq<Val>)
  {
    if s == [] then [e]
    else if Less(Key(keyed, e), Key(keyed, s[0])) then [e] + s
    else if Key(keyed, e) == Key(keyed, s[0]) then s
    else [s[0]] + Emplace(keyed, s[1..], e)
  }

  /** The container that emplacing `vs` one after the other builds. */
  function Collect(keyed: bool, vs: seq<Val>): (r: seq<Val>)
  {
    if vs == [] then [] else Emplace(keyed, Collect(keyed, vs[..|vs| - 1]), vs[|vs| - 1])
  }

  lemma CollectStep(keyed: bool, vs: seq<Val>, v: Val)
    ensures Collect(keyed, vs + [v]) == Emplace(keyed, Collect(keyed, vs), v)
  {
    assert (vs + [v])[..|vs|] == vs;
  }

  predicate HasKey(keyed: bool, s: seq<Val>, k: Val)
  {
    exists i :: 0 <= i < |s| && Key(keyed, s[i]) == k
  }

  lemma HasKeyCons(keyed: bool, x: Val, tail: seq<Val>, k: Val)
    ensures HasKey(keyed, [x] + tail, k) <==> Key(keyed, x) == k || HasKey(keyed, tail, k)
  {
    var s := [x] + tail;
    if HasKey(keyed, s, k) && Key(keyed, x) != k {
      var i :| 0 <= i < |s| && Key(keyed, s[i]) == k;
      assert tail[i - 1] == s[i];
    }
    if HasKey(keyed, tail, k) {
      var i :| 0 <= i < |tail| && Key(keyed, tail[i]) == k;
      assert s[i + 1] == tail[i];
    }
    assert s[0] == x;
  }

  /** A key below the first is below all, and so is new. */
  lemma BelowAll(keyed: bool, s: seq<Val>, k: Val)
    requires Sorted(keyed, s) && s != [] && Less(k, Key(keyed, s[0]))
    ensures forall i :: 0 <= i < |s| ==> Less(k, Key(keyed, s[i]))
    ensures !HasKey(keyed, s, k)
  {
    forall i | 0 <= i < |s| ensures Less(k, Key(keyed, s[i])) {
      if i > 0 { LessTransitive(k, Key(keyed, s[0]), Key(keyed, s[i])); }
    }
    LessOrder(k, k);
  }

  /** The first entry stays below whatever emplacing behind it gives. */
  lemma FirstStaysBelow(keyed: bool, s: seq<Val>, e: Val, r: seq<Val>)
    requires Sorted(keyed, s) && s != [] && Less(Key(keyed, s[0]), Key(keyed, e)) && Sorted(keyed, r)
    requires forall x :: x in r ==> x in s[1..] || x == e
    ensures Sorted(keyed, [s[0]] + r)
  {
    forall j | 0 <= j < |r| ensures Less(Key(keyed, s[0]), Key(keyed, r[j])) {
      assert r[j] in r;
      if r[j] in s[1..] {
        var i :| 0 <= i < |s[1..]| && s[1..][i] == r[j];
        assert s[i + 1] == r[j];
      }
    }
  }

  /** Emplacing keeps the order and adds the entry exactly when its key is new. */
  lemma {:induction false} EmplaceSorted(keyed: bool, s: seq<Val>, e: Val)
    requires Sorted(keyed, s)
    ensures Sorted(keyed, Emplace(keyed, s, e))
    ensures |Emplace(keyed, s, e)| <= |s| + 1
    ensures forall x :: x in Emplace(keyed, s, e) <==>
                          x in s || (x == e && !HasKey(keyed, s, Key(keyed, e)))
  {
    if s != [] {
      var k, tail := Key(keyed, e), s[1..];
      LessOrder(k, Key(keyed, s[0]));
      assert s == [s[0]] + tail;
      if Less(k, Key(keyed, s[0])) {
        BelowAll(keyed, s, k);
      } else if k != Key(keyed, s[0]) {
        EmplaceSorted(keyed, tail, e);
        HasKeyCons(keyed, s[0], tail, k);
        FirstStaysBelow(keyed, s, e, Emplace(keyed, tail, e));
      }
    }
  }

  /** `x` is the first entry of `vs` with its key. */
  ghost predicate IsFirst(keyed: bool, vs: seq<Val>, x: Val)
  {
    exists i :: IsFirstAt(keyed, vs, x, i)
  }

  predicate IsFirstAt(keyed: bool, vs: seq<Val>, x: Val, i: nat)
  {
    i < |vs| && vs[i] == x && !HasKey(keyed, vs[..i], Key(keyed, x))
  }

  lemma FirstAtOfLonger(keyed: bool, init: seq<Val>, last: Val, x: Val, i: nat)
    ensures i < |init| ==> (IsFirstAt(keyed, init + [last], x, i) <==> IsFirstAt(keyed, init, x, i))
    ensures i == |init| ==>
              (IsFirstAt(keyed, init + [last], x, i) <==> x == last && !HasKey(keyed, init, Key(keyed, x)))
  {
    if i <= |init| {
      assert (init + [last])[..i] == init[..i];
      assert init[..|init|] == init;
    }
  }

  lemma FirstOfLonger(keyed: bool, init: seq<Val>, last: Val, x: Val)
    ensures IsFirst(keyed, init + [last], x) <==>
            IsFirst(keyed, init, x) || (x == last && !HasKey(keyed, init, Key(keyed, last)))
  {
    forall i: nat {
      FirstAtOfLonger(keyed, init, last, x, i);
    }
    if IsFirst(keyed, init, x) {
      var i :| IsFirstAt(keyed, init, x, i);
      assert IsFirstAt(keyed, init + [last], x, i);
    }
    if x == last && !HasKey(keyed, init, Key(keyed, last)) {
      assert IsFirstAt(keyed, init + [last], x, |init|);
    }
  }

  /** A container read from entries in any order and with repeats holds, in key order, exactly
      the first entry for each key. */
  lemma {:induction false} CollectFirstOccurrences(keyed: bool, vs: seq<Val>)
    ensures Sorted(keyed, Collect(keyed, vs))
    ensures |Collect(keyed, vs)| <= |vs|
    ensures forall x :: x in Collect(keyed, vs) <==> IsFirst(keyed, vs, x)
  {
    if vs != [] {
      var n := |vs| - 1;
      var init, last := vs[..n], vs[n];
      CollectFirstOccurrences(keyed, init);
      EmplaceSorted(keyed, Collect(keyed, init), last);
      KeysOfCollect(keyed, init, Key(keyed, last));
      assert vs == init + [last];
      forall x ensures x in Collect(keyed, vs) <==> IsFirst(keyed, vs, x) {
        FirstOfLonger(keyed, init, last, x);
      }
    }
  }

  /** Collecting loses no key, given what it collects. */
  lemma KeysOfCollect(keyed: bool, vs: seq<Val>, k: Val)
    requires forall x :: x in Collect(keyed, vs) <==> IsFirst(keyed, vs, x)
    ensures HasKey(keyed, Collect(keyed, vs), k) <==> HasKey(keyed, vs, k)
  {
    var c := Collect(keyed, vs);
    if HasKey(keyed, c, k) {
      var i :| 0 <= i < |c| && Key(keyed, c[i]) == k;
      assert c[i] in c;
    }
    if HasKey(keyed, vs, k) {
      var i := FirstIndex(keyed, vs, k);
      assert IsFirstAt(keyed, vs, vs[i], i);
      assert vs[i] in c;
    }
  }

  lemma FirstIndex(keyed: bool, vs: seq<Val>, k: Val) returns (i: nat)
    requires HasKey(keyed, vs, k)
    ensures i < |vs| && Key(keyed, vs[i]) == k && !HasKey(keyed, vs[..i], k)
  {
    i := 0;
    while Key(keyed, vs[i]) != k
      invariant i < |vs| && !HasKey(keyed, vs[..i], k)
      decreases |vs| - i
    {
      var j :| 0 <= j < |vs| && Key(keyed, vs[j]) == k;
      assert i < j;
      i := i + 1;
    }
  }

  /** Two sorted lists with the same members are the same list. */
  lemma {:induction false} SortedUnique(keyed: bool, a: seq<Val>, b: seq<Val>)
    requires Sorted(keyed, a) && Sorted(keyed, b)
    requires forall x :: x in a <==> x in b
    ensures a == b
  {
    assert a != [] ==> a[0] in b;
    assert b != [] ==> b[0] in a;
    if a != [] {
      var i :| 0 <= i < |b| && b[i] == a[0];
      var j :| 0 <= j < |a| && a[j] == b[0];
      if i > 0 && j > 0 {
        LessTransitive(Key(keyed, a[0]), Key(keyed, b[0]), Key(keyed, a[0]));
        LessOrder(Key(keyed, a[0]), Key(keyed, a[0]));
        assert false;
      }
      assert a[0] == b[0];
      forall x ensures x in a[1..] <==> x in b[1..] {
        TailMember(keyed, a, x);
        TailMember(keyed, b, x);
      }
      SortedUnique(keyed, a[1..], b[1..]);
      assert a == [a[0]] + a[1..] && b == [b[0]] + b[1..];
    }
  }

  lemma TailMember(keyed: bool, s: seq<Val>, x: Val)
    requires Sorted(keyed, s) && s != []
    ensures x in s[1..] <==> x in s && x != s[0]
  {
    if x in s[1..] {
      var i :| 0 <= i < |s[1..]| && s[1..][i] == x;
      assert s[i + 1] == x;
      LessOrder(Key(keyed, s[0]), Key(keyed, s[0]));
    }
    if x in s && x != s[0] {
      var i :| 0 <= i < |s| && s[i] == x;
      assert s[1..][i - 1] == x;
    }
  }

  predicate DistinctKeys(keyed: bool, vs: seq<Val>)
  {
    forall i, j :: 0 <= i < j < |vs| ==> Key(keyed, vs[i]) != Key(keyed, vs[j])
  }

  lemma DistinctAllFirst(keyed: bool, vs: seq<Val>, x: Val)
    requires DistinctKeys(keyed, vs)
    ensures IsFirst(keyed, vs, x) <==> x in vs
  {
    if x in vs {
      var i :| 0 <= i < |vs| && vs[i] == x;
      assert IsFirstAt(keyed, vs, x, i);
    }
  }

  /** With distinct keys the order of arrival does not matter. */
  lemma CollectOrderIndependent(keyed: bool, vs: seq<Val>, ws: seq<Val>)
    requires DistinctKeys(keyed, vs) && DistinctKeys(keyed, ws)
    requires forall x :: x in vs <==> x in ws
    ensures Collect(keyed, vs) == Collect(keyed, ws)
  {
    CollectFirstOccurrences(keyed, vs);
    CollectFirstOccurrences(keyed, ws);
    forall x ensures x in Collect(keyed, vs) <==> x in Collect(keyed, ws) {
      DistinctAllFirst(keyed, vs, x);
      DistinctAllFirst(keyed, ws, x);
    }
    SortedUnique(keyed, Collect(keyed, vs), Collect(keyed, ws));
  }

  /** What is already a container is left as it is. */
  lemma CollectSorted(keyed: bool, vs: seq<Val>)
    requires Sorted(keyed, vs)
    ensures Collect(keyed, vs) == vs
  {
    CollectFirstOccurrences(keyed, vs);
    forall i, j | 0 <= i < j < |vs| ensures Key(keyed, vs[i]) != Key(keyed, vs[j]) {
      LessOrder(Key(keyed, vs[i]), Key(keyed, vs[i]));
    }
    forall x ensures x in Collect(keyed, vs) <==> x in vs {
      DistinctAllFirst(keyed, vs, x);
    }
    SortedUnique(keyed, Collect(keyed, vs), vs);
  }
}
