/** Two-thirds majorities: how any two overlap, and the order statistic that turns what each
    producer implies to be irreversible into what the chain takes to be. */
module Quorum {

  type Name = nat

  /** More than two thirds of `n`. */
  function Required(n: nat): (r: nat)
    ensures 0 < r
    ensures n > 0 ==> r <= n
  {
    n * 2 / 3 + 1
  }

  lemma SubsetCardinality<T>(a: set<T>, b: set<T>)
    requires a <= b
    ensures |a| <= |b|
  {
    assert b == a + (b - a);
  }

  /** Any two majorities of the same `n` producers share more than a third of them. */
  lemma QuorumsOverlap(all: set<Name>, a: set<Name>, b: set<Name>)
    requires a <= all && b <= all
    requires |a| >= Required(|all|) && |b| >= Required(|all|)
    ensures |a * b| >= |all| / 3 + 1
  {
    assert |a + b| == |a| + |b| - |a * b|;
    SubsetCardinality(a + b, all);
  }

  // ----- The sorted list of block numbers -----

  predicate Ascending(s: seq<int>)
  {
    forall i, j :: 0 <= i < j < |s| ==> s[i] <= s[j]
  }

  function Insert(x: int, s: seq<int>): (r: seq<int>)
    ensures |r| == |s| + 1
  {
    if s == [] || x <= s[0] then [x] + s else [s[0]] + Insert(x, s[1..])
  }

  function Sort(s: seq<int>): (r: seq<int>)
    ensures |r| == |s|
  {
    if s == [] then [] else Insert(s[0], Sort(s[1..]))
  }

  function CountAtLeast(s: seq<int>, x: int): (r: nat)
  {
    if s == [] then 0 else (if s[0] >= x then 1 else 0) + CountAtLeast(s[1..], x)
  }

  lemma {:induction false} InsertAscending(x: int, s: seq<int>)
    requires Ascending(s)
    ensures Ascending(Insert(x, s))
    ensures forall y :: y in Insert(x, s) <==> y == x || y in s
  {
    if s != [] && x > s[0] {
      InsertAscending(x, s[1..]);
      var r := Insert(x, s[1..]);
      forall j | 0 <= j < |r| ensures s[0] <= r[j] { assert r[j] in r; }
    }
  }

  lemma {:induction false} SortAscending(s: seq<int>)
    ensures Ascending(Sort(s))
    ensures forall y :: y in Sort(s) <==> y in s
  {
    if s != [] {
      SortAscending(s[1..]);
      InsertAscending(s[0], Sort(s[1..]));
    }
  }

  lemma {:induction false} InsertCount(x: int, s: seq<int>, y: int)
    ensures CountAtLeast(Insert(x, s), y) == CountAtLeast(s, y) + if x >= y then 1 else 0
  {
    if s == [] || x <= s[0] {
      assert ([x] + s)[1..] == s;
    } else {
      InsertCount(x, s[1..], y);
      assert Insert(x, s)[1..] == Insert(x, s[1..]);
    }
  }

  lemma {:induction false} SortCount(s: seq<int>, y: int)
    ensures CountAtLeast(Sort(s), y) == CountAtLeast(s, y)
  {
    if s != [] {
      SortCount(s[1..], y);
      InsertCount(s[0], Sort(s[1..]), y);
    }
  }

  /** In an ascending list, entry `k` is reached by the entries from `k` on, and anything larger
      by fewer. */
  lemma {:induction false} AscendingCount(s: seq<int>, k: nat, y: int)
    requires Ascending(s) && k < |s|
    ensures CountAtLeast(s, s[k]) >= |s| - k
    ensures y > s[k] ==> CountAtLeast(s, y) < |s| - k
    decreases |s|
  {
    CountBound(s, y);
    if k > 0 {
      AscendingCount(s[1..], k - 1, y);
    } else {
      AllAtLeast(s, s[0]);
      CountBound(s[1..], y);
    }
  }

  lemma {:induction false} CountBound(s: seq<int>, y: int)
    ensures CountAtLeast(s, y) <= |s|
  {
    if s != [] { CountBound(s[1..], y); }
  }

  lemma {:induction false} AllAtLeast(s: seq<int>, y: int)
    requires forall i :: 0 <= i < |s| ==> s[i] >= y
    ensures CountAtLeast(s, y) == |s|
  {
    if s != [] { AllAtLeast(s[1..], y); }
  }

  // ----- Per-producer block numbers -----

  /** The values of a map as a list. Their order does not matter: the list gets sorted. */
  ghost function Values(m: map<Name, int>): (r: seq<int>)
    ensures |r| == |m|
    decreases |m|
  {
    if m == map[] then [] else
      var k :| k in m;
      assert (m - {k}).Keys == m.Keys - {k};
      [m[k]] + Values(m - {k})
  }

  /** The producers that reach block number `x`. */
  ghost function Supporters(m: map<Name, int>, x: int): (r: set<Name>)
  {
    set p | p in m && m[p] >= x
  }

  lemma ValuesUnfold(m: map<Name, int>) returns (k: Name, rest: map<Name, int>)
    requires m != map[]
    ensures k in m && rest == m - {k} && |rest| < |m|
    ensures Values(m) == [m[k]] + Values(rest)
  {
    k :| k in m && Values(m) == [m[k]] + Values(m - {k});
    rest := m - {k};
    assert rest.Keys == m.Keys - {k};
  }

  lemma SupportersStep(m: map<Name, int>, k: Name, x: int)
    requires k in m
    ensures |Supporters(m, x)| == |Supporters(m - {k}, x)| + if m[k] >= x then 1 else 0
  {
    assert k !in Supporters(m - {k}, x);
    assert Supporters(m, x) == Supporters(m - {k}, x) + if m[k] >= x then {k} else {};
  }

  lemma {:induction false} CountSupporters(m: map<Name, int>, x: int)
    ensures CountAtLeast(Values(m), x) == |Supporters(m, x)|
    decreases |m|
  {
    if m == map[] {
      assert Supporters(m, x) == {};
    } else {
      var k, rest := ValuesUnfold(m);
      CountSupporters(rest, x);
      SupportersStep(m, k, x);
      assert Values(m)[1..] == Values(rest);
    }
  }

  lemma {:induction false} ValueOfSome(m: map<Name, int>, y: int) returns (p: Name)
    requires y in Values(m)
    ensures p in m && m[p] == y
    decreases |m|
  {
    var k, rest := ValuesUnfold(m);
    if m[k] == y {
      p := k;
    } else {
      p := ValueOfSome(rest, y);
    }
  }

  /** The last irreversible block number: one third into the sorted list. */
  ghost function LastIrreversible(m: map<Name, int>): (r: int)
  {
    if |m| == 0 then 0 else Sort(Values(m))[(|m| - 1) / 3]
  }

  /** It is the largest number that more than two thirds of the producers reach. */
  lemma LastIrreversibleIsLargestSupported(m: map<Name, int>, x: int)
    requires |m| > 0
    ensures |Supporters(m, LastIrreversible(m))| >= Required(|m|)
    ensures x > LastIrreversible(m) ==> |Supporters(m, x)| < Required(|m|)
    ensures exists p :: p in m && m[p] == LastIrreversible(m)
  {
    var s, k := Sort(Values(m)), (|m| - 1) / 3;
    SortAscending(Values(m));
    AscendingCount(s, k, x);
    SortCount(Values(m), s[k]);
    SortCount(Values(m), x);
    CountSupporters(m, s[k]);
    CountSupporters(m, x);
    assert s[k] in s;
    var p := ValueOfSome(m, s[k]);
  }

  /** A number is reached by the one-third entry exactly when enough producers reach it. */
  lemma LastIrreversibleReaches(m: map<Name, int>, x: int)
    requires |m| > 0
    ensures LastIrreversible(m) >= x <==> |Supporters(m, x)| >= Required(|m|)
  {
    LastIrreversibleIsLargestSupported(m, x);
    if LastIrreversible(m) >= x {
      SubsetCardinality(Supporters(m, LastIrreversible(m)), Supporters(m, x));
    }
  }

  /** Raising what one of the producers implies cannot lower it. */
  lemma LastIrreversibleMonotone(m: map<Name, int>, p: Name, x: int)
    requires p in m && m[p] <= x
    ensures LastIrreversible(m) <= LastIrreversible(m[p := x])
  {
    var m' := m[p := x];
    var y := LastIrreversible(m);
    assert m'.Keys == m.Keys;
    assert |m'| == |m.Keys| == |m|;
    LastIrreversibleIsLargestSupported(m, y);
    LastIrreversibleIsLargestSupported(m', y);
    SubsetCardinality(Supporters(m, y), Supporters(m', y));
  }
}
