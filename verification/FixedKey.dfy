/** Fixed-size keys: small words packed into 128-bit words so that comparing keys compares the word
    lists. */
module FixedKey {
  import opened Arith

  const WORD: nat := 16
  const LIMIT: nat := 0x1_0000_0000_0000_0000_0000_0000_0000_0000

  lemma LimitPower(k: nat)
    requires k == WORD
    ensures Pow(256, k) == LIMIT
  {
    var e := k / 4;
    assert Pow(256, e) == 0x1_0000_0000;
    PowAdd(256, e, e);
    PowAdd(256, 2 * e, 2 * e);
  }

  // ----- Bytes added at the end -----

  /** `x` with a number of zero bytes after it. */
  function Up(x: nat, bytes: nat): (r: nat)
    decreases bytes
  {
    if bytes == 0 then x else 256 * Up(x, bytes - 1)
  }

  lemma {:induction false} UpAdd(x: nat, a: nat, b: nat)
    ensures Up(Up(x, a), b) == Up(x, a + b)
    decreases b
  {
    if b > 0 { UpAdd(x, a, b - 1); }
  }

  lemma {:induction false} UpGap(x: nat, y: nat, b: nat)
    requires x < y
    ensures Up(x, b) + Pow(256, b) <= Up(y, b)
  {
    if b > 0 { UpGap(x, y, b - 1); }
  }

  lemma {:induction false} UpBound(x: nat, a: nat, b: nat)
    requires x < Pow(256, a)
    ensures Up(x, b) + Pow(256, b) <= Pow(256, a + b)
  {
    if b > 0 { UpBound(x, a, b - 1); }
  }

  lemma {:induction false} UpLonger(x: nat, a: nat, b: nat)
    requires x > 0 && a < b
    ensures Up(x, a) < Up(x, b)
    decreases b
  {
    UpPositive(x, b - 1);
    if a < b - 1 { UpLonger(x, a, b - 1); }
  }

  lemma {:induction false} UpPositive(x: nat, b: nat)
    ensures Up(x, b) > 0 <==> x > 0
    decreases b
  {
    if b > 0 { UpPositive(x, b - 1); }
  }

  /** Words of `w` bytes appended to two numbers: the numbers decide, then the words. */
  lemma UpCompare(p: nat, x: nat, q: nat, y: nat, w: nat)
    requires x < Pow(256, w) && y < Pow(256, w)
    ensures Up(p, w) + x < Up(q, w) + y <==> p < q || (p == q && x < y)
    ensures Up(p, w) + x == Up(q, w) + y <==> p == q && x == y
  {
    if p < q { UpGap(p, q, w); }
    if q < p { UpGap(q, p, w); }
  }

  lemma EightDoubled(y: nat)
    ensures Doubled(y, 8) == 256 * y
  {
    assert Doubled(y, 2) == 2 * Doubled(y, 1);
    assert Doubled(y, 4) == 2 * Doubled(y, 3);
    assert Doubled(y, 6) == 2 * Doubled(y, 5);
    assert Doubled(y, 8) == 2 * Doubled(y, 7);
  }

  lemma {:induction false} UpDoubled(x: nat, b: nat)
    ensures Up(x, b) == Doubled(x, 8 * b)
    decreases b
  {
    if b > 0 {
      UpDoubled(x, b - 1);
      DoubledMore(x, 8, 8 * (b - 1));
      EightDoubled(Up(x, b - 1));
    }
  }

  lemma {:induction false} UpOne(b: nat)
    ensures Up(1, b) == Pow(256, b)
  {
    if b > 0 { UpOne(b - 1); }
  }

  /** Or-ing a word into the zero bytes adds it. */
  lemma OrUp(p: nat, w: nat, x: nat)
    requires x < Pow(256, w)
    ensures Or(Up(p, w), x) == Up(p, w) + x
  {
    UpOne(w);
    UpDoubled(1, w);
    DoubledOne(8 * w);
    UpDoubled(p, w);
    OrDoubled(p, 8 * w, x);
  }

  // ----- Lists of words -----

  /** All entries are words of `w` bytes. */
  predicate Words(ws: seq<nat>, w: nat)
  {
    forall i :: 0 <= i < |ws| ==> ws[i] < Pow(256, w)
  }

  /** The number of bytes of `m` words. */
  function Bytes(w: nat, m: nat): (r: nat)
    decreases m
  {
    if m == 0 then 0 else w + Bytes(w, m - 1)
  }

  lemma {:induction false} BytesSplit(w: nat, a: nat, b: nat)
    ensures Bytes(w, a + b) == Bytes(w, a) + Bytes(w, b)
    decreases b
  {
    if b > 0 { BytesSplit(w, a, b - 1); }
  }

  lemma {:induction false} BytesAtLeast(w: nat, k: nat)
    requires w > 0
    ensures Bytes(w, k) >= k
    ensures Bytes(w, k) == k <==> w == 1 || k == 0
    decreases k
  {
    if k > 0 { BytesAtLeast(w, k - 1); }
  }

  lemma {:induction false} BytesProduct(w: nat, m: nat)
    ensures Bytes(w, m) == w * m
    decreases m
  {
    if m > 0 {
      BytesProduct(w, m - 1);
      Distribute(m - 1, 1, w);
    } else {
      assert w * 0 == 0;
    }
  }

  /** The number with these words as digits, most significant first. */
  function BigEndian(ws: seq<nat>, w: nat): (r: nat)
  {
    if ws == [] then 0 else Up(BigEndian(ws[..|ws| - 1], w), w) + ws[|ws| - 1]
  }

  lemma BigEndianAppend(ws: seq<nat>, x: nat, w: nat)
    ensures BigEndian(ws + [x], w) == Up(BigEndian(ws, w), w) + x
  {
    assert (ws + [x])[..|ws|] == ws;
  }

  lemma {:induction false} BigEndianBound(ws: seq<nat>, w: nat)
    requires Words(ws, w)
    ensures BigEndian(ws, w) < Pow(256, Bytes(w, |ws|))
  {
    if ws != [] {
      var init := ws[..|ws| - 1];
      BigEndianBound(init, w);
      UpBound(BigEndian(init, w), Bytes(w, |init|), w);
    }
  }

  lemma LexAppend(a: seq<nat>, x: nat, b: seq<nat>, y: nat)
    requires |a| == |b|
    ensures LexLess(a + [x], b + [y]) <==> LexLess(a, b) || (a == b && x < y)
    ensures a + [x] == b + [y] <==> a == b && x == y
  {
    LexConcat(a, [x], b, [y]);
    assert LexLess([x], [y]) <==> x < y;
    if a + [x] == b + [y] {
      assert a == (a + [x])[..|a|] == b && x == (a + [x])[|a|] == y;
    }
  }

  /** Numbers with the same count of digits compare as their digit lists do. */
  lemma {:induction false} BigEndianOrder(a: seq<nat>, b: seq<nat>, w: nat)
    requires |a| == |b| && Words(a, w) && Words(b, w)
    ensures BigEndian(a, w) < BigEndian(b, w) <==> LexLess(a, b)
    ensures BigEndian(a, w) == BigEndian(b, w) <==> a == b
    decreases |a|
  {
    if a != [] {
      var n := |a| - 1;
      var a0, b0, x, y := a[..n], b[..n], a[n], b[n];
      assert a == a0 + [x] && b == b0 + [y];
      BigEndianOrder(a0, b0, w);
      LexAppend(a0, x, b0, y);
      UpCompare(BigEndian(a0, w), x, BigEndian(b0, w), y, w);
    }
  }

  function Zeros(n: nat): (r: seq<byte>)
    ensures |r| == n && forall i :: 0 <= i < n ==> r[i] == 0
  {
    seq(n, _ => 0)
  }

  lemma {:induction false} BigEndianZeros(ws: seq<nat>, k: nat, w: nat)
    ensures BigEndian(ws + Zeros(k), w) == Up(BigEndian(ws, w), Bytes(w, k))
    decreases k
  {
    if k == 0 {
      assert ws + Zeros(0) == ws;
    } else {
      BigEndianZeros(ws, k - 1, w);
      assert ws + Zeros(k) == (ws + Zeros(k - 1)) + [0];
      BigEndianAppend(ws + Zeros(k - 1), 0, w);
      UpAdd(BigEndian(ws, w), Bytes(w, k - 1), w);
    }
  }

  // ----- Key words -----

  /** A word of `w` bytes fits a whole number of times in a 16-byte word. */
  predicate WordSize(w: nat)
  {
    w == 1 || w == 2 || w == 4 || w == 8 || w == 16
  }

  /** How many small words of `w` bytes make up a 16-byte word. */
  function PerWord(w: nat): (n: nat)
    requires WordSize(w)
    ensures n > 0
  {
    if w == 1 then 16 else if w == 2 then 8 else if w == 4 then 4 else if w == 8 then 2 else 1
  }

  lemma FullWord(w: nat)
    requires WordSize(w)
    ensures Bytes(w, PerWord(w)) == WORD
  {
    BytesProduct(w, PerWord(w));
  }

  function NumWords(size: nat): nat
  {
    (size + WORD - 1) / WORD
  }

  function PaddedBytes(size: nat): (r: nat)
    ensures r < WORD && size + r == NumWords(size) * WORD
  {
    NumWords(size) * WORD - size
  }

  /** By how many bytes a chunk of `m` small words is moved up. A full chunk stays in place. A
      shorter one is moved by one small word and then by one byte, whatever the word size, for each
      further small word still missing. */
  function ShiftBytes(w: nat, m: nat): (r: nat)
    requires WordSize(w) && m <= PerWord(w)
  {
    if m == PerWord(w) then 0 else w + (PerWord(w) - m - 1)
  }

  /** The key word for up to `16 / w` small words. */
  function KeyWord(w: nat, chunk: seq<nat>): (r: nat)
    requires WordSize(w) && |chunk| <= PerWord(w)
  {
    Up(BigEndian(chunk, w), ShiftBytes(w, |chunk|))
  }

  /** Moving up by a small word for each one missing, and the source's shift: never more, and the
      same exactly for single bytes or when at most one small word is missing. */
  lemma ShiftExactly(w: nat, m: nat)
    requires WordSize(w) && m <= PerWord(w)
    ensures Bytes(w, m) + Bytes(w, PerWord(w) - m) == WORD
    ensures ShiftBytes(w, m) <= Bytes(w, PerWord(w) - m)
    ensures ShiftBytes(w, m) == Bytes(w, PerWord(w) - m) <==> w == 1 || PerWord(w) - m <= 1
  {
    var k := PerWord(w) - m;
    FullWord(w);
    BytesSplit(w, m, k);
    if k > 0 { BytesAtLeast(w, k - 1); }
  }

  /** No bit is lost: the key word of a chunk fits in 16 bytes. */
  lemma KeyWordFits(w: nat, chunk: seq<nat>)
    requires WordSize(w) && |chunk| <= PerWord(w) && Words(chunk, w)
    ensures KeyWord(w, chunk) < LIMIT
  {
    var m := |chunk|;
    ShiftExactly(w, m);
    BigEndianBound(chunk, w);
    FitsInWord(BigEndian(chunk, w), Bytes(w, m), ShiftBytes(w, m));
  }

  lemma FitsInWord(x: nat, a: nat, b: nat)
    requires x < Pow(256, a) && a + b <= WORD
    ensures Up(x, b) < LIMIT
  {
    var k := WORD;
    UpBound(x, a, b);
    PowMonotone(256, a + b, k);
    LimitPower(k);
  }

  /** The plain big-endian layout, with zeros for the missing small words, is what the source
      computes exactly for single bytes, or when at most one small word is missing, or for zero. */
  lemma PlainLayoutExactly(w: nat, chunk: seq<nat>)
    requires WordSize(w) && |chunk| <= PerWord(w)
    ensures KeyWord(w, chunk) == BigEndian(chunk + Zeros(PerWord(w) - |chunk|), w)
            <==> w == 1 || PerWord(w) - |chunk| <= 1 || BigEndian(chunk, w) == 0
  {
    var k := PerWord(w) - |chunk|;
    ShiftExactly(w, |chunk|);
    BigEndianZeros(chunk, k, w);
    UpSame(BigEndian(chunk, w), ShiftBytes(w, |chunk|), Bytes(w, k));
  }

  lemma UpSame(x: nat, a: nat, b: nat)
    requires a <= b
    ensures Up(x, a) == Up(x, b) <==> a == b || x == 0
  {
    UpPositive(x, a);
    UpPositive(x, b);
    if x > 0 && a < b {
      UpLonger(x, a, b);
    }
  }

  lemma {:induction false} UpOrder(x: nat, y: nat, b: nat)
    ensures Up(x, b) < Up(y, b) <==> x < y
    ensures Up(x, b) == Up(y, b) <==> x == y
    decreases b
  {
    if b > 0 { UpOrder(x, y, b - 1); }
  }

  lemma KeyWordOrder(w: nat, a: seq<nat>, b: seq<nat>)
    requires WordSize(w) && |a| == |b| <= PerWord(w) && Words(a, w) && Words(b, w)
    ensures KeyWord(w, a) < KeyWord(w, b) <==> LexLess(a, b)
    ensures KeyWord(w, a) == KeyWord(w, b) <==> a == b
  {
    BigEndianOrder(a, b, w);
    UpOrder(BigEndian(a, w), BigEndian(b, w), ShiftBytes(w, |a|));
  }

  // ----- Keys -----

  function First(n: nat, s: seq<nat>): (r: seq<nat>)
    ensures |r| <= n
  {
    if |s| <= n then s else s[..n]
  }

  function Rest(n: nat, s: seq<nat>): (r: seq<nat>)
  {
    if |s| <= n then [] else s[n..]
  }

  lemma FirstAndRest(n: nat, s: seq<nat>)
    ensures First(n, s) + Rest(n, s) == s
  {
  }

  /** `j` times `n`. */
  function Multiple(j: nat, n: nat): (r: nat)
    decreases j
  {
    if j == 0 then 0 else n + Multiple(j - 1, n)
  }

  lemma {:induction false} MultipleMonotone(i: nat, j: nat, n: nat)
    requires i <= j
    ensures Multiple(i, n) <= Multiple(j, n)
    decreases j
  {
    if i < j { MultipleMonotone(i, j - 1, n); }
  }

  /** Piece `j` of a list cut into pieces of `n`; the last ones are shorter or empty. */
  function Piece(n: nat, ws: seq<nat>, j: nat): (r: seq<nat>)
    ensures |r| <= n
    decreases j
  {
    if j == 0 then First(n, ws) else Piece(n, Rest(n, ws), j - 1)
  }

  /** The small words that go into key word `j`. */
  function Chunk(w: nat, ws: seq<nat>, j: nat): (r: seq<nat>)
    requires WordSize(w)
    ensures |r| <= PerWord(w)
  {
    Piece(PerWord(w), ws, j)
  }

  /** The `count` key words of a list of small words; those past the list are zero. */
  function KeyData(w: nat, ws: seq<nat>, count: nat): (r: seq<nat>)
    requires WordSize(w)
    ensures |r| == count
    decreases count
  {
    if count == 0 then []
    else [KeyWord(w, First(PerWord(w), ws))] + KeyData(w, Rest(PerWord(w), ws), count - 1)
  }

  lemma {:induction false} KeyDataAt(w: nat, ws: seq<nat>, count: nat, j: nat)
    requires WordSize(w) && j < count
    ensures KeyData(w, ws, count)[j] == KeyWord(w, Chunk(w, ws, j))
    decreases j
  {
    if j > 0 {
      KeyDataAt(w, Rest(PerWord(w), ws), count - 1, j - 1);
    }
  }

  lemma LexCons(x: nat, s: seq<nat>, y: nat, t: seq<nat>)
    ensures LexLess([x] + s, [y] + t) <==> x < y || (x == y && LexLess(s, t))
    ensures [x] + s == [y] + t <==> x == y && s == t
  {
    assert ([x] + s)[0] == x && ([y] + t)[0] == y && ([x] + s)[1..] == s && ([y] + t)[1..] == t;
  }

  lemma CombineOrder(x: nat, s: seq<nat>, y: nat, t: seq<nat>,
                     a0: seq<nat>, a1: seq<nat>, b0: seq<nat>, b1: seq<nat>)
    requires |a0| == |b0|
    requires (x < y <==> LexLess(a0, b0)) && (x == y <==> a0 == b0)
    requires (LexLess(s, t) <==> LexLess(a1, b1)) && (s == t <==> a1 == b1)
    ensures LexLess([x] + s, [y] + t) <==> LexLess(a0 + a1, b0 + b1)
    ensures [x] + s == [y] + t <==> a0 + a1 == b0 + b1
  {
    LexCons(x, s, y, t);
    LexConcat(a0, a1, b0, b1);
    if a0 + a1 == b0 + b1 {
      assert a0 == (a0 + a1)[..|a0|] == b0 && a1 == (a0 + a1)[|a0|..] == b1;
    }
  }

  lemma WordsParts(a: seq<nat>, b: seq<nat>, w: nat)
    requires Words(a + b, w)
    ensures Words(a, w) && Words(b, w)
  {
    forall i | 0 <= i < |a| ensures a[i] < Pow(256, w) { assert (a + b)[i] == a[i]; }
    forall i | 0 <= i < |b| ensures b[i] < Pow(256, w) { assert (a + b)[|a| + i] == b[i]; }
  }

  /** For a fixed count of small words the packing is a strict order embedding: keys compare as the
      word lists do, and only equal lists give equal keys. */
  lemma {:induction false} KeyOrder(w: nat, a: seq<nat>, b: seq<nat>, count: nat)
    requires WordSize(w) && |a| == |b| <= Multiple(count, PerWord(w))
    requires Words(a, w) && Words(b, w)
    ensures LexLess(KeyData(w, a, count), KeyData(w, b, count)) <==> LexLess(a, b)
    ensures KeyData(w, a, count) == KeyData(w, b, count) <==> a == b
    decreases count
  {
    if count > 0 {
      var n := PerWord(w);
      var a0, a1, b0, b1 := First(n, a), Rest(n, a), First(n, b), Rest(n, b);
      FirstAndRest(n, a);
      FirstAndRest(n, b);
      WordsParts(a0, a1, w);
      WordsParts(b0, b1, w);
      KeyWordOrder(w, a0, b0);
      KeyOrder(w, a1, b1, count - 1);
      CombineOrder(KeyWord(w, a0), KeyData(w, a1, count - 1), KeyWord(w, b0), KeyData(w, b1, count - 1),
                   a0, a1, b0, b1);
    }
  }

  // ----- The packing loop -----

  /** A 128-bit left shift by whole bytes. */
  function ShiftLeft(x: nat, bytes: nat): (r: nat)
  {
    Up(x, bytes) % LIMIT
  }

  lemma ShiftLeftExact(x: nat, a: nat, b: nat)
    requires x < Pow(256, a) && a + b <= WORD
    ensures ShiftLeft(x, b) == Up(x, b)
  {
    FitsInWord(x, a, b);
    DivModUnique(0, LIMIT, Up(x, b));
  }

  /** Shifting by one small word loses nothing while the chunk is not full. */
  lemma ShiftOneWord(w: nat, cur: seq<nat>)
    requires WordSize(w) && Words(cur, w) && |cur| < PerWord(w)
    ensures ShiftLeft(BigEndian(cur, w), w) == Up(BigEndian(cur, w), w)
  {
    var m := |cur|;
    ShiftExactly(w, m);
    BigEndianBound(cur, w);
    ShiftLeftExact(BigEndian(cur, w), Bytes(w, m), w);
  }

  /** The final shift of an unfinished chunk, after one small word's worth has been shifted. */
  lemma ShiftUnfinished(w: nat, cur: seq<nat>, temp: nat, left: nat)
    requires WordSize(w) && Words(cur, w) && |cur| < PerWord(w)
    requires temp == Up(BigEndian(cur, w), w) && left == PerWord(w) - |cur|
    ensures (if left > 1 then ShiftLeft(temp, left - 1) else temp) == KeyWord(w, cur)
  {
    var x, m := BigEndian(cur, w), |cur|;
    ShiftExactly(w, m);
    UpAdd(x, w, left - 1);
    if left > 1 {
      BigEndianBound(cur, w);
      UpBound(x, Bytes(w, m), w);
      ShiftLeftExact(temp, Bytes(w, m) + w, left - 1);
    }
  }

  /** The loop's state after `i` small words: `itr` key words are complete, `lo` small words went into
      them, and the unfinished one has room for `left` more. */
  predicate Progress(w: nat, ws: seq<nat>, i: nat, itr: nat, lo: nat, left: nat, temp: nat)
    requires WordSize(w)
  {
    && 0 < left <= PerWord(w) && lo == Multiple(itr, PerWord(w))
    && lo + (PerWord(w) - left) == i <= |ws|
    && temp == Up(BigEndian(ws[lo..i], w), w)
  }

  lemma SliceOfRest(ws: seq<nat>, n: nat, lo: nat, hi: nat)
    requires n <= lo <= hi <= |ws|
    ensures |Rest(n, ws)| == |ws| - n && Rest(n, ws)[lo - n..hi - n] == ws[lo..hi]
  {
    var rest := ws[n..];
    assert rest[lo - n..hi - n] == ws[lo..hi];
  }

  lemma {:induction false} PieceIs(n: nat, ws: seq<nat>, j: nat, lo: nat, hi: nat)
    requires lo == Multiple(j, n) && lo <= hi <= |ws|
    requires hi - lo == n || (hi == |ws| && hi - lo < n)
    ensures Piece(n, ws, j) == ws[lo..hi]
    decreases j
  {
    if j > 0 {
      SliceOfRest(ws, n, lo, hi);
      PieceIs(n, Rest(n, ws), j - 1, lo - n, hi - n);
    }
  }

  lemma ChunkIs(w: nat, ws: seq<nat>, j: nat, lo: nat, hi: nat)
    requires WordSize(w) && lo == Multiple(j, PerWord(w)) && lo <= hi <= |ws|
    requires hi - lo == PerWord(w) || (hi == |ws| && hi - lo < PerWord(w))
    ensures Chunk(w, ws, j) == ws[lo..hi]
  {
    PieceIs(PerWord(w), ws, j, lo, hi);
  }

  lemma WordsSlice(ws: seq<nat>, lo: nat, hi: nat, w: nat)
    requires Words(ws, w) && lo <= hi <= |ws|
    ensures Words(ws[lo..hi], w)
  {
  }

  /** Or-ing the next small word in. */
  lemma NextDigit(w: nat, ws: seq<nat>, lo: nat, i: nat, temp: nat)
    requires Words(ws, w) && lo <= i < |ws| && temp == Up(BigEndian(ws[lo..i], w), w)
    ensures Or(temp, ws[i]) == BigEndian(ws[lo..i + 1], w)
  {
    OrUp(BigEndian(ws[lo..i], w), w, ws[i]);
    BigEndianAppend(ws[lo..i], ws[i], w);
    assert ws[lo..i] + [ws[i]] == ws[lo..i + 1];
  }

  lemma StepMore(w: nat, ws: seq<nat>, i: nat, itr: nat, lo: nat, left: nat, temp: nat)
    requires WordSize(w) && Words(ws, w) && Progress(w, ws, i, itr, lo, left, temp) && i < |ws| && left > 1
    ensures Progress(w, ws, i + 1, itr, lo, left - 1, ShiftLeft(Or(temp, ws[i]), w))
  {
    NextDigit(w, ws, lo, i, temp);
    WordsSlice(ws, lo, i + 1, w);
    ShiftOneWord(w, ws[lo..i + 1]);
  }

  lemma StepFull(w: nat, ws: seq<nat>, i: nat, itr: nat, lo: nat, temp: nat)
    requires WordSize(w) && Words(ws, w) && Progress(w, ws, i, itr, lo, 1, temp) && i < |ws|
    ensures Or(temp, ws[i]) == KeyWord(w, Chunk(w, ws, itr))
    ensures Progress(w, ws, i + 1, itr + 1, i + 1, PerWord(w), 0)
  {
    NextDigit(w, ws, lo, i, temp);
    ChunkIs(w, ws, itr, lo, i + 1);
    UpPositive(0, w);
    assert ws[i + 1..i + 1] == [];
  }

  lemma StepLast(w: nat, ws: seq<nat>, itr: nat, lo: nat, left: nat, temp: nat)
    requires WordSize(w) && Words(ws, w) && Progress(w, ws, |ws|, itr, lo, left, temp) && left != PerWord(w)
    ensures (if left > 1 then ShiftLeft(temp, left - 1) else temp) == KeyWord(w, Chunk(w, ws, itr))
  {
    ChunkIs(w, ws, itr, lo, |ws|);
    WordsSlice(ws, lo, |ws|, w);
    ShiftUnfinished(w, ws[lo..|ws|], temp, left);
  }

  /** `goal` lists the key words of `ws`. */
  predicate AreKeyWords(w: nat, ws: seq<nat>, goal: seq<nat>)
    requires WordSize(w)
  {
    forall j {:trigger Chunk(w, ws, j)} :: 0 <= j < |goal| ==> goal[j] == KeyWord(w, Chunk(w, ws, j))
  }

  lemma KeyDataGoal(w: nat, ws: seq<nat>, count: nat)
    requires WordSize(w)
    ensures AreKeyWords(w, ws, KeyData(w, ws, count))
  {
    forall j | 0 <= j < count ensures KeyData(w, ws, count)[j] == KeyWord(w, Chunk(w, ws, j)) {
      KeyDataAt(w, ws, count, j);
    }
  }

  lemma WordDone(w: nat, ws: seq<nat>, goal: seq<nat>, itr: nat)
    requires WordSize(w) && AreKeyWords(w, ws, goal) && itr < |goal|
    ensures goal[itr] == KeyWord(w, Chunk(w, ws, itr))
  {
    var _ := Chunk(w, ws, itr);
  }

  lemma CompleteWord(w: nat, ws: seq<nat>, goal: seq<nat>, i: nat, itr: nat, lo: nat, temp: nat)
    requires WordSize(w) && Words(ws, w) && AreKeyWords(w, ws, goal) && itr < |goal|
    requires Progress(w, ws, i, itr, lo, 1, temp) && i < |ws|
    ensures Or(temp, ws[i]) == goal[itr]
    ensures Progress(w, ws, i + 1, itr + 1, i + 1, PerWord(w), 0)
  {
    StepFull(w, ws, i, itr, lo, temp);
    WordDone(w, ws, goal, itr);
  }

  lemma StartProgress(w: nat, ws: seq<nat>)
    requires WordSize(w)
    ensures Progress(w, ws, 0, 0, 0, PerWord(w), 0)
  {
    UpPositive(0, w);
  }

  /** The write position is inside the array while small words are left. */
  lemma RoomInArray(w: nat, ws: seq<nat>, i: nat, itr: nat, lo: nat, left: nat, temp: nat, length: nat)
    requires WordSize(w) && Progress(w, ws, i, itr, lo, left, temp) && lo < Multiple(length, PerWord(w))
    ensures itr < length
  {
    if itr >= length { MultipleMonotone(length, itr, PerWord(w)); }
  }

  /** What has been written so far. */
  twostate predicate Written(data: array<nat>, goal: seq<nat>, itr: nat)
    reads data
  {
    |goal| == data.Length && forall j :: 0 <= j < data.Length ==> data[j] == if j < itr then goal[j] else old(data[j])
  }

  /** The loop over the small words. Its assertion always holds and it stays inside the array. */
  method PackWords(ws: seq<nat>, w: nat, data: array<nat>, ghost goal: seq<nat>)
    returns (ok: bool, itr: nat, ghost lo: nat, left: nat, temp: nat)
    requires WordSize(w) && Words(ws, w) && |ws| <= Multiple(data.Length, PerWord(w))
    requires |goal| == data.Length && AreKeyWords(w, ws, goal)
    modifies data
    ensures ok && itr <= data.Length && Progress(w, ws, |ws|, itr, lo, left, temp)
    ensures Written(data, goal, itr)
  {
    ok := true;
    itr, lo, temp, left := 0, 0, 0, PerWord(w);
    StartProgress(w, ws);
    for i := 0 to |ws|
      invariant ok && itr <= data.Length
      invariant Progress(w, ws, i, itr, lo, left, temp)
      invariant Written(data, goal, itr)
    {
      RoomInArray(w, ws, i, itr, lo, left, temp, data.Length);
      if left > 1 {
        StepMore(w, ws, i, itr, lo, left, temp);
        temp := Or(temp, ws[i]);
        temp := ShiftLeft(temp, w);
        left := left - 1;
      } else {
        CompleteWord(w, ws, goal, i, itr, lo, temp);
        ok := ok && left == 1;
        temp := Or(temp, ws[i]);
        left := PerWord(w);
        data[itr] := temp;
        temp := 0;
        itr, lo := itr + 1, i + 1;
      }
    }
  }

  /** Which key words have been started after all small words. */
  lemma WrittenWords(itr: nat, n: nat, total: nat, left: nat, j: nat)
    requires 0 < left <= n && Multiple(itr, n) + (n - left) == total
    ensures Multiple(j, n) < total <==> j < itr || (j == itr && left != n)
  {
    if j < itr {
      MultipleMonotone(j + 1, itr, n);
    } else if j > itr {
      MultipleMonotone(itr + 1, j, n);
    }
  }

  /** Packing into `data`, which may hold anything before: the key words of `ws` are written and the
      others left as they were. */
  method SetFromWordSequence(ws: seq<nat>, w: nat, data: array<nat>, ghost goal: seq<nat>) returns (ok: bool)
    requires WordSize(w) && Words(ws, w) && |ws| <= Multiple(data.Length, PerWord(w))
    requires |goal| == data.Length && AreKeyWords(w, ws, goal)
    modifies data
    ensures ok
    ensures forall j :: 0 <= j < data.Length ==>
              data[j] == if Multiple(j, PerWord(w)) < |ws| then goal[j] else old(data[j])
  {
    var itr, left, temp;
    ghost var lo;
    ok, itr, lo, left, temp := PackWords(ws, w, data, goal);
    if left != PerWord(w) {
      RoomInArray(w, ws, |ws|, itr, lo, left, temp, data.Length);
      StepLast(w, ws, itr, lo, left, temp);
      WordDone(w, ws, goal, itr);
      if left > 1 {
        temp := ShiftLeft(temp, left - 1);
      }
      data[itr] := temp;
    }
    forall j | 0 <= j < data.Length
      ensures data[j] == if Multiple(j, PerWord(w)) < |ws| then goal[j] else old(data[j])
    {
      WrittenWords(itr, PerWord(w), |ws|, left, j);
    }
  }

  /** A key of `size` bytes from small words, in storage that starts out zero. */
  method MakeFromWordSequence(size: nat, w: nat, ws: seq<nat>) returns (ok: bool, key: seq<nat>)
    requires WordSize(w) && Words(ws, w) && w * |ws| <= size
    ensures ok && key == KeyData(w, ws, NumWords(size))
  {
    ghost var goal := KeyData(w, ws, NumWords(size));
    KeyDataGoal(w, ws, NumWords(size));
    WordsFit(size, w, |ws|);
    var data := new nat[NumWords(size)](_ => 0);
    ok := SetFromWordSequence(ws, w, data, goal);
    forall j | 0 <= j < data.Length ensures data[j] == goal[j] {
      if Multiple(j, PerWord(w)) >= |ws| {
        WordDone(w, ws, goal, j);
        EmptyChunk(w, ws, j);
      }
    }
    key := data[..];
  }

  lemma {:induction false} MultipleProduct(j: nat, n: nat)
    ensures Multiple(j, n) == j * n
  {
    if j > 0 {
      MultipleProduct(j - 1, n);
      Distribute(j - 1, 1, n);
    }
  }

  lemma WordsFit(size: nat, w: nat, m: nat)
    requires WordSize(w) && w * m <= size
    ensures m <= Multiple(NumWords(size), PerWord(w))
  {
    var k, n := NumWords(size), PerWord(w);
    MultipleProduct(k, n);
    FullWord(w);
    BytesProduct(w, n);
    assert w * (k * n) == k * WORD by { MulAssoc(w, n, k); }
    var _ := PaddedBytes(size);
    MulMonotone(k * n + 1, m, w);
    Distribute(k * n, 1, w);
  }

  lemma {:induction false} PiecePast(n: nat, ws: seq<nat>, j: nat)
    requires Multiple(j, n) >= |ws|
    ensures Piece(n, ws, j) == []
    decreases j
  {
    if j > 0 { PiecePast(n, Rest(n, ws), j - 1); }
  }

  lemma EmptyChunk(w: nat, ws: seq<nat>, j: nat)
    requires WordSize(w) && Multiple(j, PerWord(w)) >= |ws|
    ensures KeyWord(w, Chunk(w, ws, j)) == 0
  {
    PiecePast(PerWord(w), ws, j);
    UpPositive(0, ShiftBytes(w, 0));
  }
}
