/** The byte array a fixed-size key is extracted as. */
module KeyBytes {
  import opened Arith
  import opened FixedKey

  /** The `n` low-order bytes of `x`, most significant first. */
  function BytesOf(n: nat, x: nat): (r: seq<byte>)
    ensures |r| == n
  {
    if n == 0 then [] else BytesOf(n - 1, x / 256) + [x % 256]
  }

  /** Every word gives its 16 bytes, except that of the last one `padded` high-order bytes are left
      out. */
  function Extracted(data: seq<nat>, padded: nat): (r: seq<byte>)
    requires padded <= WORD
  {
    if data == [] then []
    else if |data| == 1 then BytesOf(WORD - padded, data[0])
    else BytesOf(WORD, data[0]) + Extracted(data[1..], padded)
  }

  lemma {:induction false} ExtractedSize(data: seq<nat>, padded: nat)
    requires padded <= WORD && data != []
    ensures |Extracted(data, padded)| == |data| * WORD - padded
  {
    if |data| > 1 {
      ExtractedSize(data[1..], padded);
    }
  }

  // ----- The extraction loops -----

  /** The indices from `at + count - 1` down to `at`. */
  function Downward(at: nat, count: nat): (r: seq<nat>)
    ensures |r| == count && forall i :: 0 <= i < count ==> r[i] == at + count - 1 - i
  {
    seq(count, i requires 0 <= i < count => at + count - 1 - i)
  }

  /** The log holds each index below `n` once, and no other. */
  predicate EachOnce(log: seq<nat>, n: nat)
  {
    && |log| == n
    && (forall i, j :: 0 <= i < j < |log| ==> log[i] != log[j])
    && (forall i :: 0 <= i < |log| ==> log[i] < n)
    && (forall k :: 0 <= k < n ==> k in log)
  }

  lemma EachOnceMore(log: seq<nat>, at: nat, count: nat)
    requires EachOnce(log, at)
    ensures EachOnce(log + Downward(at, count), at + count)
  {
    var more := Downward(at, count);
    var all := log + more;
    forall k | 0 <= k < at + count ensures k in all {
      if k >= at { assert more[at + count - 1 - k] == k; }
    }
  }

  /** One assignment to the result, with its index added to the log. */
  method Store(arr: array<byte>, at: nat, b: byte, ghost log: seq<nat>) returns (ghost longer: seq<nat>)
    requires at < arr.Length
    modifies arr
    ensures arr[..] == old(arr[..])[at := b] && longer == log + [at]
  {
    arr[at] := b;
    longer := log + [at];
  }

  lemma StoredByte(before: seq<byte>, done: seq<byte>, after: seq<byte>, gap: seq<byte>, b: byte)
    requires gap != []
    ensures (before + gap + done + after)[|before| + |gap| - 1 := b]
            == before + gap[..|gap| - 1] + ([b] + done) + after
  {
  }

  lemma NextByte(left: nat, temp: nat, done: seq<byte>)
    requires left > 0
    ensures BytesOf(left - 1, temp / 256) + ([temp % 256] + done) == BytesOf(left, temp) + done
  {
    assert BytesOf(left - 1, temp / 256) + ([temp % 256] + done)
           == BytesOf(left - 1, temp / 256) + [temp % 256] + done;
  }

  /** The inner loop, from the low-order byte up: it writes each index of the word once. */
  method ExtractWord(arr: array<byte>, at: nat, count: nat, word: nat, ghost log: seq<nat>)
    returns (ghost longer: seq<nat>)
    requires at + count <= arr.Length
    modifies arr
    ensures arr[..] == old(arr[..at]) + BytesOf(count, word) + old(arr[at + count..])
    ensures longer == log + Downward(at, count)
  {
    longer := log;
    var temp, left := word, count;
    ghost var before, gap, done: seq<byte>, after := arr[..at], arr[at..at + count], [], arr[at + count..];
    assert arr[..] == before + gap + done + after;
    assert Downward(at, count)[..0] == [];
    while left > 0
      invariant 0 <= left <= count && temp >= 0 && |gap| == left && |done| == count - left
      invariant arr[..] == before + gap + done + after
      invariant BytesOf(left, temp) + done == BytesOf(count, word)
      invariant longer == log + Downward(at, count)[..count - left]
    {
      StoredByte(before, done, after, gap, temp % 256);
      NextByte(left, temp, done);
      longer := Store(arr, at + left - 1, temp % 256, longer);
      gap, done := gap[..left - 1], [temp % 256] + done;
      temp := temp / 256;
      left := left - 1;
    }
    assert done == BytesOf(count, word);
    assert Downward(at, count)[..count] == Downward(at, count);
  }

  /** The next word's share of the result. */
  lemma NextShare(front: seq<byte>, rest: seq<nat>, padded: nat, left: nat, whole: seq<byte>)
    requires padded <= WORD && rest != [] && left == if |rest| == 1 then WORD - padded else WORD
    requires front + Extracted(rest, padded) == whole
    ensures |front| + left <= |whole|
    ensures (front + BytesOf(left, rest[0])) + Extracted(rest[1..], padded) == whole
  {
    var share := BytesOf(left, rest[0]);
    assert Extracted(rest, padded) == share + Extracted(rest[1..], padded);
  }

  lemma WholeSize(data: seq<nat>, size: nat)
    requires |data| == NumWords(size)
    ensures |Extracted(data, PaddedBytes(size))| == size
  {
    if data != [] { ExtractedSize(data, PaddedBytes(size)); }
  }

  /** The outer loop: every index of the result is written exactly once, whatever it held before. */
  method ExtractAsByteArray(data: seq<nat>, size: nat) returns (arr: array<byte>, ghost log: seq<nat>)
    requires |data| == NumWords(size)
    ensures fresh(arr) && arr[..] == Extracted(data, PaddedBytes(size))
    ensures arr.Length == size && EachOnce(log, size)
  {
    var padded := PaddedBytes(size);
    ghost var whole := Extracted(data, padded);
    WholeSize(data, size);
    arr := new byte[size];
    log := [];
    var at := 0;
    ghost var front: seq<byte> := [];
    for i := 0 to |data|
      invariant arr.Length == size && at == WORD * i
      invariant |front| <= size && arr[..|front|] == front && EachOnce(log, |front|)
      invariant i < |data| ==> |front| == at
      invariant front + Extracted(data[i..], padded) == whole
    {
      var left := WORD;
      if i == |data| - 1 {
        left := left - padded;
      }
      NextShare(front, data[i..], padded, left, whole);
      EachOnceMore(log, at, left);
      log := ExtractWord(arr, at, left, data[i], log);
      front := front + BytesOf(left, data[i]);
      assert data[i..][1..] == data[i + 1..];
      at := at + WORD;
    }
    assert front == whole;
  }

  // ----- Bytes and numbers -----

  lemma BytesAreWords(bs: seq<byte>)
    ensures Words(bs, 1)
  {
    assert Pow(256, 1) == 256;
  }

  lemma {:induction false} BytesValue(n: nat, x: nat)
    requires x < Pow(256, n)
    ensures BigEndian(BytesOf(n, x), 1) == x
  {
    if n > 0 {
      BytesValue(n - 1, x / 256);
      BigEndianAppend(BytesOf(n - 1, x / 256), x % 256, 1);
      assert Up(x / 256, 1) == 256 * Up(x / 256, 0);
    }
  }

  /** Words compare as their bytes do. */
  lemma WordOrder(x: nat, y: nat, n: nat)
    requires x < LIMIT && y < LIMIT && n == WORD
    ensures LexLess(BytesOf(n, x), BytesOf(n, y)) <==> x < y
    ensures BytesOf(n, x) == BytesOf(n, y) <==> x == y
  {
    LimitPower(n);
    BytesValue(n, x);
    BytesValue(n, y);
    BytesAreWords(BytesOf(n, x));
    BytesAreWords(BytesOf(n, y));
    BigEndianOrder(BytesOf(n, x), BytesOf(n, y), 1);
  }

  predicate ValidWords(data: seq<nat>)
  {
    forall i :: 0 <= i < |data| ==> data[i] < LIMIT
  }

  predicate ValidKey(size: nat, data: seq<nat>)
  {
    |data| == NumWords(size) && ValidWords(data)
  }

  /** Without padding, keys compare as their bytes do. */
  lemma {:induction false} BytesOrder(a: seq<nat>, b: seq<nat>)
    requires |a| == |b| && ValidWords(a) && ValidWords(b)
    ensures LexLess(Extracted(a, 0), Extracted(b, 0)) <==> LexLess(a, b)
  {
    if a != [] {
      BytesOrder(a[1..], b[1..]);
      ConsExtracted(a);
      ConsExtracted(b);
      WordOrder(a[0], b[0], WORD);
      LexConcat(BytesOf(WORD, a[0]), Extracted(a[1..], 0), BytesOf(WORD, b[0]), Extracted(b[1..], 0));
    }
  }

  lemma ConsExtracted(a: seq<nat>)
    requires a != []
    ensures Extracted(a, 0) == BytesOf(WORD, a[0]) + Extracted(a[1..], 0)
  {
    if |a| == 1 {
      assert BytesOf(WORD, a[0]) + [] == BytesOf(WORD, a[0]);
    }
  }

  ghost predicate OrderAgrees(size: nat)
  {
    forall a, b :: ValidKey(size, a) && ValidKey(size, b) ==>
      (LexLess(Extracted(a, PaddedBytes(size)), Extracted(b, PaddedBytes(size))) <==> LexLess(a, b))
  }

  /** The key with `x` in its last word and zero elsewhere. */
  function LastWordKey(size: nat, x: nat): (r: seq<nat>)
    requires size > 0
    ensures |r| == NumWords(size)
  {
    Zeros(NumWords(size) - 1) + [x]
  }

  lemma LastWordKeyValid(size: nat, x: nat)
    requires size > 0 && x < LIMIT
    ensures ValidKey(size, LastWordKey(size, x))
  {
  }

  lemma LastWordKeyOrder(size: nat, x: nat, y: nat)
    requires size > 0 && x < y
    ensures LexLess(LastWordKey(size, x), LastWordKey(size, y))
  {
    var zeros := Zeros(NumWords(size) - 1);
    LexAppend(zeros, x, zeros, y);
  }

  lemma LastWordKeyBytes(size: nat, x: nat, k: nat)
    requires size > 0 && k == WORD - PaddedBytes(size) && x == Pow(256, k)
    ensures Extracted(LastWordKey(size, 0), PaddedBytes(size)) == Extracted(LastWordKey(size, x), PaddedBytes(size))
  {
    PowerBytes(k);
    SameBytes(Zeros(NumWords(size) - 1), 0, x, PaddedBytes(size));
  }

  lemma BelowLimit(k: nat, n: nat)
    requires k < n == WORD
    ensures 0 < Pow(256, k) < LIMIT
  {
    PowMonotone(256, k + 1, n);
    LimitPower(n);
  }

  /** Two keys in order whose bytes are the same, for a size that is not a multiple of 16. */
  lemma HiddenDifference(size: nat) returns (a: seq<nat>, b: seq<nat>)
    requires size % WORD != 0
    ensures ValidKey(size, a) && ValidKey(size, b) && LexLess(a, b)
    ensures Extracted(a, PaddedBytes(size)) == Extracted(b, PaddedBytes(size))
  {
    var k := WORD - PaddedBytes(size);
    var x := Pow(256, k);
    BelowLimit(k, WORD);
    LastWordKeyValid(size, 0);
    LastWordKeyValid(size, x);
    LastWordKeyOrder(size, 0, x);
    LastWordKeyBytes(size, x, k);
    a, b := LastWordKey(size, 0), LastWordKey(size, x);
  }

  /** Comparing keys of a size is comparing their bytes, for all keys, exactly when the size is a
      multiple of 16. */
  lemma OrderAgreesExactly(size: nat)
    ensures OrderAgrees(size) <==> size % WORD == 0
  {
    if size % WORD == 0 {
      forall a, b | ValidKey(size, a) && ValidKey(size, b)
        ensures LexLess(Extracted(a, PaddedBytes(size)), Extracted(b, PaddedBytes(size))) <==> LexLess(a, b)
      {
        BytesOrder(a, b);
      }
    } else {
      var a, b := HiddenDifference(size);
      LexOrder(Extracted(a, PaddedBytes(size)), []);
    }
  }

  /** Keys that differ only in bytes that are left out give the same bytes. */
  lemma {:induction false} SameBytes(front: seq<nat>, x: nat, y: nat, padded: nat)
    requires padded <= WORD && BytesOf(WORD - padded, x) == BytesOf(WORD - padded, y)
    ensures Extracted(front + [x], padded) == Extracted(front + [y], padded)
  {
    if front == [] {
      assert front + [x] == [x] && front + [y] == [y];
    } else {
      SameBytes(front[1..], x, y, padded);
      assert (front + [x])[1..] == front[1..] + [x];
      assert (front + [y])[1..] == front[1..] + [y];
    }
  }

  lemma {:induction false} PowerBytes(n: nat)
    ensures BytesOf(n, Pow(256, n)) == BytesOf(n, 0)
  {
    if n > 0 {
      PowerBytes(n - 1);
      assert Pow(256, n) / 256 == Pow(256, n - 1) && Pow(256, n) % 256 == 0;
    }
  }

  // ----- Round trip of single bytes -----

  /** A word made of up to 16 single bytes holds them from the top, followed by zeros. */
  lemma WordOfBytes(chunk: seq<byte>, n: nat)
    requires |chunk| <= n == WORD
    ensures BytesOf(n, KeyWord(1, chunk)) == chunk + Zeros(n - |chunk|)
  {
    var all := chunk + Zeros(n - |chunk|);
    PlainLayoutExactly(1, chunk);
    BytesAreWords(chunk);
    KeyWordFits(1, chunk);
    SameValue(n, KeyWord(1, chunk), all);
  }

  /** Bytes that stand for a number are its bytes. */
  lemma SameValue(n: nat, x: nat, bs: seq<byte>)
    requires |bs| == n == WORD && x < LIMIT && BigEndian(bs, 1) == x
    ensures BytesOf(n, x) == bs
  {
    LimitPower(n);
    BytesValue(n, x);
    BytesAreWords(BytesOf(n, x));
    BytesAreWords(bs);
    BigEndianOrder(BytesOf(n, x), bs, 1);
  }

  lemma FirstWord(bs: seq<byte>, first: seq<byte>, rest: seq<byte>, count: nat)
    requires count > 0 && first == First(WORD, bs) && rest == Rest(WORD, bs)
    ensures Extracted(KeyData(1, bs, count), 0) ==
            (first + Zeros(WORD - |first|)) + Extracted(KeyData(1, rest, count - 1), 0)
  {
    var data := KeyData(1, bs, count);
    ConsExtracted(data);
    WordOfBytes(first, WORD);
    assert data[1..] == KeyData(1, rest, count - 1);
  }

  /** A key made of single bytes gives, without padding, those bytes followed by zeros. */
  lemma {:induction false} UnpaddedRoundTrip(bs: seq<byte>, count: nat)
    requires |bs| <= WORD * count
    ensures Extracted(KeyData(1, bs, count), 0) == bs + Zeros(WORD * count - |bs|)
    decreases count
  {
    if count > 0 {
      var first: seq<byte>, rest: seq<byte> := First(WORD, bs), Rest(WORD, bs);
      FirstAndRest(WORD, bs);
      FirstWord(bs, first, rest, count);
      UnpaddedRoundTrip(rest, count - 1);
      JoinZeros(bs, first, rest, WORD * (count - 1));
    }
  }

  lemma JoinZeros(bs: seq<byte>, first: seq<byte>, rest: seq<byte>, more: nat)
    requires bs == first + rest && |first| <= WORD && |rest| <= more && (rest != [] ==> |first| == WORD)
    ensures (first + Zeros(WORD - |first|)) + (rest + Zeros(more - |rest|)) == bs + Zeros(WORD + more - |bs|)
  {
  }

  lemma {:induction false} LowBytes(n: nat, m: nat, x: nat)
    requires m <= n
    ensures BytesOf(m, x) == BytesOf(n, x)[n - m..]
  {
    if m > 0 {
      LowBytes(n - 1, m - 1, x / 256);
    }
  }

  lemma CutLater(b: seq<byte>, tail: seq<byte>, last: nat, padded: nat)
    requires |b| <= last && last + padded <= |b| + |tail|
    ensures (b + tail)[..last] + (b + tail)[last + padded..]
            == b + (tail[..last - |b|] + tail[last - |b| + padded..])
  {
  }

  /** Padding leaves out the first bytes of the last word. */
  lemma {:induction false} PaddedExtracted(data: seq<nat>, padded: nat, full: seq<byte>, last: nat)
    requires data != [] && padded <= WORD && full == Extracted(data, 0) && last == WORD * (|data| - 1)
    ensures |full| == last + WORD && Extracted(data, padded) == full[..last] + full[last + padded..]
  {
    ExtractedSize(data, 0);
    if |data| == 1 {
      LowBytes(WORD, WORD - padded, data[0]);
    } else {
      var b, tail := BytesOf(WORD, data[0]), Extracted(data[1..], 0);
      PaddedExtracted(data[1..], padded, tail, last - WORD);
      CutLater(b, tail, last, padded);
    }
  }

  /** A tail moved down by `padded` bytes stays the same only when it is zero. */
  lemma ShiftedTail(t: seq<byte>, padded: nat)
    requires |t| == WORD && 0 < padded < WORD
    requires forall i :: WORD - padded <= i < WORD ==> t[i] == 0
    ensures t[padded..] == t[..WORD - padded] <==> forall i :: 0 <= i < WORD ==> t[i] == 0
  {
    if t[padded..] == t[..WORD - padded] {
      forall i | 0 <= i < WORD ensures t[i] == 0 {
        ShiftedEntry(t, padded, i);
      }
    }
  }

  lemma {:induction false} ShiftedEntry(t: seq<byte>, padded: nat, i: nat)
    requires |t| == WORD && 0 < padded < WORD && i < WORD
    requires forall i :: WORD - padded <= i < WORD ==> t[i] == 0
    requires t[padded..] == t[..WORD - padded]
    ensures t[i] == 0
    decreases WORD - i
  {
    if i < WORD - padded {
      assert t[padded..][i] == t[i + padded];
      ShiftedEntry(t, padded, i + padded);
    }
  }

  lemma PaddingFacts(size: nat)
    requires size > 0
    ensures NumWords(size) > 0 && size == WORD * (NumWords(size) - 1) + WORD - PaddedBytes(size)
    ensures PaddedBytes(size) == 0 <==> size % WORD == 0
  {
  }

  lemma ExtractedBytes(bs: seq<byte>, words: nat, padded: nat, full: seq<byte>, last: nat)
    requires words > 0 && padded <= WORD && |bs| <= WORD * words && last == WORD * (words - 1)
    requires full == bs + Zeros(WORD * words - |bs|)
    ensures Extracted(KeyData(1, bs, words), padded) == full[..last] + full[last + padded..]
  {
    UnpaddedRoundTrip(bs, words);
    PaddedExtracted(KeyData(1, bs, words), padded, full, last);
  }

  lemma RoundTripFor(bs: seq<byte>, size: nat, words: nat, padded: nat, last: nat)
    requires words > 0 && padded < WORD && last == WORD * (words - 1) && size == last + WORD - padded && |bs| <= size
    ensures Extracted(KeyData(1, bs, words), padded) == bs + Zeros(size - |bs|)
            <==> padded == 0 || forall i :: last <= i < |bs| ==> bs[i] == 0
  {
    var full := bs + Zeros(WORD * words - |bs|);
    ExtractedBytes(bs, words, padded, full, last);
    SplitComparison(bs, full, last, padded, size);
  }

  /** Extracting a key made of at most `size` single bytes gives those bytes followed by zeros exactly
      when the size is a multiple of 16 or no non-zero byte reaches the last word. */
  lemma BytesRoundTripExactly(bs: seq<byte>, size: nat)
    requires 0 < size && |bs| <= size
    ensures Extracted(KeyData(1, bs, NumWords(size)), PaddedBytes(size)) == bs + Zeros(size - |bs|)
            <==> size % WORD == 0 || forall i :: WORD * (NumWords(size) - 1) <= i < |bs| ==> bs[i] == 0
  {
    PaddingFacts(size);
    RoundTripFor(bs, size, NumWords(size), PaddedBytes(size), WORD * (NumWords(size) - 1));
  }

  lemma SplitComparison(bs: seq<byte>, full: seq<byte>, last: nat, padded: nat, size: nat)
    requires padded < WORD && size == last + WORD - padded && |bs| <= size
    requires full == bs + Zeros(last + WORD - |bs|)
    ensures full[..last] + full[last + padded..] == bs + Zeros(size - |bs|)
            <==> padded == 0 || forall i :: last <= i < |bs| ==> bs[i] == 0
  {
    var t := full[last..];
    assert bs + Zeros(size - |bs|) == full[..size] == full[..last] + t[..WORD - padded];
    assert full[last + padded..] == t[padded..];
    SameFront(full[..last], t[padded..], t[..WORD - padded]);
    if padded > 0 {
      ShiftedTail(t, padded);
      ZeroTail(bs, full, last);
    }
  }

  lemma SameFront(a: seq<byte>, b: seq<byte>, c: seq<byte>)
    ensures a + b == a + c <==> b == c
  {
    if a + b == a + c {
      assert b == (a + b)[|a|..] == c;
    }
  }

  lemma ZeroTail(bs: seq<byte>, full: seq<byte>, last: nat)
    requires last + WORD >= |bs| && full == bs + Zeros(last + WORD - |bs|)
    ensures (forall i :: 0 <= i < WORD ==> full[last..][i] == 0) <==> forall i :: last <= i < |bs| ==> bs[i] == 0
  {
    var t := full[last..];
    if forall i :: 0 <= i < WORD ==> t[i] == 0 {
      forall i | last <= i < |bs| ensures bs[i] == 0 {
        assert t[i - last] == bs[i];
      }
    }
  }
}
