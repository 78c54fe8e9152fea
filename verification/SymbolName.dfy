/** The 64-bit symbol of a token: one byte of precision, then the letters of the name. */
module SymbolName {

  /** `x` shifted right by `i` bytes. */
  function Rest(x: nat, i: nat): nat
    decreases i
  {
    if i == 0 then x else Rest(x, i - 1) / 256
  }

  function ByteAt(x: nat, i: nat): nat
  {
    Rest(x, i) % 256
  }

  predicate IsLetter(b: nat)
  {
    'A' as int <= b <= 'Z' as int
  }

  /** Bytes 1 to `n` are letters and the rest, up to byte 7, are zero. */
  predicate NameOf(sym: nat, n: nat)
  {
    Letters(sym, n) && Zeros(sym, n)
  }

  predicate Letters(sym: nat, n: nat)
  {
    forall i :: 1 <= i <= n ==> IsLetter(ByteAt(sym, i))
  }

  predicate Zeros(sym: nat, n: nat)
  {
    forall i :: n < i <= 7 ==> ByteAt(sym, i) == 0
  }

  /** One to seven letters, followed by nothing. */
  predicate Valid(sym: nat)
  {
    exists n :: 1 <= n <= 7 && NameOf(sym, n)
  }

  const TWO_64: nat := 0x1_0000_0000_0000_0000

  /** Nothing is left above byte 7 of a 64-bit word. */
  lemma NoHighBytes(sym: nat, i: nat)
    requires sym < TWO_64 && i >= 8
    ensures Rest(sym, i) == 0
  {
    if i == 8 {
      RestBound(sym);
    } else {
      NoHighBytes(sym, i - 1);
    }
  }

  lemma RestBound(sym: nat)
    requires sym < TWO_64
    ensures Rest(sym, 8) == 0
  {
    assert Rest(sym, 1) == Rest(sym, 0) / 256;
    assert Rest(sym, 2) == Rest(sym, 1) / 256 < 0x1_0000_0000_0000;
    assert Rest(sym, 3) == Rest(sym, 2) / 256;
    assert Rest(sym, 4) == Rest(sym, 3) / 256 < 0x1_0000_0000;
    assert Rest(sym, 5) == Rest(sym, 4) / 256;
    assert Rest(sym, 6) == Rest(sym, 5) / 256 < 0x1_0000;
    assert Rest(sym, 7) == Rest(sym, 6) / 256;
  }

  /** A byte after a zero byte refutes every length. */
  lemma GapInName(sym: nat, i: nat, j: nat)
    requires 1 <= i < j <= 7 && ByteAt(sym, i) == 0 && ByteAt(sym, j) != 0
    ensures !Valid(sym)
  {
    forall n | 1 <= n <= 7 ensures !NameOf(sym, n) {
      assert i <= n ==> !IsLetter(ByteAt(sym, i));
    }
  }

  /** So does a first byte that is not a letter, or a later one that is neither a letter nor zero. */
  lemma NotALetter(sym: nat, i: nat)
    requires 1 <= i <= 7 && !IsLetter(ByteAt(sym, i)) && (i == 1 || ByteAt(sym, i) != 0)
    ensures !Valid(sym)
  {
    forall n | 1 <= n <= 7 ensures !NameOf(sym, n) {
      assert i <= n ==> !IsLetter(ByteAt(sym, i));
    }
  }

  /** The inner loop: after the letter at byte `start + 1`, everything must be zero. */
  method OnlyZeros(ghost sym: nat, shifted: nat, start: nat) returns (zeros: bool, i: nat)
    requires sym < TWO_64 && start <= 6
    requires shifted == Rest(sym, start + 2) && shifted % 256 == 0
    ensures zeros ==> i == 7 && Zeros(sym, start + 1)
    ensures !zeros ==> !Valid(sym)
  {
    i := start;
    var rest := shifted;
    var more := true;
    while more
      invariant start <= i <= 7 && more == (i < 7)
      invariant rest == Rest(sym, i + 2)
      invariant forall k :: start + 1 < k <= i + 2 ==> ByteAt(sym, k) == 0
      decreases 7 - i
    {
      rest := rest / 256;
      assert rest == Rest(sym, i + 3) && ByteAt(sym, i + 3) == rest % 256;
      if rest % 256 != 0 {
        if i + 3 >= 8 { NoHighBytes(sym, i + 3); }
        GapInName(sym, start + 2, i + 3);
        return false, i;
      }
      i := i + 1;
      more := i < 7;
    }
    zeros := true;
  }

  /** The two nested loops of is_valid_symbol, which share one counter. */
  method IsValidSymbol(sym: nat) returns (r: bool)
    requires sym < TWO_64
    ensures r <==> Valid(sym)
  {
    var rest := sym / 256;
    var i: nat := 0;
    assert Rest(sym, 1) == Rest(sym, 0) / 256;
    while i < 7
      invariant i == 8 ==> Valid(sym)
      invariant i <= 8
      invariant i < 8 ==> rest == Rest(sym, i + 1)
      invariant i < 8 ==> Letters(sym, i)
      invariant 0 < i < 8 ==> rest % 256 != 0
      decreases 8 - i
    {
      var c := rest % 256;
      assert c == ByteAt(sym, i + 1);
      if !('A' as int <= c <= 'Z' as int) {
        NotALetter(sym, i + 1);
        return false;
      }
      assert Letters(sym, i + 1);
      rest := rest / 256;
      if rest % 256 == 0 {
        ghost var n := i + 1;
        var zeros;
        zeros, i := OnlyZeros(sym, rest, i);
        if !zeros {
          return false;
        }
        assert NameOf(sym, n);
      }
      i := i + 1;
    }
    if i == 7 {
      assert NameOf(sym, 7);
    }
    r := true;
  }
}
