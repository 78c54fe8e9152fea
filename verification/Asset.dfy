/** Arithmetic on token amounts. The operators work on 64-bit integers (128-bit for products) and
    check the range after computing. Over any run that does not abort, the amount is the exact
    integer result, and a run aborts exactly when that result leaves the allowed range. */
module Asset {
  import opened Arith
  import SymbolName

  const MAX_AMOUNT: int := 0x3FFF_FFFF_FFFF_FFFF
  const TWO_63: int := 0x8000_0000_0000_0000
  const TWO_127: int := 0x8000_0000_0000_0000_0000_0000_0000_0000

  predicate InRange(x: int)
  {
    -MAX_AMOUNT <= x <= MAX_AMOUNT
  }

  predicate Fits(x: int, half: int)
  {
    -half <= x < half
  }

  /** The value that a signed word with `2 * half` values holds. */
  function Signed(x: int, half: int): (r: int)
    requires half > 0
    ensures Fits(r, half)
  {
    (x + half) % (2 * half) - half
  }

  lemma SignedExact(x: int, half: int)
    requires half > 0 && Fits(x, half)
    ensures Signed(x, half) == x
  {
    DivModUnique(0, 2 * half, x + half);
  }

  // ----- Division that truncates toward zero -----

  function TruncDiv(a: int, b: int): int
    requires b != 0
  {
    var q := Abs(a) / Abs(b);
    if (a < 0) == (b < 0) then q else -q
  }

  function TruncMod(a: int, b: int): int
    requires b != 0
  {
    var r := Abs(a) % Abs(b);
    if a < 0 then -r else r
  }

  function Abs(x: int): nat
  {
    if x < 0 then -x else x
  }

  lemma QuotientBound(x: nat, y: nat)
    requires y > 0
    ensures 0 <= x / y <= x
  {
    if x / y > x {
      MulMonotone(x + 1, x / y, y);
      MulMonotone(1, y, x + 1);
    }
  }

  lemma SignedProducts(q: int, b: int)
    ensures (-q) * (-b) == q * b && (-q) * b == -(q * b) && q * (-b) == -(q * b)
  {
  }

  /** Quotient and remainder put the dividend together again, the remainder is smaller than the
      divisor and has the sign of the dividend, and the quotient is no larger than the dividend. */
  lemma TruncDivMeaning(a: int, b: int)
    requires b != 0
    ensures TruncDiv(a, b) * b + TruncMod(a, b) == a
    ensures Abs(TruncMod(a, b)) < Abs(b)
    ensures a >= 0 ==> TruncMod(a, b) >= 0
    ensures a <= 0 ==> TruncMod(a, b) <= 0
    ensures Abs(TruncDiv(a, b)) <= Abs(a)
  {
    var q, r := Abs(a) / Abs(b), Abs(a) % Abs(b);
    assert Abs(a) == q * Abs(b) + r;
    SignedProducts(q, b);
    QuotientBound(Abs(a), Abs(b));
  }

  // ----- The operations on values -----

  datatype Value = Value(amount: int, symbol: nat)

  datatype Op =
    | Plus(rhs: Value)
    | Minus(rhs: Value)
    | Times(factor: int)
    | Over(divisor: int)
    | Negate
    | SetTo(amount: int)

  datatype Result = Now(value: Value) | Abort

  /** What can be written: numbers of 64 bits, and assets that were constructed. */
  predicate Legal(op: Op)
  {
    match op
    case Plus(b) => InRange(b.amount)
    case Minus(b) => InRange(b.amount)
    case Times(k) => Fits(k, TWO_63)
    case Over(k) => Fits(k, TWO_63)
    case Negate => true
    case SetTo(a) => Fits(a, TWO_63)
  }

  function Checked(x: int, symbol: nat): Result
  {
    if x < -MAX_AMOUNT then Abort else if x > MAX_AMOUNT then Abort else Now(Value(x, symbol))
  }

  /** One operation as the machine does it: compute in a word, then check. */
  function Machine(v: Value, op: Op): Result
  {
    match op
    case Plus(b) =>
      if b.symbol != v.symbol then Abort else Checked(Signed(v.amount + b.amount, TWO_63), v.symbol)
    case Minus(b) =>
      if b.symbol != v.symbol then Abort else Checked(Signed(v.amount - b.amount, TWO_63), v.symbol)
    case Times(k) =>
      var wide := Signed(v.amount * k, TWO_127);
      if wide > MAX_AMOUNT then Abort
      else if wide < -MAX_AMOUNT then Abort
      else Now(Value(Signed(wide, TWO_63), v.symbol))
    case Over(k) =>
      if k == 0 then Abort
      else if v.amount == -TWO_63 && k == -1 then Abort
      else Now(Value(Signed(TruncDiv(v.amount, k), TWO_63), v.symbol))
    case Negate => Now(Value(Signed(-v.amount, TWO_63), v.symbol))
    case SetTo(a) => Checked(a, v.symbol)
  }

  function MachineRun(v: Value, ops: seq<Op>): Result
    decreases |ops|
  {
    if ops == [] then Now(v)
    else
      match MachineRun(v, ops[..|ops| - 1])
      case Now(w) => Machine(w, ops[|ops| - 1])
      case Abort => Abort
  }

  // ----- The same run in unbounded integers -----

  /** The exact result; dividing by zero has none, and is refused by `Compatible`. */
  function Exact(a: int, op: Op): int
  {
    match op
    case Plus(b) => a + b.amount
    case Minus(b) => a - b.amount
    case Times(k) => a * k
    case Over(k) => if k == 0 then 0 else TruncDiv(a, k)
    case Negate => -a
    case SetTo(b) => b
  }

  function ExactRun(a: int, ops: seq<Op>): int
    decreases |ops|
  {
    if ops == [] then a else Exact(ExactRun(a, ops[..|ops| - 1]), ops[|ops| - 1])
  }

  predicate Compatible(symbol: nat, op: Op)
  {
    match op
    case Plus(b) => b.symbol == symbol
    case Minus(b) => b.symbol == symbol
    case Over(k) => k != 0
    case _ => true
  }

  /** The operand of operation `k` is not refused and the exact result after it is in range. */
  ghost predicate SafeAt(v: Value, ops: seq<Op>, k: nat)
    requires k < |ops|
  {
    Compatible(v.symbol, ops[k]) && InRange(ExactRun(v.amount, ops[..k + 1]))
  }

  ghost predicate StaysInRange(v: Value, ops: seq<Op>)
  {
    forall k :: 0 <= k < |ops| ==> SafeAt(v, ops, k)
  }

  lemma AbsProduct(x: int, y: int)
    ensures Abs(x * y) == Abs(x) * Abs(y)
  {
    SignedProducts(x, y);
    MulPositive(Abs(x), Abs(y));
  }

  /** Before any check, a sum or difference fits 64 bits and a product fits 128 bits. */
  lemma NoOverflow(a: int, op: Op)
    requires InRange(a) && Legal(op)
    ensures Fits(Exact(a, op), if op.Times? then TWO_127 else TWO_63)
  {
    match op
    case Times(k) =>
      AbsProduct(a, k);
      MulMonotone(Abs(a), 0x4000_0000_0000_0000, Abs(k));
      MulMonotone(Abs(k), TWO_63, 0x4000_0000_0000_0000);
    case Over(k) =>
      if k != 0 { TruncDivMeaning(a, k); }
    case _ =>
  }

  /** One operation from a value in range: the machine gives the exact result, and aborts exactly
      when an operand is refused or the exact result is out of range. */
  lemma MachineIsExact(v: Value, op: Op)
    requires InRange(v.amount) && Legal(op)
    ensures Machine(v, op) ==
            if Compatible(v.symbol, op) && InRange(Exact(v.amount, op))
            then Now(Value(Exact(v.amount, op), v.symbol))
            else Abort
  {
    var x := Exact(v.amount, op);
    NoOverflow(v.amount, op);
    if op.Times? {
      SignedExact(x, TWO_127);
      if InRange(x) { SignedExact(x, TWO_63); }
    } else {
      SignedExact(x, TWO_63);
      if op.Over? && op.divisor != 0 { TruncDivMeaning(v.amount, op.divisor); }
    }
  }

  lemma SafeAtPrefix(v: Value, ops: seq<Op>, n: nat, k: nat)
    requires k < n <= |ops|
    ensures SafeAt(v, ops[..n], k) <==> SafeAt(v, ops, k)
  {
    assert ops[..n][..k + 1] == ops[..k + 1];
  }

  lemma StaysInRangeStep(v: Value, ops: seq<Op>)
    requires ops != []
    ensures var n := |ops| - 1;
            StaysInRange(v, ops) <==>
            StaysInRange(v, ops[..n]) && Compatible(v.symbol, ops[n]) && InRange(ExactRun(v.amount, ops))
  {
    var n := |ops| - 1;
    assert ops[..n + 1] == ops;
    assert SafeAt(v, ops, n) <==> Compatible(v.symbol, ops[n]) && InRange(ExactRun(v.amount, ops));
    forall k | 0 <= k < n ensures SafeAt(v, ops[..n], k) <==> SafeAt(v, ops, k) {
      SafeAtPrefix(v, ops, n, k);
    }
  }

  /** Every run from a value in range. */
  lemma {:induction false} EveryRun(v: Value, ops: seq<Op>)
    requires InRange(v.amount)
    requires forall k :: 0 <= k < |ops| ==> Legal(ops[k])
    ensures MachineRun(v, ops).Now? <==> StaysInRange(v, ops)
    ensures MachineRun(v, ops).Now? ==> MachineRun(v, ops).value == Value(ExactRun(v.amount, ops), v.symbol)
    ensures MachineRun(v, ops).Now? ==> InRange(ExactRun(v.amount, ops))
    decreases |ops|
  {
    if ops != [] {
      var n := |ops| - 1;
      EveryRun(v, ops[..n]);
      StaysInRangeStep(v, ops);
      if MachineRun(v, ops[..n]).Now? {
        MachineIsExact(MachineRun(v, ops[..n]).value, ops[n]);
      }
    }
  }

  // ----- The object -----

  /** `ok` is false where the contract aborts the transaction. */
  class AssetObject {
    var amount: int
    var symbol: nat

    ghost function Current(): Value
      reads this
    {
      Value(amount, symbol)
    }

    constructor (a: int, s: nat)
      ensures Current() == Value(a, s)
    {
      amount, symbol := a, s;
    }

    /** The checks that the source's constructor ends with. */
    static method Make(a: int, s: nat) returns (r: AssetObject, ok: bool)
      requires Fits(a, TWO_63) && s < SymbolName.TWO_64
      ensures fresh(r) && r.Current() == Value(a, s)
      ensures ok <==> InRange(a) && SymbolName.Valid(s)
    {
      r := new AssetObject(a, s);
      ok := r.IsAmountWithinRange();
      if ok {
        ok := SymbolName.IsValidSymbol(s);
      }
    }

    method IsAmountWithinRange() returns (r: bool)
      ensures r <==> InRange(amount)
    {
      r := -MAX_AMOUNT <= amount && amount <= MAX_AMOUNT;
    }

    method SetAmount(a: int) returns (ok: bool)
      modifies this
      ensures amount == a && symbol == old(symbol)
      ensures if ok then Machine(old(Current()), SetTo(a)) == Now(Current())
              else Machine(old(Current()), SetTo(a)) == Abort
    {
      amount := a;
      ok := IsAmountWithinRange();
    }

    /** For an amount in range, the exact negative. */
    method Negated() returns (r: AssetObject)
      ensures fresh(r) && Machine(Current(), Negate) == Now(r.Current())
      ensures InRange(amount) ==> r.amount == -amount && r.symbol == symbol
    {
      if InRange(amount) { MachineIsExact(Current(), Negate); }
      r := new AssetObject(amount, symbol);
      r.amount := Signed(-r.amount, TWO_63);
    }

    /** For amounts in range, the exact difference, or an abort exactly when that is out of range. The
        argument may be the object itself. */
    method SubtractAssign(a: AssetObject) returns (ok: bool)
      modifies this
      ensures symbol == old(symbol)
      ensures if ok then Machine(old(Current()), Minus(old(a.Current()))) == Now(Current())
              else Machine(old(Current()), Minus(old(a.Current()))) == Abort
      ensures InRange(old(amount)) && InRange(old(a.amount)) ==>
                (ok <==> old(a.symbol) == symbol && InRange(old(amount) - old(a.amount))) && (ok ==> amount == old(amount) - old(a.amount))
    {
      if InRange(amount) && InRange(a.amount) { MachineIsExact(Current(), Minus(a.Current())); }
      if a.symbol != symbol {
        return false;
      }
      amount := Signed(amount - a.amount, TWO_63);
      if amount < -MAX_AMOUNT {
        return false;
      }
      ok := amount <= MAX_AMOUNT;
    }

    /** Likewise the exact sum. */
    method AddAssign(a: AssetObject) returns (ok: bool)
      modifies this
      ensures symbol == old(symbol)
      ensures if ok then Machine(old(Current()), Plus(old(a.Current()))) == Now(Current())
              else Machine(old(Current()), Plus(old(a.Current()))) == Abort
      ensures InRange(old(amount)) && InRange(old(a.amount)) ==>
                (ok <==> old(a.symbol) == symbol && InRange(old(amount) + old(a.amount))) && (ok ==> amount == old(amount) + old(a.amount))
    {
      if InRange(amount) && InRange(a.amount) { MachineIsExact(Current(), Plus(a.Current())); }
      if a.symbol != symbol {
        return false;
      }
      amount := Signed(amount + a.amount, TWO_63);
      if amount < -MAX_AMOUNT {
        return false;
      }
      ok := amount <= MAX_AMOUNT;
    }

    /** Likewise the exact product. */
    method MultiplyAssign(a: int) returns (ok: bool)
      modifies this
      ensures symbol == old(symbol)
      ensures if ok then Machine(old(Current()), Times(a)) == Now(Current())
              else Machine(old(Current()), Times(a)) == Abort
      ensures InRange(old(amount)) && Fits(a, TWO_63) ==>
                (ok <==> InRange(old(amount) * a)) && (ok ==> amount == old(amount) * a)
    {
      if InRange(amount) && Fits(a, TWO_63) { MachineIsExact(Current(), Times(a)); }
      var tmp := Signed(amount * a, TWO_127);
      if tmp > MAX_AMOUNT || tmp < -MAX_AMOUNT {
        return false;
      }
      amount := Signed(tmp, TWO_63);
      ok := true;
    }

    /** The exact quotient, truncated toward zero; it aborts exactly on a zero divisor. */
    method DivideAssign(a: int) returns (ok: bool)
      modifies this
      ensures symbol == old(symbol)
      ensures if ok then Machine(old(Current()), Over(a)) == Now(Current())
              else Machine(old(Current()), Over(a)) == Abort
      ensures InRange(old(amount)) && Fits(a, TWO_63) ==>
                (ok <==> a != 0) && (ok ==> amount == TruncDiv(old(amount), a) && InRange(amount))
    {
      if InRange(amount) && Fits(a, TWO_63) {
        MachineIsExact(Current(), Over(a));
        if a != 0 { TruncDivMeaning(amount, a); }
      }
      if a == 0 || (amount == -TWO_63 && a == -1) {
        return false;
      }
      amount := Signed(TruncDiv(amount, a), TWO_63);
      ok := true;
    }
  }

  // ----- Printing -----

  /** The `p` last decimal digits of `c`, each with the sign of `c`. */
  function DigitsOf(c: int, p: nat): (r: seq<int>)
    ensures |r| == p
    decreases p
  {
    if p == 0 then [] else DigitsOf(TruncDiv(c, 10), p - 1) + [TruncMod(c, 10)]
  }

  /** The number that a list of digits stands for. */
  function Weigh(s: seq<int>): int
  {
    if s == [] then 0 else 10 * Weigh(s[..|s| - 1]) + s[|s| - 1]
  }

  predicate AreDigits(s: seq<int>)
  {
    forall i :: 0 <= i < |s| ==> 0 <= s[i] <= 9
  }

  lemma {:induction false} DigitsWeigh(c: int, p: nat)
    requires Abs(c) < Pow(10, p)
    ensures Weigh(DigitsOf(c, p)) == c
    ensures c >= 0 ==> AreDigits(DigitsOf(c, p))
    decreases p
  {
    if p > 0 {
      var q := TruncDiv(c, 10);
      TruncDivMeaning(c, 10);
      DigitsWeigh(q, p - 1);
      assert DigitsOf(c, p)[..p - 1] == DigitsOf(q, p - 1);
    }
  }

  lemma {:induction false} WeighDigits(s: seq<int>)
    requires AreDigits(s)
    ensures Weigh(s) >= 0
  {
    if s != [] { WeighDigits(s[..|s| - 1]); }
  }

  /** The fraction that is printed is made of digits exactly when the amount is not negative or has
      no fraction; whole part and fraction then read back as the amount. */
  lemma FractionReadsBack(amount: int, p: nat)
    ensures Pow(10, p) > 0
    ensures var p10 := Pow(10, p);
            var fraction := DigitsOf(TruncMod(amount, p10), p);
            && TruncDiv(amount, p10) * p10 + Weigh(fraction) == amount
            && (AreDigits(fraction) <==> amount >= 0 || TruncMod(amount, p10) == 0)
  {
    var p10 := Pow(10, p);
    var change := TruncMod(amount, p10);
    TruncDivMeaning(amount, p10);
    DigitsWeigh(change, p);
    if AreDigits(DigitsOf(change, p)) { WeighDigits(DigitsOf(change, p)); }
  }

  lemma {:induction false} PowerFits(p: nat)
    requires p <= 18
    ensures Pow(10, p) < TWO_63
  {
    assert Pow(10, 6) == 1_000_000;
    PowAdd(10, 6, 6);
    PowAdd(10, 12, 6);
    PowMonotone(10, p, 18);
  }

  const ZERO: int := '0' as int

  /** The loops of print, for a precision whose power of ten fits 64 bits. `fraction` holds the
      characters as numbers. */
  method Print(amount: int, precision: nat) returns (whole: int, fraction: seq<int>)
    requires precision <= 18
    ensures whole == TruncDiv(amount, Pow(10, precision))
    ensures |fraction| == precision
    ensures forall i :: 0 <= i < precision ==>
              fraction[i] - ZERO == DigitsOf(TruncMod(amount, Pow(10, precision)), precision)[i]
  {
    var p := precision;
    var p10 := 1;
    while p > 0
      invariant 0 <= p <= precision && p10 == Pow(10, precision - p)
    {
      PowerFits(precision - p + 1);
      SignedExact(p10 * 10, TWO_63);
      p10 := Signed(p10 * 10, TWO_63);
      p := p - 1;
    }
    p := precision;
    var buffer := new int[p + 1];
    buffer[p] := 0;
    var change := TruncMod(amount, p10);
    ghost var digits := DigitsOf(change, p);
    var i := p - 1;
    while i >= 0
      invariant -1 <= i < p
      invariant DigitsOf(change, i + 1) == digits[..i + 1]
      invariant forall k :: i < k < p ==> buffer[k] - ZERO == digits[k]
    {
      assert digits[..i + 1][..i] == digits[..i];
      assert DigitsOf(change, i + 1)[i] == TruncMod(change, 10);
      assert DigitsOf(change, i + 1)[..i] == DigitsOf(TruncDiv(change, 10), i);
      buffer[i] := TruncMod(change, 10) + ZERO;
      change := TruncDiv(change, 10);
      i := i - 1;
    }
    whole := TruncDiv(amount, p10);
    fraction := buffer[..p];
  }
}
