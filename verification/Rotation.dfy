/** Which producer a slot belongs to, and the search for the first block of the next round. */
module Rotation {
  import opened Arith
  import opened Varint

  /** The position in a schedule of `n` producers, each producing `reps` blocks in a row. */
  function ProducerIndex(n: nat, reps: nat, slot: nat): (r: nat)
    requires n > 0 && reps > 0
    ensures r < n
  {
    MulPositive(n, reps);
    var s := slot % (n * reps);
    DivBound(s, reps, n);
    s / reps
  }

  /** How many of the `len` slots from `start` on belong to index `i`. */
  function SlotsOf(n: nat, reps: nat, start: nat, len: nat, i: nat): (r: nat)
    requires n > 0 && reps > 0
  {
    if len == 0 then 0 else
      SlotsOf(n, reps, start, len - 1, i) + if ProducerIndex(n, reps, start + len - 1) == i then 1 else 0
  }

  /** The slots of index `i` in the first round are `i * reps` up to `(i + 1) * reps`. */
  lemma IndexInFirstRound(n: nat, reps: nat, slot: nat, i: nat)
    requires n > 0 && reps > 0 && slot < n * reps
    ensures ProducerIndex(n, reps, slot) == i <==> i * reps <= slot < i * reps + reps
  {
    MulPositive(n, reps);
    assert slot == 0 * (n * reps) + slot;
    DivModUnique(0, n * reps, slot);
    if i * reps <= slot < i * reps + reps {
      DivModUnique(i, reps, slot - i * reps);
    }
    assert slot == slot / reps * reps + slot % reps;
  }

  lemma {:induction false} FirstRoundCount(n: nat, reps: nat, k: nat, i: nat)
    requires n > 0 && reps > 0 && k <= n * reps
    ensures SlotsOf(n, reps, 0, k, i) ==
              if k <= i * reps then 0 else if k <= i * reps + reps then k - i * reps else reps
  {
    if k > 0 {
      FirstRoundCount(n, reps, k - 1, i);
      IndexInFirstRound(n, reps, k - 1, i);
    }
  }

  lemma IndexPeriodic(n: nat, reps: nat, slot: nat)
    requires n > 0 && reps > 0
    ensures ProducerIndex(n, reps, slot + n * reps) == ProducerIndex(n, reps, slot)
  {
    MulPositive(n, reps);
    var round := n * reps;
    var q, r := slot / round, slot % round;
    assert slot + round == (q + 1) * round + r by {
      assert slot == q * round + r;
      Distribute(q, 1, round);
    }
    DivModUnique(q + 1, round, r);
  }

  lemma {:induction false} IndexInRound(n: nat, reps: nat, round: nat, i: nat, k: nat)
    requires n > 0 && reps > 0 && i < n && k < reps
    ensures ProducerIndex(n, reps, round * (n * reps) + (i * reps + k)) == i
  {
    var len, slot := n * reps, i * reps + k;
    MulPositive(n, reps);
    MulPositive(i, reps);
    if round == 0 {
      MulMonotone(i + 1, n, reps);
      Distribute(i, 1, reps);
      IndexInFirstRound(n, reps, slot, i);
    } else {
      IndexInRound(n, reps, round - 1, i, k);
      MulPositive(round - 1, len);
      Distribute(round - 1, 1, len);
      IndexPeriodic(n, reps, (round - 1) * len + slot);
    }
  }

  lemma {:induction false} CountFromFront(n: nat, reps: nat, start: nat, len: nat, i: nat)
    requires n > 0 && reps > 0 && len > 0
    ensures SlotsOf(n, reps, start, len, i) ==
              (if ProducerIndex(n, reps, start) == i then 1 else 0) + SlotsOf(n, reps, start + 1, len - 1, i)
    decreases len
  {
    if len > 1 {
      CountFromFront(n, reps, start, len - 1, i);
    } else {
      assert SlotsOf(n, reps, start, 0, i) == 0;
    }
  }

  /** Rotation is fair: every window of one round, wherever it starts, gives each producer exactly
      `reps` slots. */
  lemma {:induction false} RotationFair(n: nat, reps: nat, start: nat, i: nat)
    requires n > 0 && reps > 0 && i < n
    ensures SlotsOf(n, reps, start, n * reps, i) == reps
    decreases start
  {
    var round := n * reps;
    MulPositive(n, reps);
    if start == 0 {
      MulMonotone(i + 1, n, reps);
      Distribute(i, 1, reps);
      FirstRoundCount(n, reps, round, i);
    } else {
      RotationFair(n, reps, start - 1, i);
      CountFromFront(n, reps, start - 1, round + 1, i);
      IndexPeriodic(n, reps, start - 1);
    }
  }

  /** The smallest multiple of `round` above `head`. */
  function NextMultiple(head: nat, round: nat): (r: nat)
    requires round > 0
    ensures head < r <= head + round && r % round == 0
    ensures forall x :: head < x < r ==> x % round != 0
  {
    var q := head / round;
    var r := (q + 1) * round;
    Distribute(q, 1, round);
    assert head == q * round + head % round;
    DivModUnique(q + 1, round, 0);
    assert forall x :: head < x < r ==> x % round != 0 by {
      forall x | head < x < r ensures x % round != 0 {
        DivModUnique(q, round, x - q * round);
      }
    }
    r
  }

  /** The search counts in 32 bits. It takes less than a round of steps and finds the next multiple
      of the round length exactly when that fits; otherwise the counter wraps round to zero. Either
      way the first producer of the schedule is due at the block found. */
  method NextRoundFirstBlock(head: nat, n: nat, reps: nat) returns (res: nat, ghost steps: nat)
    requires n > 0 && reps > 0 && head < TWO_32
    ensures res == NextMultiple(head, RoundLength(n, reps)) <==> NextMultiple(head, RoundLength(n, reps)) < TWO_32
    ensures res != NextMultiple(head, RoundLength(n, reps)) ==> res == 0
    ensures steps < RoundLength(n, reps)
    ensures ProducerIndex(n, reps, res) == 0
  {
    var round := RoundLength(n, reps);
    ghost var goal := NextMultiple(head, round);
    res := Wrap32(head + 1);
    steps := 0;
    while res % round != 0
      invariant 0 <= res < TWO_32
      invariant res == head + 1 + steps || (res == 0 && head + 1 + steps == TWO_32)
      invariant head + 1 + steps <= goal
      decreases if res == 0 then 0 else TWO_32 - res
    {
      ZeroMultiple(round);
      res := Wrap32(res + 1);
      steps := steps + 1;
    }
    ZeroMultiple(round);
    assert res != 0 ==> res == goal;
  }

  function RoundLength(n: nat, reps: nat): (r: nat)
    requires n > 0 && reps > 0
    ensures r > 0
  {
    MulPositive(n, reps);
    n * reps
  }

  lemma ZeroMultiple(round: nat)
    requires round > 0
    ensures 0 % round == 0
  {
  }
}
