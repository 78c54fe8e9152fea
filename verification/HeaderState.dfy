/** The header state a chain carries from block to block: schedules, confirmation counters and the
    block numbers taken to be irreversible. */
module HeaderState {
  import opened Wrappers
  import opened Varint
  import opened Rotation
  import opened Quorum

  const MAX_TRACKED: nat := 1024

  /** The most producers for which the number of confirmations needed fits in a byte, as the
      source's static assertion demands of its configured maximum. */
  const MAX_PRODUCERS: nat := 382

  type uint16 = x: int | 0 <= x < 0x1_0000

  datatype Schedule = Schedule(version: nat, producers: seq<Name>)

  datatype State = State(
    blockNum: nat,
    slot: nat,
    producer: Name,
    proposed: int,
    irreversible: int,
    pendingLib: nat,
    pending: Schedule,
    active: Schedule,
    lastProduced: map<Name, int>,
    impliedIrb: map<Name, int>,
    confirmCount: seq<int>)

  datatype Header = Header(slot: nat, producer: Name, scheduleVersion: nat, confirmed: uint16,
                           newProducers: Option<Schedule>)

  function ScheduledProducer(producers: seq<Name>, reps: nat, slot: nat): (p: Name)
    requires producers != [] && reps > 0
    ensures p in producers
  {
    producers[ProducerIndex(|producers|, reps, slot)]
  }

  /** The producers take turns in the order of the schedule, each for `reps` slots in a row. */
  lemma TakesTurns(producers: seq<Name>, reps: nat, round: nat, i: nat, k: nat)
    requires reps > 0 && i < |producers| && k < reps
    ensures ScheduledProducer(producers, reps, round * (|producers| * reps) + (i * reps + k)) == producers[i]
  {
    IndexInRound(|producers|, reps, round, i, k);
  }

  /** The counters once a new block has got one of its own; of too many, the oldest goes. */
  function Pushed(s: State): (r: seq<int>)
    ensures 0 < |r| <= |s.confirmCount| + 1
  {
    (if |s.confirmCount| < MAX_TRACKED then s.confirmCount else s.confirmCount[1..])
    + [Required(|s.active.producers|) % 256]
  }

  /** The state that a block of `p` in slot `slot` starts from. */
  ghost function StartBlock(s: State, p: Name, slot: nat): State
  {
    var implied := s.impliedIrb[p := s.proposed];
    s.(blockNum := s.blockNum + 1,
       slot := slot,
       producer := p,
       lastProduced := s.lastProduced[p := s.blockNum + 1],
       impliedIrb := implied,
       irreversible := LastIrreversible(implied),
       confirmCount := Pushed(s))
  }

  ghost function GenerateNext(s: State, reps: nat, slot: nat): State
    requires s.active.producers != [] && reps > 0
  {
    StartBlock(s, ScheduledProducer(s.active.producers, reps, slot), slot)
  }

  // ----- Confirming blocks -----

  /** Counters left after a round of confirmations, and the position of the one that ran out. */
  datatype Confirmation = Confirmation(counts: seq<int>, hit: int)

  /** An 8-bit decrement. */
  function Dec(x: int): int
  {
    if x == 0 then 255 else x - 1
  }

  /** Count down the last `k` counters from the end. The first to reach zero drops itself and all
      counters before it. */
  function CountDown(counts: seq<int>, k: nat): (r: Confirmation)
    decreases |counts|
  {
    var n := |counts| - 1;
    if counts == [] || k == 0 then Confirmation(counts, -1)
    else if Dec(counts[n]) == 0 then Confirmation([], n)
    else
      var r := CountDown(counts[..n], k - 1);
      Confirmation(r.counts + [Dec(counts[n])], r.hit)
  }

  function SetConfirmed(s: State, confirmed: nat): State
  {
    var r := CountDown(s.confirmCount, confirmed + 1);
    s.(confirmCount := r.counts,
       proposed := if r.hit < 0 then s.proposed else s.blockNum - (|s.confirmCount| - 1 - r.hit))
  }

  lemma ConfirmedIs(g: State, k: nat, r: Confirmation)
    requires r == CountDown(g.confirmCount, k + 1)
    ensures SetConfirmed(g, k) == g.(confirmCount := r.counts,
              proposed := if r.hit < 0 then g.proposed else g.blockNum - (|g.confirmCount| - 1 - r.hit))
  {
  }

  function Extended(c: Confirmation, tail: seq<int>): Confirmation
  {
    Confirmation(c.counts + tail, c.hit)
  }

  lemma CountDownStep(front: seq<int>, x: int, k: nat, tail: seq<int>)
    requires k > 0
    ensures Extended(CountDown(front + [x], k), tail) ==
              if Dec(x) == 0 then Confirmation(tail, |front|)
              else Extended(CountDown(front, k - 1), [Dec(x)] + tail)
  {
    assert (front + [x])[..|front|] == front;
    if Dec(x) == 0 {
      assert [] + tail == tail;
    } else {
      var c := CountDown(front, k - 1).counts;
      assert c + [Dec(x)] + tail == c + ([Dec(x)] + tail);
    }
  }

  lemma CountDownLonger(front: seq<int>, x: int, k: nat)
    requires x > 0
    ensures CountDown(front + [x], k + 1) ==
              if x == 1 then Confirmation([], |front|)
              else var q := CountDown(front, k); Confirmation(q.counts + [x - 1], q.hit)
  {
    assert (front + [x])[..|front|] == front;
  }

  lemma UpdateAt(front: seq<int>, x: int, tail: seq<int>, y: int)
    ensures (front + [x] + tail)[|front| := y] == front + ([y] + tail)
    ensures (front + ([y] + tail))[|front| + 1..] == tail
  {
  }

  /** The in-place loop computes that. */
  method SetConfirmedLoop(s: State, confirmed: nat) returns (r: State)
    ensures r == SetConfirmed(s, confirmed)
  {
    var counts := s.confirmCount;
    var i, left := |counts| - 1, confirmed + 1;
    ghost var whole := CountDown(counts, left);
    ghost var front, tail := counts, [];
    ExtendedByNothing(whole);
    while i >= 0 && left > 0
      invariant -1 <= i && |front| == i + 1 && left >= 0
      invariant counts == front + tail && |counts| == |s.confirmCount|
      invariant whole == Extended(CountDown(front, left), tail)
      decreases i
    {
      ghost var rest, x := front[..i], front[i];
      assert front == rest + [x];
      CountDownStep(rest, x, left, tail);
      UpdateAt(rest, x, tail, Dec(x));
      counts := counts[i := Dec(counts[i])];
      if counts[i] == 0 {
        return s.(confirmCount := counts[i + 1..], proposed := s.blockNum - (|counts| - 1 - i));
      }
      front, tail := rest, [Dec(x)] + tail;
      i, left := i - 1, left - 1;
    }
    assert CountDown(front, left) == Confirmation(front, -1);
    r := s.(confirmCount := counts);
  }

  lemma ExtendedByNothing(c: Confirmation)
    ensures Extended(c, []) == c
  {
    assert c.counts + [] == c.counts;
  }

  /** All counters up to the one that ran out are gone; of the others, the last `k` are one lower,
      and none is zero. */
  predicate CountedDown(counts: seq<int>, k: nat, r: Confirmation)
  {
    && -1 <= r.hit < |counts|
    && |r.counts| == |counts| - 1 - r.hit
    && (r.hit >= 0 ==> |r.counts| < k && counts[r.hit] == 1)
    && forall j :: 0 <= j < |r.counts| ==>
         r.counts[j] > 0 && r.counts[j] == counts[r.hit + 1 + j] - (if |r.counts| - 1 - j < k then 1 else 0)
  }

  lemma CountedDownLonger(front: seq<int>, x: int, k: nat, q: Confirmation)
    requires CountedDown(front, k, q) && x > 1
    ensures CountedDown(front + [x], k + 1, Confirmation(q.counts + [x - 1], q.hit))
  {
    var counts, r := front + [x], Confirmation(q.counts + [x - 1], q.hit);
    forall j | 0 <= j < |r.counts|
      ensures r.counts[j] > 0
      ensures r.counts[j] == counts[r.hit + 1 + j] - (if |r.counts| - 1 - j < k + 1 then 1 else 0)
    {
      if j < |q.counts| {
        assert r.counts[j] == q.counts[j] && counts[r.hit + 1 + j] == front[q.hit + 1 + j];
      }
    }
  }

  lemma CountedDownNothing(counts: seq<int>, k: nat)
    requires (forall i :: 0 <= i < |counts| ==> counts[i] > 0) && (counts == [] || k == 0)
    ensures CountedDown(counts, k, Confirmation(counts, -1))
  {
  }

  lemma CountedDownHit(front: seq<int>, k: nat)
    ensures CountedDown(front + [1], k + 1, Confirmation([], |front|))
  {
  }

  lemma {:induction false} CountDownEffect(counts: seq<int>, k: nat)
    requires forall i :: 0 <= i < |counts| ==> counts[i] > 0
    ensures CountedDown(counts, k, CountDown(counts, k))
    decreases |counts|
  {
    if counts == [] || k == 0 {
      CountedDownNothing(counts, k);
    } else {
      var front, x := counts[..|counts| - 1], counts[|counts| - 1];
      assert front + [x] == counts;
      CountDownLonger(front, x, k - 1);
      if x == 1 {
        CountedDownHit(front, k - 1);
      } else {
        CountDownEffect(front, k - 1);
        CountedDownLonger(front, x, k - 1, CountDown(front, k - 1));
      }
    }
  }

  // ----- Changing schedules -----

  predicate PromotionDue(s: State)
  {
    s.pending.producers != [] && s.irreversible >= s.pendingLib
  }

  /** Block numbers for a new schedule: those known, and a common one for newcomers. */
  function CarryOver(producers: seq<Name>, known: map<Name, int>, newcomers: int): map<Name, int>
  {
    map p | p in producers :: if p in known then known[p] else newcomers
  }

  function Promote(s: State): State
  {
    if !PromotionDue(s) then s else
      s.(active := s.pending,
         pending := s.pending.(producers := []),
         lastProduced := CarryOver(s.pending.producers, s.lastProduced, s.irreversible)[s.producer := s.blockNum],
         impliedIrb := CarryOver(s.pending.producers, s.impliedIrb, s.irreversible))
  }

  /** The check that a producer does not confirm a block twice, in 32-bit arithmetic. */
  predicate ConfirmsAfter(last: int, num: nat, confirmed: nat)
  {
    last < Wrap32(num - confirmed)
  }

  predicate ConfirmsAnew(s: State, h: Header)
  {
    h.producer in s.lastProduced ==> ConfirmsAfter(s.lastProduced[h.producer], s.blockNum + 1, h.confirmed)
  }

  /** That check is the intended comparison for every producer exactly when the header does not
      claim to confirm more blocks than there are. */
  lemma ConfirmCheckExact(num: nat, confirmed: nat)
    requires num < TWO_32 && confirmed < 0x1_0000
    ensures (forall last :: 0 <= last <= num ==> (ConfirmsAfter(last, num, confirmed) <==> last < num - confirmed))
            <==> confirmed <= num
  {
    if confirmed <= num {
      Wrap32Value(0, num - confirmed);
    } else {
      Wrap32Value(-1, TWO_32 + num - confirmed);
      assert ConfirmsAfter(0, num, confirmed);
    }
  }

  /** The transition to the next state, or nothing where the source throws. */
  ghost function Next(s: State, reps: nat, h: Header): Option<State>
    requires s.active.producers != [] && reps > 0
  {
    if h.slot <= s.slot then None else
    var g := GenerateNext(s, reps, h.slot);
    if g.producer != h.producer || h.scheduleVersion != s.active.version || !ConfirmsAnew(s, h) then None else
    var c := SetConfirmed(g, h.confirmed);
    var p := Promote(c);
    match h.newProducers
    case None => Some(p)
    case Some(schedule) =>
      if PromotionDue(c) || schedule.version != p.active.version + 1 || p.pending.producers != [] then None
      else Some(p.(pending := schedule, pendingLib := p.blockNum))
  }
}
