/** Chains of blocks and the header states along them, and what holds on every chain of accepted
    headers. */
module Chains {
  import opened Wrappers
  import opened Varint
  import opened Quorum
  import opened HeaderState

  /** A block: its producer, how many earlier blocks it confirms besides itself, and the schedule
      that was active for it. */
  datatype Block = Block(producer: Name, confirmed: nat, schedule: seq<Name>)

  /** A header state with the chain that led to it. The first block after the genesis block has
      number 2 and is `blocks[0]`. `switched` is the number of the block that last put a pending
      schedule into force, and `sound` says that every header was sound. */
  datatype Chain = Chain(state: State, blocks: seq<Block>, switched: int, sound: bool)

  predicate Sized(producers: seq<Name>)
  {
    0 < |producers| <= MAX_PRODUCERS
  }

  // ----- One block -----

  /** Counting down from the head gets as far as the counter of block number `b`: there is one, and
      no later counter runs out first. */
  predicate Reaches(counts: seq<int>, num: int, b: int)
  {
    var i := b - (num - |counts| + 1);
    0 <= i < |counts| && forall j :: i < j < |counts| ==> counts[j] != 1
  }

  /** The header claims no more confirmations than there are blocks, or its producer has none of the
      blocks whose counters it lowers. */
  predicate Sound(s: State, h: Header)
  {
    h.confirmed <= s.blockNum + 1 || h.producer !in s.lastProduced ||
    !Reaches(Pushed(s), s.blockNum + 1, s.lastProduced[h.producer])
  }

  /** From block 65535 on, the 16 bits of the claim are enough to make every header sound. */
  lemma LaterHeadersSound(s: State, h: Header)
    requires s.blockNum + 1 >= 0xFFFF
    ensures Sound(s, h)
  {
  }

  /** What is left of the checks of a header once its slot has given the producer. */
  predicate Admitted(s: State, h: Header)
  {
    && h.producer in s.active.producers
    && ConfirmsAnew(s, h)
    && s.blockNum + 1 < TWO_32
    && (h.newProducers.Some? ==> |h.newProducers.value.producers| <= MAX_PRODUCERS)
  }

  /** The source takes the header for the next block of the chain. Block numbers have 32 bits, and
      a schedule has no more producers than the configured maximum. */
  ghost predicate Accepted(c: Chain, reps: nat, h: Header)
    requires reps > 0
  {
    && c.state.active.producers != []
    && Next(c.state, reps, h).Some?
    && c.state.blockNum + 1 < TWO_32
    && (h.newProducers.Some? ==> |h.newProducers.value.producers| <= MAX_PRODUCERS)
  }

  lemma AcceptedAdmitted(c: Chain, reps: nat, h: Header)
    requires reps > 0 && Accepted(c, reps, h)
    ensures Admitted(c.state, h)
  {
  }

  /** The block a header stands for. */
  function BlockOf(s: State, h: Header): Block
  {
    Block(h.producer, h.confirmed, s.active.producers)
  }

  /** The chain once the block's confirmations are counted. */
  ghost function Confirmed(c: Chain, h: Header): Chain
  {
    Chain(SetConfirmed(StartBlock(c.state, h.producer, h.slot), h.confirmed), c.blocks + [BlockOf(c.state, h)],
          c.switched, c.sound && Sound(c.state, h))
  }

  /** The chain once a pending schedule that is due has been put into force. */
  ghost function Promoted(c: Chain): Chain
  {
    c.(state := Promote(c.state), switched := if PromotionDue(c.state) then c.state.blockNum else c.switched)
  }

  /** The chain once a schedule announced by the block is pending. */
  function Announced(c: Chain, schedule: Option<Schedule>): Chain
  {
    match schedule
    case None => c
    case Some(next) => c.(state := c.state.(pending := next, pendingLib := c.state.blockNum))
  }

  ghost function Extend(c: Chain, h: Header): Chain
  {
    Announced(Promoted(Confirmed(c, h)), h.newProducers)
  }

  /** That is the transition of the source. */
  lemma ExtendIsNext(c: Chain, reps: nat, h: Header)
    requires reps > 0 && Accepted(c, reps, h)
    ensures Next(c.state, reps, h) == Some(Extend(c, h).state)
  {
  }

  // ----- Whole chains -----

  /** The state of a new chain: the initial schedule is both active and pending. */
  predicate Genesis(s: State)
  {
    && s.blockNum == 1 && s.proposed == 0 && s.irreversible == 0 && s.pendingLib == 0
    && Sized(s.active.producers) && s.pending == s.active
    && s.lastProduced == map[] && s.impliedIrb == map[] && s.confirmCount == []
  }

  /** The chain that the headers lead to from a genesis state, if all are accepted. */
  ghost function ChainOf(g: State, reps: nat, headers: seq<Header>): Option<Chain>
    requires reps > 0
    decreases |headers|
  {
    if headers == [] then if Genesis(g) then Some(Chain(g, [], 0, true)) else None
    else
      var n := |headers| - 1;
      match ChainOf(g, reps, headers[..n])
      case Some(b) => if Accepted(b, reps, headers[n]) then Some(Extend(b, headers[n])) else None
      case None => None
  }

  ghost predicate Reached(g: State, reps: nat, headers: seq<Header>, c: Chain)
    requires reps > 0
  {
    ChainOf(g, reps, headers) == Some(c)
  }

  /** The chain before its last header. */
  lemma ReachedBefore(g: State, reps: nat, headers: seq<Header>, c: Chain) returns (b: Chain)
    requires reps > 0 && headers != [] && Reached(g, reps, headers, c)
    ensures var n := |headers| - 1;
            Reached(g, reps, headers[..n], b) && Accepted(b, reps, headers[n]) && c == Extend(b, headers[n])
  {
    b := ChainOf(g, reps, headers[..|headers| - 1]).value;
  }

  lemma ReachedNext(g: State, reps: nat, headers: seq<Header>, c: Chain, h: Header)
    requires reps > 0 && Reached(g, reps, headers, c) && Accepted(c, reps, h)
    ensures Reached(g, reps, headers + [h], Extend(c, h))
  {
    assert (headers + [h])[..|headers|] == headers;
  }

  // ----- What holds on every chain -----

  predicate SchedulesFit(c: Chain)
  {
    && Sized(c.state.active.producers)
    && |c.state.pending.producers| <= MAX_PRODUCERS
    && forall j :: 0 <= j < |c.blocks| ==> Sized(c.blocks[j].schedule) && c.blocks[j].producer in c.blocks[j].schedule
  }

  /** Everyone in the active schedule has an entry, once the initial schedule has been put into
      force by the first block. */
  predicate ActiveKnown(c: Chain)
  {
    if c.blocks == [] then c.state.pending.producers != [] && c.state.pendingLib <= 0
    else forall p :: p in c.state.active.producers ==> p in c.state.lastProduced && p in c.state.impliedIrb
  }

  /** The last block number on record for a producer; one that dropped out of the schedule has
      produced nothing since the last switch. */
  function LastOf(s: State, switched: int, p: Name): int
  {
    if p in s.lastProduced then s.lastProduced[p] else switched
  }

  /** No producer has a later block than the records say. */
  predicate LastCorrect(c: Chain)
  {
    forall j :: 0 <= j < |c.blocks| ==> j + 2 <= LastOf(c.state, c.switched, c.blocks[j].producer)
  }

  predicate SwitchCorrect(c: Chain)
  {
    && c.switched <= c.state.blockNum
    && (c.state.pending.producers != [] ==> c.switched <= c.state.pendingLib)
  }

  /** Block number `num` is one of `p`'s. */
  predicate ProducedBy(blocks: seq<Block>, num: int, p: Name)
  {
    2 <= num <= |blocks| + 1 && blocks[num - 2].producer == p
  }

  /** A record above the proposed number is a block the producer made. */
  predicate RecordsMade(s: State, blocks: seq<Block>)
  {
    && (blocks != [] ==> ProducedBy(blocks, s.blockNum, s.producer))
    && forall p :: p in s.lastProduced ==> s.lastProduced[p] <= s.proposed || ProducedBy(blocks, s.lastProduced[p], p)
  }

  predicate Positive(counts: seq<int>)
  {
    forall i :: 0 <= i < |counts| ==> counts[i] > 0
  }

  predicate Within(m: map<Name, int>, x: int)
  {
    forall p :: p in m ==> 0 <= m[p] <= x
  }

  /** Counters belong to the blocks after the proposed one, and nobody implies a later one. */
  predicate Bounded(s: State)
  {
    && Positive(s.confirmCount)
    && 0 <= s.irreversible <= s.proposed <= s.blockNum - |s.confirmCount|
    && Within(s.impliedIrb, s.proposed)
  }

  /** What holds at every point of processing a block. */
  predicate BaseShape(c: Chain)
  {
    && c.state.blockNum == |c.blocks| + 1
    && SchedulesFit(c)
    && LastCorrect(c)
    && SwitchCorrect(c)
    && RecordsMade(c.state, c.blocks)
    && Bounded(c.state)
  }

  predicate Shape(c: Chain)
  {
    BaseShape(c) && ActiveKnown(c)
  }

  // ----- Each step keeps it -----

  lemma PushedPositive(s: State)
    requires Sized(s.active.producers) && Positive(s.confirmCount)
    ensures Positive(Pushed(s))
    ensures Pushed(s)[|Pushed(s)| - 1] == Required(|s.active.producers|)
  {
  }

  /** Counting down moves the proposed number forward or leaves it. */
  lemma CountingBounds(g: State, k: nat)
    requires Positive(g.confirmCount) && g.proposed <= g.blockNum - |g.confirmCount|
    ensures var t := SetConfirmed(g, k);
            Positive(t.confirmCount) && g.proposed <= t.proposed <= t.blockNum - |t.confirmCount|
  {
    CountDownEffect(g.confirmCount, k + 1);
  }

  lemma ImpliedBounds(m: map<Name, int>, p: Name, x: int)
    requires 0 <= x && Within(m, x)
    ensures Within(m[p := x], x)
    ensures 0 <= LastIrreversible(m[p := x]) <= x
  {
    assert p in m[p := x];
    LastIrreversibleIsLargestSupported(m[p := x], 0);
  }

  lemma BoundsAfter(s: State, p: Name, slot: nat, k: nat)
    requires Sized(s.active.producers) && Bounded(s)
    ensures var t := SetConfirmed(StartBlock(s, p, slot), k);
            Bounded(t) && s.proposed <= t.proposed
  {
    PushedPositive(s);
    ImpliedBounds(s.impliedIrb, p, s.proposed);
    CountingBounds(StartBlock(s, p, slot), k);
  }

  lemma RecordsAfter(s: State, blocks: seq<Block>, t: State, k: Block)
    requires RecordsMade(s, blocks) && s.blockNum == |blocks| + 1 && s.proposed <= t.proposed
    requires t.producer == k.producer && t.blockNum == s.blockNum + 1
    requires t.lastProduced == s.lastProduced[k.producer := s.blockNum + 1]
    ensures RecordsMade(t, blocks + [k])
  {
    var all := blocks + [k];
    forall p | p in t.lastProduced && t.lastProduced[p] > t.proposed ensures ProducedBy(all, t.lastProduced[p], p) {
      if p != k.producer {
        assert ProducedBy(blocks, s.lastProduced[p], p);
      }
    }
  }

  lemma LastAfter(c: Chain, h: Header)
    requires LastCorrect(c) && c.state.blockNum == |c.blocks| + 1 && c.switched <= c.state.blockNum
    ensures LastCorrect(Confirmed(c, h))
  {
    var d := Confirmed(c, h);
    forall j | 0 <= j < |d.blocks| ensures j + 2 <= LastOf(d.state, d.switched, d.blocks[j].producer) {
      if j < |c.blocks| {
        assert d.blocks[j] == c.blocks[j];
        assert j + 2 <= LastOf(c.state, c.switched, c.blocks[j].producer);
      }
    }
  }

  lemma ConfirmedShape(c: Chain, h: Header)
    requires Shape(c) && Admitted(c.state, h)
    ensures BaseShape(Confirmed(c, h)) && c.state.proposed <= Confirmed(c, h).state.proposed
  {
    var d := Confirmed(c, h);
    BoundsAfter(c.state, h.producer, h.slot, h.confirmed);
    RecordsAfter(c.state, c.blocks, d.state, BlockOf(c.state, h));
    LastAfter(c, h);
  }

  lemma CarriedRecords(s: State, blocks: seq<Block>)
    requires RecordsMade(s, blocks) && blocks != [] && s.irreversible <= s.proposed
    ensures RecordsMade(Promote(s), blocks)
  {
    var t := Promote(s);
    forall p | p in t.lastProduced && t.lastProduced[p] > t.proposed ensures ProducedBy(blocks, t.lastProduced[p], p) {
      if p in s.lastProduced && t.lastProduced[p] == s.lastProduced[p] {
        assert s.lastProduced[p] <= s.proposed || ProducedBy(blocks, s.lastProduced[p], p);
      }
    }
  }

  lemma CarriedLast(c: Chain)
    requires LastCorrect(c) && SwitchCorrect(c) && c.state.blockNum == |c.blocks| + 1
    ensures LastCorrect(Promoted(c))
  {
    var d := Promoted(c);
    forall j | 0 <= j < |d.blocks| ensures j + 2 <= LastOf(d.state, d.switched, d.blocks[j].producer) {
      assert j + 2 <= LastOf(c.state, c.switched, c.blocks[j].producer);
    }
  }

  /** A schedule comes into force only after the block that announced it is irreversible, so a
      producer that left and comes back is not credited with less than it confirmed before. */
  lemma PromotedShape(c: Chain)
    requires BaseShape(c) && c.blocks != []
    ensures BaseShape(Promoted(c))
  {
    CarriedRecords(c.state, c.blocks);
    CarriedLast(c);
  }

  lemma AnnouncedShape(c: Chain, schedule: Option<Schedule>)
    requires BaseShape(c)
    requires schedule.Some? ==> |schedule.value.producers| <= MAX_PRODUCERS
    ensures BaseShape(Announced(c, schedule))
  {
    var d := Announced(c, schedule);
    forall j | 0 <= j < |d.blocks| ensures j + 2 <= LastOf(d.state, d.switched, d.blocks[j].producer) {
      assert j + 2 <= LastOf(c.state, c.switched, c.blocks[j].producer);
    }
  }

  lemma KnownAfter(c: Chain, h: Header)
    requires Shape(c) && Admitted(c.state, h) && Bounded(Confirmed(c, h).state)
    ensures ActiveKnown(Extend(c, h))
  {
    var d := Confirmed(c, h);
    if c.blocks == [] {
      assert PromotionDue(d.state);
    }
  }

  /** Every accepted block keeps the shape, sound or not, schedule changes included. */
  lemma ExtendShape(c: Chain, h: Header)
    requires Shape(c) && Admitted(c.state, h)
    ensures Shape(Extend(c, h))
  {
    var d := Confirmed(c, h);
    ConfirmedShape(c, h);
    KnownAfter(c, h);
    PromotedShape(d);
    AnnouncedShape(Promoted(d), h.newProducers);
  }

  lemma GenesisShape(g: State)
    requires Genesis(g)
    ensures Shape(Chain(g, [], 0, true))
  {
  }

  lemma {:induction false} ReachedShape(g: State, reps: nat, headers: seq<Header>, c: Chain)
    requires reps > 0 && Reached(g, reps, headers, c)
    ensures Shape(c) && |c.blocks| == |headers|
    decreases |headers|
  {
    if headers == [] {
      GenesisShape(g);
    } else {
      var b := ReachedBefore(g, reps, headers, c);
      ReachedShape(g, reps, headers[..|headers| - 1], b);
      StepShape(b, reps, headers[|headers| - 1]);
    }
  }

  lemma StepShape(b: Chain, reps: nat, h: Header)
    requires reps > 0 && Shape(b) && Accepted(b, reps, h)
    ensures Shape(Extend(b, h)) && |Extend(b, h).blocks| == |b.blocks| + 1
  {
    AcceptedAdmitted(b, reps, h);
    ExtendShape(b, h);
  }

  /** On every chain the proposed number never goes back. */
  lemma ProposedMonotone(g: State, reps: nat, headers: seq<Header>, c: Chain, h: Header)
    requires reps > 0 && Reached(g, reps, headers, c) && Accepted(c, reps, h)
    ensures c.state.proposed <= Extend(c, h).state.proposed
  {
    ReachedShape(g, reps, headers, c);
    AcceptedAdmitted(c, reps, h);
    ConfirmedShape(c, h);
  }

  /** A chain is sound when no header below number 65535 claims more confirmations than there are
      blocks; the later ones need not be looked at. */
  lemma {:induction false} SoundUnlessEarly(g: State, reps: nat, headers: seq<Header>, c: Chain)
    requires reps > 0 && Reached(g, reps, headers, c)
    requires forall k :: 0 <= k < |headers| && k + 2 < 0xFFFF ==> headers[k].confirmed <= k + 2
    ensures c.sound
    decreases |headers|
  {
    if headers != [] {
      var n := |headers| - 1;
      var b := ReachedBefore(g, reps, headers, c);
      ReachedShape(g, reps, headers[..n], b);
      SoundUnlessEarly(g, reps, headers[..n], b);
      assert b.state.blockNum + 1 == n + 2;
      if n + 2 >= 0xFFFF { LaterHeadersSound(b.state, headers[n]); }
    }
  }
}
