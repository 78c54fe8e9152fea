/** What the confirmation counters mean over whole chains: a block number is proposed or taken as
    irreversible only when more than two thirds of the producers confirmed it, each counted once.
    That holds on sound chains, and the counters are right exactly on those. */
module Confirmations {
  import opened Wrappers
  import opened Varint
  import opened Quorum
  import opened HeaderState
  import opened Chains

  /** Block `j` confirms block number `b`. */
  predicate Confirms(blocks: seq<Block>, j: int, b: int)
  {
    0 <= j < |blocks| && j + 2 - blocks[j].confirmed <= b <= j + 2
  }

  ghost function Confirmers(blocks: seq<Block>, b: int): (r: set<Name>)
  {
    set j | 0 <= j < |blocks| && Confirms(blocks, j, b) :: blocks[j].producer
  }

  /** How many producers have to confirm block number `b`. */
  function Needed(blocks: seq<Block>, b: int): nat
    requires 2 <= b <= |blocks| + 1
  {
    Required(|blocks[b - 2].schedule|)
  }

  /** Enough producers confirmed block number `b`; nothing is claimed for 0, the initial value. */
  ghost predicate Supported(blocks: seq<Block>, b: int)
  {
    b == 0 || (2 <= b <= |blocks| + 1 && |Confirmers(blocks, b)| >= Needed(blocks, b))
  }

  // ----- Counters -----

  /** Counter and confirmers of block number `b` add up to the number needed. */
  ghost predicate CounterCorrect(count: int, have: seq<Block>, all: seq<Block>, b: int)
  {
    count > 0 && 2 <= b <= |all| + 1 && count + |Confirmers(have, b)| == Needed(all, b)
  }

  /** `counts` holds the counters of consecutive blocks, the last that of block number `num`. */
  ghost predicate CountersCorrect(counts: seq<int>, num: int, have: seq<Block>, all: seq<Block>)
  {
    forall i :: 0 <= i < |counts| ==> CounterCorrect(counts[i], have, all, num - |counts| + 1 + i)
  }

  /** The counters are right for the chain, and the proposed number has its confirmers. */
  ghost predicate ProposalCorrect(s: State, blocks: seq<Block>)
  {
    CountersCorrect(s.confirmCount, s.blockNum, blocks, blocks) && Supported(blocks, s.proposed)
  }

  ghost predicate AllSupported(s: State, blocks: seq<Block>)
  {
    Supported(blocks, s.irreversible) && forall p :: p in s.impliedIrb ==> Supported(blocks, s.impliedIrb[p])
  }

  // ----- Confirmers of a longer chain -----

  lemma ConfirmersStep(blocks: seq<Block>, k: Block, b: int)
    ensures var all := blocks + [k];
            Confirmers(all, b) ==
            Confirmers(blocks, b) + if Confirms(all, |blocks|, b) then {k.producer} else {}
  {
    var all := blocks + [k];
    forall j | 0 <= j < |blocks| ensures Confirms(all, j, b) <==> Confirms(blocks, j, b) {
    }
    forall p | p in Confirmers(blocks, b) ensures p in Confirmers(all, b) {
      var j :| 0 <= j < |blocks| && Confirms(blocks, j, b) && blocks[j].producer == p;
      assert all[j].producer == p && Confirms(all, j, b);
    }
    if Confirms(all, |blocks|, b) {
      assert all[|blocks|].producer in Confirmers(all, b);
    }
  }

  lemma SupportedGrows(blocks: seq<Block>, k: Block, b: int)
    requires Supported(blocks, b)
    ensures Supported(blocks + [k], b)
  {
    ConfirmersStep(blocks, k, b);
    SubsetCardinality(Confirmers(blocks, b), Confirmers(blocks + [k], b));
  }

  lemma NoConfirmersAhead(blocks: seq<Block>, b: int)
    requires b > |blocks| + 1
    ensures Confirmers(blocks, b) == {}
  {
  }

  /** A new block starts with a counter of its own; the oldest one may have to go. */
  lemma CounterPushed(prior: seq<int>, num: int, blocks: seq<Block>, k: Block, dropped: nat)
    requires CountersCorrect(prior, num, blocks, blocks) && num == |blocks| + 1 && dropped <= |prior|
    ensures CountersCorrect(prior[dropped..] + [Required(|k.schedule|)], num + 1, blocks, blocks + [k])
  {
    var all, counts := blocks + [k], prior[dropped..] + [Required(|k.schedule|)];
    var n := |counts|;
    forall i | 0 <= i < n ensures CounterCorrect(counts[i], blocks, all, num + 1 - n + 1 + i) {
      var b := num + 1 - n + 1 + i;
      if i < n - 1 {
        assert counts[i] == prior[i + dropped];
        assert CounterCorrect(prior[i + dropped], blocks, blocks, num - |prior| + 1 + (i + dropped));
      } else {
        NoConfirmersAhead(blocks, b);
      }
    }
  }

  // ----- Which counters stay right -----

  /** Block `k`, next on the chain, does not confirm block number `b`, or does so as the first of its
      producer's. */
  ghost predicate FreshAt(blocks: seq<Block>, k: Block, b: int)
  {
    |blocks| + 2 - k.confirmed <= b ==> k.producer !in Confirmers(blocks, b)
  }

  /** A counter, lowered if block `k` confirms its block, is right; or it ran out with reason. */
  ghost predicate StillCorrect(count: int, all: seq<Block>, b: int)
  {
    if count > 0 then CounterCorrect(count, all, all, b) else Supported(all, b)
  }

  lemma CounterStep(count: int, blocks: seq<Block>, k: Block, b: int)
    requires CounterCorrect(count, blocks, blocks + [k], b) && b <= |blocks| + 2
    ensures StillCorrect(count - if |blocks| + 2 - k.confirmed <= b then 1 else 0, blocks + [k], b)
            <==> FreshAt(blocks, k, b)
  {
    ConfirmersStep(blocks, k, b);
  }

  lemma CounterAt(counts: seq<int>, blocks: seq<Block>, k: Block, i: int)
    requires CountersCorrect(counts, |blocks| + 2, blocks, blocks + [k])
    requires 0 <= i < |counts|
    ensures var b := |blocks| + 2 - |counts| + 1 + i;
            StillCorrect(counts[i] - if |counts| - 1 - i < k.confirmed + 1 then 1 else 0, blocks + [k], b)
            <==> FreshAt(blocks, k, b)
  {
    var b := |blocks| + 2 - |counts| + 1 + i;
    assert CounterCorrect(counts[i], blocks, blocks + [k], b);
    CounterStep(counts[i], blocks, k, b);
  }

  /** The block is the first of its producer's to confirm any of the blocks whose counters it lowers,
      from position `from` on. */
  ghost predicate FreshFrom(blocks: seq<Block>, k: Block, first: int, from: int)
  {
    forall b :: first + from <= b <= |blocks| + 2 ==> FreshAt(blocks, k, b)
  }

  /** The counters that survive, and the one that ran out. */
  ghost predicate Right(r: Confirmation, all: seq<Block>, first: int)
  {
    && CountersCorrect(r.counts, |all| + 1, all, all)
    && (r.hit >= 0 ==> Supported(all, first + r.hit))
  }

  /** After the count-down everything is right exactly when each counter that was lowered was lowered
      for a new confirmer. */
  lemma CountersStep(counts: seq<int>, blocks: seq<Block>, k: Block, r: Confirmation, first: int)
    requires CountersCorrect(counts, |blocks| + 2, blocks, blocks + [k]) && first == |blocks| + 2 - |counts| + 1
    requires CountedDown(counts, k.confirmed + 1, r)
    ensures Right(r, blocks + [k], first) <==> FreshFrom(blocks, k, first, if r.hit < 0 then 0 else r.hit)
  {
    var all, from := blocks + [k], if r.hit < 0 then 0 else r.hit;
    if FreshFrom(blocks, k, first, from) {
      FreshThenRight(counts, blocks, k, r, first);
    }
    if Right(r, all, first) {
      forall b | first + from <= b <= |blocks| + 2 ensures FreshAt(blocks, k, b) {
        RightThenFresh(counts, blocks, k, r, first, b);
      }
    }
  }

  lemma SurvivorCorrect(counts: seq<int>, blocks: seq<Block>, k: Block, r: Confirmation, first: int, j: int)
    requires CountersCorrect(counts, |blocks| + 2, blocks, blocks + [k]) && first == |blocks| + 2 - |counts| + 1
    requires CountedDown(counts, k.confirmed + 1, r) && 0 <= j < |r.counts|
    ensures CounterCorrect(r.counts[j], blocks + [k], blocks + [k], first + r.hit + 1 + j)
            <==> FreshAt(blocks, k, first + r.hit + 1 + j)
  {
    assert r.counts[j] > 0;
    CounterAt(counts, blocks, k, r.hit + 1 + j);
  }

  lemma FreshThenRight(counts: seq<int>, blocks: seq<Block>, k: Block, r: Confirmation, first: int)
    requires CountersCorrect(counts, |blocks| + 2, blocks, blocks + [k]) && first == |blocks| + 2 - |counts| + 1
    requires CountedDown(counts, k.confirmed + 1, r)
    requires FreshFrom(blocks, k, first, if r.hit < 0 then 0 else r.hit)
    ensures Right(r, blocks + [k], first)
  {
    var num, all := |blocks| + 2, blocks + [k];
    forall j | 0 <= j < |r.counts| ensures CounterCorrect(r.counts[j], all, all, num - |r.counts| + 1 + j) {
      SurvivorCorrect(counts, blocks, k, r, first, j);
      assert FreshAt(blocks, k, first + r.hit + 1 + j);
    }
    if r.hit >= 0 {
      CounterAt(counts, blocks, k, r.hit);
      assert FreshAt(blocks, k, first + r.hit);
    }
  }

  lemma RightThenFresh(counts: seq<int>, blocks: seq<Block>, k: Block, r: Confirmation, first: int, b: int)
    requires CountersCorrect(counts, |blocks| + 2, blocks, blocks + [k]) && first == |blocks| + 2 - |counts| + 1
    requires CountedDown(counts, k.confirmed + 1, r) && Right(r, blocks + [k], first)
    requires first + (if r.hit < 0 then 0 else r.hit) <= b <= |blocks| + 2
    ensures FreshAt(blocks, k, b)
  {
    var i := b - first;
    if i > r.hit {
      var j := i - r.hit - 1;
      SurvivorCorrect(counts, blocks, k, r, first, j);
      assert CounterCorrect(r.counts[j], blocks + [k], blocks + [k], b);
    } else {
      CounterAt(counts, blocks, k, i);
    }
  }

  // ----- Sound headers -----

  lemma FreshAfterLast(c: Chain, p: Name, b: int)
    requires LastCorrect(c) && p in c.state.lastProduced && c.state.lastProduced[p] < b
    ensures p !in Confirmers(c.blocks, b)
  {
    forall j | 0 <= j < |c.blocks| && c.blocks[j].producer == p ensures !Confirms(c.blocks, j, b) {
      assert j + 2 <= LastOf(c.state, c.switched, c.blocks[j].producer);
    }
  }

  /** A claim within the chain passes the check only if nothing it confirms was confirmed before. */
  lemma ClaimWithin(c: Chain, h: Header, b: int)
    requires Shape(c) && Admitted(c.state, h) && h.confirmed <= c.state.blockNum + 1 && h.producer in c.state.lastProduced
    ensures FreshAt(c.blocks, BlockOf(c.state, h), b)
  {
    var num := c.state.blockNum + 1;
    if num - h.confirmed <= b {
      Wrap32Value(0, num - h.confirmed);
      FreshAfterLast(c, h.producer, b);
    }
  }

  /** With a claim beyond the chain all counters are lowered, down to the last that is one. */
  lemma AllLowered(counts: seq<int>, k: nat, r: Confirmation, i: int)
    requires CountedDown(counts, k, r) && k > |counts|
    ensures 0 <= i < |counts| && (forall j :: i < j < |counts| ==> counts[j] != 1) ==> r.hit <= i
    ensures r.hit < i < |counts| ==> counts[i] != 1
  {
    if r.hit < i < |counts| {
      assert r.counts[i - r.hit - 1] > 0;
    }
  }

  /** So the counters that matter belong to later blocks than the producer's last, exactly when that
      one is not reached. */
  lemma ClaimBeyond(c: Chain, h: Header, r: Confirmation, first: int)
    requires Shape(c) && h.confirmed > c.state.blockNum + 1 && h.producer in c.state.lastProduced
    requires first == c.state.blockNum + 1 - |Pushed(c.state)| + 1
    requires CountedDown(Pushed(c.state), h.confirmed + 1, r)
    ensures FreshFrom(c.blocks, BlockOf(c.state, h), first, if r.hit < 0 then 0 else r.hit)
            <==> !Reaches(Pushed(c.state), c.state.blockNum + 1, c.state.lastProduced[h.producer])
  {
    var counts, num, last, k := Pushed(c.state), c.state.blockNum + 1, c.state.lastProduced[h.producer], BlockOf(c.state, h);
    var from := if r.hit < 0 then 0 else r.hit;
    AllLowered(counts, h.confirmed + 1, r, last - first);
    if Reaches(counts, num, last) {
      LastIsConfirmed(c, h.producer);
      assert !FreshAt(c.blocks, k, last);
    } else {
      forall b | first + from <= b <= num ensures FreshAt(c.blocks, k, b) {
        if last >= b { OnesAfter(counts, h.confirmed + 1, r, last - first); }
        FreshAfterLast(c, h.producer, b);
      }
    }
  }

  /** A counter that is not reached lies below the one that ran out. */
  lemma OnesAfter(counts: seq<int>, k: nat, r: Confirmation, i: int)
    requires CountedDown(counts, k, r) && k > |counts| && 0 <= i < |counts|
    requires exists j :: i < j < |counts| && counts[j] == 1
    ensures i < r.hit
  {
    var j :| i < j < |counts| && counts[j] == 1;
    AllLowered(counts, k, r, j);
  }

  lemma LastIsConfirmed(c: Chain, p: Name)
    requires Shape(c) && p in c.state.lastProduced && c.state.lastProduced[p] > c.state.proposed
    ensures p in Confirmers(c.blocks, c.state.lastProduced[p])
  {
    var last := c.state.lastProduced[p];
    assert ProducedBy(c.blocks, last, p);
    assert Confirms(c.blocks, last - 2, last);
  }

  /** Every counter that matters is lowered for a new confirmer exactly when the header is sound. */
  lemma FreshExactly(c: Chain, h: Header, r: Confirmation, first: int)
    requires Shape(c) && Admitted(c.state, h)
    requires first == c.state.blockNum + 1 - |Pushed(c.state)| + 1
    requires CountedDown(Pushed(c.state), h.confirmed + 1, r)
    ensures FreshFrom(c.blocks, BlockOf(c.state, h), first, if r.hit < 0 then 0 else r.hit) <==> Sound(c.state, h)
  {
    if h.producer !in c.state.lastProduced {
      assert c.blocks == [];
    } else if h.confirmed <= c.state.blockNum + 1 {
      forall b ensures FreshAt(c.blocks, BlockOf(c.state, h), b) {
        ClaimWithin(c, h, b);
      }
    } else {
      ClaimBeyond(c, h, r, first);
    }
  }

  lemma PushedCorrect(c: Chain, h: Header)
    requires Shape(c) && CountersCorrect(c.state.confirmCount, c.state.blockNum, c.blocks, c.blocks)
    ensures CountersCorrect(Pushed(c.state), c.state.blockNum + 1, c.blocks, c.blocks + [BlockOf(c.state, h)])
  {
    var prior := c.state.confirmCount;
    var dropped := if |prior| < MAX_TRACKED then 0 else 1;
    assert prior[0..] == prior;
    PushedPositive(c.state);
    assert Pushed(c.state) == prior[dropped..] + [Required(|c.state.active.producers|)];
    CounterPushed(prior, c.state.blockNum, c.blocks, BlockOf(c.state, h), dropped);
  }

  lemma CountDownExactly(c: Chain, h: Header, r: Confirmation, first: int)
    requires Shape(c) && Admitted(c.state, h) && ProposalCorrect(c.state, c.blocks)
    requires first == c.state.blockNum + 1 - |Pushed(c.state)| + 1
    requires CountedDown(Pushed(c.state), h.confirmed + 1, r)
    ensures Right(r, c.blocks + [BlockOf(c.state, h)], first) <==> Sound(c.state, h)
  {
    PushedCorrect(c, h);
    CountersStep(Pushed(c.state), c.blocks, BlockOf(c.state, h), r, first);
    FreshExactly(c, h, r, first);
  }

  /** In the state, being right is a matter of the counters left and the one that ran out. */
  lemma StateIsRight(t: State, r: Confirmation, all: seq<Block>, first: int, proposed: int)
    requires t.confirmCount == r.counts && t.blockNum == |all| + 1 && Supported(all, proposed)
    requires t.proposed == if r.hit < 0 then proposed else first + r.hit
    ensures ProposalCorrect(t, all) <==> Right(r, all, first)
  {
  }

  lemma ProposalIsRight(c: Chain, h: Header, r: Confirmation, first: int)
    requires c.state.blockNum == |c.blocks| + 1 && Supported(c.blocks, c.state.proposed)
    requires r == CountDown(Pushed(c.state), h.confirmed + 1)
    requires first == c.state.blockNum + 1 - |Pushed(c.state)| + 1
    ensures ProposalCorrect(Confirmed(c, h).state, Confirmed(c, h).blocks)
            <==> Right(r, c.blocks + [BlockOf(c.state, h)], first)
  {
    SupportedGrows(c.blocks, BlockOf(c.state, h), c.state.proposed);
    ConfirmedIs(StartBlock(c.state, h.producer, h.slot), h.confirmed, r);
    StateIsRight(Confirmed(c, h).state, r, c.blocks + [BlockOf(c.state, h)], first, c.state.proposed);
  }

  lemma Lowered(c: Chain, h: Header) returns (r: Confirmation, first: int)
    requires Shape(c)
    ensures r == CountDown(Pushed(c.state), h.confirmed + 1) && CountedDown(Pushed(c.state), h.confirmed + 1, r)
    ensures first == c.state.blockNum + 1 - |Pushed(c.state)| + 1
  {
    PushedPositive(c.state);
    CountDownEffect(Pushed(c.state), h.confirmed + 1);
    r, first := CountDown(Pushed(c.state), h.confirmed + 1), c.state.blockNum + 1 - |Pushed(c.state)| + 1;
  }

  /** The counters and the proposed number stay right exactly when the header is sound, which can be
      told before it is applied. */
  lemma ProposalExactly(c: Chain, h: Header)
    requires Shape(c) && Admitted(c.state, h) && ProposalCorrect(c.state, c.blocks)
    ensures ProposalCorrect(Confirmed(c, h).state, Confirmed(c, h).blocks) <==> Sound(c.state, h)
  {
    var r, first := Lowered(c, h);
    CountDownExactly(c, h, r, first);
    ProposalIsRight(c, h, r, first);
  }

  // ----- The invariant of sound chains -----

  ghost predicate Inv(c: Chain)
  {
    Shape(c) && ProposalCorrect(c.state, c.blocks) && AllSupported(c.state, c.blocks)
  }

  /** Nothing but supported numbers gets into the state. */
  lemma SupportAfter(m: map<Name, int>, x: int, blocks: seq<Block>, k: Block)
    requires Supported(blocks, x) && forall p :: p in m ==> Supported(blocks, m[p])
    ensures var m' := m[k.producer := x];
            Supported(blocks + [k], LastIrreversible(m')) && forall p :: p in m' ==> Supported(blocks + [k], m'[p])
  {
    var m' := m[k.producer := x];
    forall p | p in m' ensures Supported(blocks + [k], m'[p]) {
      SupportedGrows(blocks, k, m'[p]);
    }
    assert k.producer in m';
    LastIrreversibleIsLargestSupported(m', 0);
  }

  lemma ConfirmedKeeps(c: Chain, h: Header)
    requires Inv(c) && Admitted(c.state, h) && Sound(c.state, h)
    ensures var d := Confirmed(c, h); ProposalCorrect(d.state, d.blocks) && AllSupported(d.state, d.blocks)
  {
    ProposalExactly(c, h);
    SupportAfter(c.state.impliedIrb, c.state.proposed, c.blocks, BlockOf(c.state, h));
  }

  lemma PromotedKeeps(s: State, blocks: seq<Block>)
    requires ProposalCorrect(s, blocks) && AllSupported(s, blocks)
    ensures ProposalCorrect(Promote(s), blocks) && AllSupported(Promote(s), blocks)
  {
  }

  /** Every sound header keeps the invariant, schedule changes included. */
  lemma ExtendKeeps(c: Chain, h: Header)
    requires Inv(c) && Admitted(c.state, h) && Sound(c.state, h)
    ensures Inv(Extend(c, h))
  {
    var d := Confirmed(c, h);
    ExtendShape(c, h);
    ConfirmedKeeps(c, h);
    PromotedKeeps(d.state, d.blocks);
  }

  lemma {:induction false} ReachedInv(g: State, reps: nat, headers: seq<Header>, c: Chain)
    requires reps > 0 && Reached(g, reps, headers, c) && c.sound
    ensures Inv(c)
    decreases |headers|
  {
    if headers != [] {
      var n := |headers| - 1;
      var b := ReachedBefore(g, reps, headers, c);
      ReachedInv(g, reps, headers[..n], b);
      AcceptedAdmitted(b, reps, headers[n]);
      ExtendKeeps(b, headers[n]);
    }
  }

  // ----- Whole chains -----

  /** The counters are right after the first `k` headers. */
  ghost predicate RightAfter(g: State, reps: nat, headers: seq<Header>, k: nat)
    requires reps > 0 && k <= |headers|
  {
    match ChainOf(g, reps, headers[..k])
    case Some(b) => ProposalCorrect(b.state, b.blocks)
    case None => false
  }

  lemma RightAfterPrefix(g: State, reps: nat, headers: seq<Header>, n: nat, k: nat)
    requires reps > 0 && k <= n <= |headers|
    ensures RightAfter(g, reps, headers[..n], k) <==> RightAfter(g, reps, headers, k)
  {
    assert headers[..n][..k] == headers[..k];
  }

  /** On every chain of accepted headers: the counters are right all along exactly when every header
      was sound. */
  lemma {:induction false} SoundExactly(g: State, reps: nat, headers: seq<Header>, c: Chain)
    requires reps > 0 && Reached(g, reps, headers, c)
    ensures c.sound <==> forall k :: 0 <= k <= |headers| ==> RightAfter(g, reps, headers, k)
    decreases |headers|
  {
    var n := |headers|;
    assert headers[..n] == headers;
    if c.sound {
      forall k | 0 <= k <= n ensures RightAfter(g, reps, headers, k) {
        SoundThenRight(g, reps, headers, c, k);
      }
    } else {
      var b := ReachedBefore(g, reps, headers, c);
      if b.sound {
        FirstUnsound(g, reps, headers, b, c);
      } else {
        SoundExactly(g, reps, headers[..n - 1], b);
        var k :| 0 <= k <= n - 1 && !RightAfter(g, reps, headers[..n - 1], k);
        RightAfterPrefix(g, reps, headers, n - 1, k);
      }
    }
  }

  lemma {:induction false} SoundThenRight(g: State, reps: nat, headers: seq<Header>, c: Chain, k: nat)
    requires reps > 0 && Reached(g, reps, headers, c) && c.sound && k <= |headers|
    ensures RightAfter(g, reps, headers, k)
    decreases |headers|
  {
    var n := |headers|;
    if k == n {
      assert headers[..n] == headers;
      ReachedInv(g, reps, headers, c);
    } else {
      var b := ReachedBefore(g, reps, headers, c);
      SoundThenRight(g, reps, headers[..n - 1], b, k);
      RightAfterPrefix(g, reps, headers, n - 1, k);
    }
  }

  /** The first header that is not sound leaves wrong counters. */
  lemma FirstUnsound(g: State, reps: nat, headers: seq<Header>, b: Chain, c: Chain)
    requires reps > 0 && headers != [] && Reached(g, reps, headers, c) && b.sound && !c.sound
    requires Reached(g, reps, headers[..|headers| - 1], b)
    ensures !RightAfter(g, reps, headers, |headers|)
  {
    var n := |headers| - 1;
    assert headers[..|headers|] == headers;
    ReachedInv(g, reps, headers[..n], b);
    AcceptedAdmitted(b, reps, headers[n]);
    ProposalExactly(b, headers[n]);
  }

  /** On every sound chain, the number taken as irreversible and the number proposed are those of
      blocks that more than two thirds of the producers of their schedule's size confirmed, each
      counted once. */
  lemma IrreversibleIsConfirmed(g: State, reps: nat, headers: seq<Header>, c: Chain)
    requires reps > 0 && Reached(g, reps, headers, c) && c.sound
    ensures c.state.irreversible <= c.state.proposed <= c.state.blockNum
    ensures c.state.irreversible > 0 ==>
              2 <= c.state.irreversible <= |c.blocks| + 1 &&
              |Confirmers(c.blocks, c.state.irreversible)| >= Needed(c.blocks, c.state.irreversible)
    ensures c.state.proposed > 0 ==>
              2 <= c.state.proposed <= |c.blocks| + 1 &&
              |Confirmers(c.blocks, c.state.proposed)| >= Needed(c.blocks, c.state.proposed)
  {
    ReachedInv(g, reps, headers, c);
  }

  predicate OneSchedule(blocks: seq<Block>, producers: seq<Name>)
  {
    forall j :: 0 <= j < |blocks| ==> blocks[j].schedule == producers
  }

  /** Two sound chains under the same producers, however they fork: whatever each takes as irreversible,
      more than a third of the producers confirmed both. */
  lemma ForksShareConfirmers(g: State, reps: nat, hs: seq<Header>, a: Chain, hs': seq<Header>, b: Chain,
                             producers: seq<Name>)
    requires reps > 0 && Reached(g, reps, hs, a) && Reached(g, reps, hs', b) && a.sound && b.sound
    requires OneSchedule(a.blocks, producers) && OneSchedule(b.blocks, producers)
    requires forall i, j :: 0 <= i < j < |producers| ==> producers[i] != producers[j]
    requires a.state.irreversible > 0 && b.state.irreversible > 0
    ensures |Confirmers(a.blocks, a.state.irreversible) * Confirmers(b.blocks, b.state.irreversible)|
            >= |producers| / 3 + 1
  {
    ReachedInv(g, reps, hs, a);
    ReachedInv(g, reps, hs', b);
    MajoritiesOverlap(a, b, producers);
  }

  function Members(s: seq<Name>): set<Name>
  {
    set p | p in s
  }

  lemma MajoritiesOverlap(a: Chain, b: Chain, producers: seq<Name>)
    requires Inv(a) && OneSchedule(a.blocks, producers) && a.state.irreversible > 0
    requires Inv(b) && OneSchedule(b.blocks, producers) && b.state.irreversible > 0
    requires forall i, j :: 0 <= i < j < |producers| ==> producers[i] != producers[j]
    ensures |Confirmers(a.blocks, a.state.irreversible) * Confirmers(b.blocks, b.state.irreversible)|
            >= |producers| / 3 + 1
  {
    DistinctCount(producers);
    MajorityOf(a, producers);
    MajorityOf(b, producers);
    QuorumsOverlap(Members(producers), Confirmers(a.blocks, a.state.irreversible),
                   Confirmers(b.blocks, b.state.irreversible));
  }

  lemma MajorityOf(c: Chain, producers: seq<Name>)
    requires Inv(c) && OneSchedule(c.blocks, producers) && c.state.irreversible > 0
    ensures Confirmers(c.blocks, c.state.irreversible) <= Members(producers)
    ensures |Confirmers(c.blocks, c.state.irreversible)| >= Required(|producers|)
  {
    forall j | 0 <= j < |c.blocks| ensures c.blocks[j].producer in producers {
      assert c.blocks[j].producer in c.blocks[j].schedule;
    }
  }

  lemma {:induction false} DistinctCount(s: seq<Name>)
    requires forall i, j :: 0 <= i < j < |s| ==> s[i] != s[j]
    ensures |Members(s)| == |s|
  {
    if s != [] {
      DistinctCount(s[1..]);
      assert s[0] !in Members(s[1..]);
      assert Members(s) == {s[0]} + Members(s[1..]);
    }
  }
}
