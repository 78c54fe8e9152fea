/** A chain on which one producer alone makes a block irreversible. A header that claims more
    confirmations than there are blocks passes the check against confirming twice, and lowers
    counters that its producer has lowered before. */
module DoubleConfirming {
  import opened Quorum
  import opened HeaderState
  import opened Chains
  import opened Confirmations
  import opened Traces

  const PAIR: Schedule := Schedule(0, [0, 1])
  const NOBODY: Schedule := Schedule(0, [])

  function Pair(a: int, b: int): map<Name, int>
  {
    map[0 := a, 1 := b]
  }

  lemma TurnOfPair(slot: nat)
    ensures ScheduledProducer(PAIR.producers, 1, slot) == slot % 2
  {
    assert PAIR.producers[slot % 2] == slot % 2;
  }

  lemma PairSupporters(a: int, b: int, x: int)
    ensures |Pair(a, b)| == 2 && |Supporters(Pair(a, b), x)| == One(a, x) + One(b, x)
  {
    assert Pair(a, b).Keys == {0, 1};
    SupportersStep(Pair(a, b), 1, x);
    assert Pair(a, b) - {1} == map[0 := a];
    SupportersOne(a, x);
  }

  /** With two producers both have to reach a number. */
  lemma PairIrreversible(a: int, b: int, x: int)
    requires x == if a < b then a else b
    ensures LastIrreversible(Pair(a, b)) == x
  {
    PairSupporters(a, b, x);
    PairSupporters(a, b, x + 1);
    LastIrreversibleReaches(Pair(a, b), x);
    LastIrreversibleReaches(Pair(a, b), x + 1);
  }

  lemma PairUpdate(a: int, b: int, x: int)
    ensures Pair(a, b)[0 := x] == Pair(x, b) && Pair(a, b)[1 := x] == Pair(a, x)
  {
  }

  lemma CountBoth(counts: seq<int>, k: nat)
    requires counts == [1] + [2] && k >= 2
    ensures CountDown(counts, k) == Confirmation([1], 0)
  {
    CountDownLonger([1], 2, k - 1);
    CountDownLonger([], 1, k - 2);
    assert [] + [1] == [1];
  }

  // ----- The views -----

  /** Block 2, by producer 1. */
  lemma View2(v: View, w: View, h: Header, r: Confirmation)
    requires v == View(1, 0, 0, 0, [], map[], map[]) && w == View(2, 1, 0, 0, [1], map[1 := 2], map[1 := 0])
    requires h == Plain(1, 1, 0, 0) && r == Confirmation([1], -1)
    ensures Step(v, w, h, 2, r)
  {
    CountOne([], 2);
    assert [] + [1] == [1];
    LastIrreversibleIsLargestSupported(w.implied, 0);
  }

  /** Block 3, by producer 1 again, claiming 65535 confirmations. */
  lemma View3(v: View, w: View, h: Header, r: Confirmation)
    requires v == View(2, 1, 0, 0, [1], Pair(0, 2), Pair(0, 0)) && w == View(3, 3, 2, 0, [1], Pair(0, 3), Pair(0, 0))
    requires h == Plain(3, 1, 0, 0xFFFF) && r == Confirmation([1], 0)
    ensures Step(v, w, h, 2, r)
  {
    CountBoth(v.counts + [2], h.confirmed + 1);
    PairIrreversible(0, 0, 0);
    PairUpdate(0, 2, 3);
    PairUpdate(0, 0, 0);
    ConfirmsBeyond(2, 3);
  }

  /** Block 4, by producer 0, confirms only itself. */
  lemma View4(v: View, w: View, h: Header, r: Confirmation)
    requires v == View(3, 3, 2, 0, [1], Pair(0, 3), Pair(0, 0)) && w == View(4, 4, 2, 0, [1, 1], Pair(4, 3), Pair(2, 0))
    requires h == Plain(4, 0, 0, 0) && r == Confirmation([1, 1], -1)
    ensures Step(v, w, h, 2, r)
  {
    CountOne(v.counts, 2);
    assert [1] + [1] == [1, 1];
    PairIrreversible(2, 0, 0);
    PairUpdate(0, 3, 4);
    PairUpdate(0, 0, 2);
    ConfirmsWithin(0, 4, 0);
  }

  /** So does block 5, by producer 1. */
  lemma View5(v: View, w: View, h: Header, r: Confirmation)
    requires v == View(4, 4, 2, 0, [1, 1], Pair(4, 3), Pair(2, 0)) && w == View(5, 5, 2, 2, [1, 1, 1], Pair(4, 5), Pair(2, 2))
    requires h == Plain(5, 1, 0, 0) && r == Confirmation([1, 1, 1], -1)
    ensures Step(v, w, h, 2, r)
  {
    CountOne(v.counts, 2);
    assert [1, 1] + [1] == [1, 1, 1];
    PairIrreversible(2, 2, 2);
    PairUpdate(4, 3, 5);
    PairUpdate(2, 0, 2);
    ConfirmsWithin(3, 5, 0);
  }

  // ----- The chain -----

  ghost predicate Here(g: State, headers: seq<Header>, c: Chain, v: View)
  {
    Reached(g, 1, headers, c) && At(c.state, PAIR, NOBODY, 0, v)
  }

  predicate Start(g: State)
  {
    Genesis(g) && g.active == PAIR && g.slot == 0
  }

  lemma InitialCarry(last: map<Name, int>, implied: map<Name, int>)
    requires last == map[1 := 2] && implied == map[1 := 0]
    ensures CarryOver(PAIR.producers, last, 0)[1 := 2] == Pair(0, 2)
    ensures CarryOver(PAIR.producers, implied, 0) == Pair(0, 0)
  {
    CarryOverIs(PAIR.producers, last, 0, Pair(0, 2));
    CarryOverIs(PAIR.producers, implied, 0, Pair(0, 0));
    PairUpdate(0, 2, 2);
  }

  lemma PairInTurn(s: State, h: Header)
    requires s.active == PAIR && h.scheduleVersion == 0 && h.slot % 2 == h.producer
    ensures InTurn(s, h) && Required(|s.active.producers|) == 2
  {
    TurnOfPair(h.slot);
  }

  /** The first block puts the initial schedule into force. */
  lemma FirstBlock(g: State) returns (headers: seq<Header>, c: Chain)
    requires Start(g)
    ensures Here(g, headers, c, View(2, 1, 0, 0, [1], Pair(0, 2), Pair(0, 0)))
    ensures c.blocks == [Block(1, 0, PAIR.producers)]
  {
    var b, h, r := Chain(g, [], 0, true), Plain(1, 1, 0, 0), Confirmation([1], -1);
    var v := View(2, 1, 0, 0, [1], map[1 := 2], map[1 := 0]);
    View2(ViewOf(g), v, h, r);
    InitialCarry(v.last, v.implied);
    PairInTurn(g, h);
    headers, c := SwitchLink(g, [], b, h, r, v, Pair(0, 2), Pair(0, 0));
  }

  lemma PairBlock(c: Chain, h: Header, r: Confirmation, w: View) returns (d: Chain)
    requires At(c.state, PAIR, NOBODY, 0, ViewOf(c.state)) && Step(ViewOf(c.state), w, h, 2, r)
    requires h.newProducers.None? && h.scheduleVersion == 0 && h.slot % 2 == h.producer
    ensures Accepted(c, 1, h) && d == Extend(c, h) && At(d.state, PAIR, NOBODY, 0, w)
    ensures d.blocks == c.blocks + [Block(h.producer, h.confirmed, PAIR.producers)]
  {
    PairInTurn(c.state, h);
    QuietBlock(c, h, r, w);
    d := Extend(c, h);
  }

  lemma SecondBlock(g: State) returns (headers: seq<Header>, c: Chain)
    requires Start(g)
    ensures Here(g, headers, c, View(3, 3, 2, 0, [1], Pair(0, 3), Pair(0, 0)))
    ensures c.blocks == [Block(1, 0, PAIR.producers), Block(1, 0xFFFF, PAIR.producers)]
  {
    var before, b := FirstBlock(g);
    var h, r, w := Plain(3, 1, 0, 0xFFFF), Confirmation([1], 0), View(3, 3, 2, 0, [1], Pair(0, 3), Pair(0, 0));
    View3(ViewOf(b.state), w, h, r);
    c := PairBlock(b, h, r, w);
    headers := Link(g, before, b, h, c);
  }

  lemma ThirdBlock(g: State) returns (headers: seq<Header>, c: Chain)
    requires Start(g)
    ensures Here(g, headers, c, View(4, 4, 2, 0, [1, 1], Pair(4, 3), Pair(2, 0)))
    ensures OnlyFirstClaims(c.blocks)
  {
    var before, b := SecondBlock(g);
    var h, r, w := Plain(4, 0, 0, 0), Confirmation([1, 1], -1), View(4, 4, 2, 0, [1, 1], Pair(4, 3), Pair(2, 0));
    View4(ViewOf(b.state), w, h, r);
    c := PairBlock(b, h, r, w);
    ClaimsNothing(b.blocks, Block(0, 0, PAIR.producers));
    headers := Link(g, before, b, h, c);
  }

  lemma FourthBlock(g: State) returns (headers: seq<Header>, c: Chain)
    requires Start(g)
    ensures Here(g, headers, c, View(5, 5, 2, 2, [1, 1, 1], Pair(4, 5), Pair(2, 2)))
    ensures OnlyFirstClaims(c.blocks)
  {
    var before, b := ThirdBlock(g);
    var h, r, w := Plain(5, 1, 0, 0), Confirmation([1, 1, 1], -1), View(5, 5, 2, 2, [1, 1, 1], Pair(4, 5), Pair(2, 2));
    View5(ViewOf(b.state), w, h, r);
    c := PairBlock(b, h, r, w);
    ClaimsNothing(b.blocks, Block(1, 0, PAIR.producers));
    headers := Link(g, before, b, h, c);
  }

  // ----- Who confirmed block 2 -----

  /** The first two blocks are producer 1's, and no later block confirms another. */
  predicate OnlyFirstClaims(blocks: seq<Block>)
  {
    && |blocks| >= 2 && blocks[0].producer == blocks[1].producer == 1 && blocks[0].schedule == PAIR.producers
    && forall j :: 2 <= j < |blocks| ==> blocks[j].confirmed == 0
  }

  lemma ClaimsNothing(blocks: seq<Block>, k: Block)
    requires OnlyFirstClaims(blocks) && k.confirmed == 0
    ensures OnlyFirstClaims(blocks + [k])
  {
  }

  lemma OnlyOneConfirms(blocks: seq<Block>)
    requires OnlyFirstClaims(blocks)
    ensures Confirmers(blocks, 2) == {1} && Needed(blocks, 2) == 2
  {
    assert Confirms(blocks, 0, 2);
    assert blocks[0].producer in Confirmers(blocks, 2);
  }

  function Origin(): State
  {
    State(1, 0, 0, 0, 0, 0, PAIR, PAIR, map[], map[], [])
  }

  /** After two blocks of one producer, a block is proposed that only that producer confirmed, where
      two confirmations are needed. */
  lemma ProposedByOne() returns (g: State, headers: seq<Header>, c: Chain)
    ensures Reached(g, 1, headers, c) && !c.sound
    ensures c.state.proposed == 2 && Confirmers(c.blocks, 2) == {1} && Needed(c.blocks, 2) == 2
  {
    g := Origin();
    headers, c := SecondBlock(g);
    OnlyOneConfirms(c.blocks);
    if c.sound { IrreversibleIsConfirmed(g, 1, headers, c); }
  }

  /** Two more blocks make it irreversible. */
  lemma IrreversibleByOne() returns (g: State, headers: seq<Header>, c: Chain)
    ensures Reached(g, 1, headers, c) && !c.sound
    ensures c.state.irreversible == 2 && Confirmers(c.blocks, 2) == {1} && Needed(c.blocks, 2) == 2
  {
    g := Origin();
    headers, c := FourthBlock(g);
    OnlyOneConfirms(c.blocks);
    if c.sound { IrreversibleIsConfirmed(g, 1, headers, c); }
  }
}
