/** The number taken as irreversible across changes of schedule. A producer that stays keeps what it
    implied before, however old, so the first block of a new schedule can lower that number. */
module Switching {
  import opened Wrappers
  import opened Quorum
  import opened HeaderState
  import opened Chains
  import opened Traces

  /** What the producers imply once the next block is counted. */
  function ImpliedAfter(s: State, p: Name): map<Name, int>
  {
    s.impliedIrb[p := s.proposed]
  }

  lemma NextIrreversible(c: Chain, h: Header)
    ensures Extend(c, h).state.irreversible == LastIrreversible(ImpliedAfter(c.state, h.producer))
  {
  }

  /** Unless the last block put a new schedule into force, the irreversible number is no higher
      than what the producers on record imply. */
  ghost predicate Settled(c: Chain)
  {
    c.blocks == [] || c.switched == c.state.blockNum ||
    c.state.irreversible <= LastIrreversible(c.state.impliedIrb)
  }

  lemma ExtendSettled(b: Chain, h: Header)
    ensures Settled(Extend(b, h))
  {
    var d := Confirmed(b, h);
    assert d.state.irreversible == LastIrreversible(d.state.impliedIrb);
  }

  lemma ReachedSettled(g: State, reps: nat, headers: seq<Header>, c: Chain)
    requires reps > 0 && Reached(g, reps, headers, c)
    ensures Settled(c)
  {
    if headers != [] {
      var b := ReachedBefore(g, reps, headers, c);
      ExtendSettled(b, headers[|headers| - 1]);
    }
  }

  lemma SettledKeepsUp(c: Chain, h: Header)
    requires Shape(c) && h.producer in c.state.active.producers
    requires c.blocks != [] && c.state.irreversible <= LastIrreversible(c.state.impliedIrb)
    ensures c.state.irreversible <= Extend(c, h).state.irreversible
  {
    NextIrreversible(c, h);
    LastIrreversibleMonotone(c.state.impliedIrb, h.producer, c.state.proposed);
  }

  /** On every chain, the irreversible number goes back only in the block right after one that put a
      new schedule into force. */
  lemma IrreversibleGoesBackOnlyAfterSwitch(g: State, reps: nat, headers: seq<Header>, c: Chain, h: Header)
    requires reps > 0 && Reached(g, reps, headers, c) && Accepted(c, reps, h)
    requires Extend(c, h).state.irreversible < c.state.irreversible
    ensures c.blocks != [] && c.switched == c.state.blockNum
  {
    ReachedShape(g, reps, headers, c);
    ReachedSettled(g, reps, headers, c);
    AcceptedAdmitted(c, reps, h);
    if c.blocks == [] {
      StartsAtZero(g, reps, headers, c);
      ExtendShape(c, h);
    } else if c.switched != c.state.blockNum {
      SettledKeepsUp(c, h);
    }
  }

  lemma StartsAtZero(g: State, reps: nat, headers: seq<Header>, c: Chain)
    requires reps > 0 && Reached(g, reps, headers, c) && c.blocks == []
    ensures c.state.irreversible == 0
  {
    ReachedShape(g, reps, headers, c);
  }

  /** The irreversible number goes back exactly when, of the producers on record and the producer of
      the block, fewer than required imply it. That happens only in the block right after one that
      put a new schedule into force. */
  lemma IrreversibleGoesBackExactly(g: State, reps: nat, headers: seq<Header>, c: Chain, h: Header)
    requires reps > 0 && Reached(g, reps, headers, c) && Accepted(c, reps, h)
    ensures var m := ImpliedAfter(c.state, h.producer);
            var back := Extend(c, h).state.irreversible < c.state.irreversible;
            && (back <==> |Supporters(m, c.state.irreversible)| < Required(|m|))
            && (back ==> c.blocks != [] && c.switched == c.state.blockNum)
  {
    var m := ImpliedAfter(c.state, h.producer);
    assert h.producer in m;
    NextIrreversible(c, h);
    LastIrreversibleReaches(m, c.state.irreversible);
    if Extend(c, h).state.irreversible < c.state.irreversible {
      IrreversibleGoesBackOnlyAfterSwitch(g, reps, headers, c, h);
    }
  }

  // ----- A chain on which it does -----

  const FOUR: Schedule := Schedule(0, [0, 1, 2, 3])
  const TWO: Schedule := Schedule(1, [0, 4])

  function Entries(a: int, b: int, c: int, d: int): map<Name, int>
  {
    map[0 := a, 1 := b, 2 := c, 3 := d]
  }

  lemma EntrySupporters(a: int, b: int, c: int, d: int, x: int)
    ensures |Entries(a, b, c, d)| == 4
    ensures |Supporters(Entries(a, b, c, d), x)| == One(a, x) + One(b, x) + One(c, x) + One(d, x)
  {
    var m4, m3, m2 := Entries(a, b, c, d), map[0 := a, 1 := b, 2 := c], map[0 := a, 1 := b];
    assert m4.Keys == {0, 1, 2, 3};
    SupportersStep(m4, 3, x);
    assert m4 - {3} == m3;
    SupportersStep(m3, 2, x);
    assert m3 - {2} == m2;
    SupportersStep(m2, 1, x);
    assert m2 - {1} == map[0 := a];
    SupportersOne(a, x);
  }

  /** With four producers, three have to reach a number. */
  lemma EntriesIrreversible(a: int, b: int, c: int, d: int, x: int)
    requires One(a, x) + One(b, x) + One(c, x) + One(d, x) >= 3
    requires One(a, x + 1) + One(b, x + 1) + One(c, x + 1) + One(d, x + 1) < 3
    ensures LastIrreversible(Entries(a, b, c, d)) == x
  {
    EntrySupporters(a, b, c, d, x);
    EntrySupporters(a, b, c, d, x + 1);
    LastIrreversibleReaches(Entries(a, b, c, d), x);
    LastIrreversibleReaches(Entries(a, b, c, d), x + 1);
  }

  lemma EntriesUpdate(a: int, b: int, c: int, d: int, x: int)
    ensures Entries(a, b, c, d)[0 := x] == Entries(x, b, c, d)
    ensures Entries(a, b, c, d)[1 := x] == Entries(a, x, c, d)
    ensures Entries(a, b, c, d)[2 := x] == Entries(a, b, x, d)
    ensures Entries(a, b, c, d)[3 := x] == Entries(a, b, c, x)
  {
  }

  lemma TurnOfFour(slot: nat)
    ensures ScheduledProducer(FOUR.producers, 1, slot) == slot % 4
  {
    assert FOUR.producers[slot % 4] == slot % 4;
  }

  lemma TurnOfTwo(slot: nat)
    requires slot % 2 == 1
    ensures ScheduledProducer(TWO.producers, 1, slot) == 4
  {
    assert TWO.producers[1] == 4;
  }

  lemma CountSecond(counts: seq<int>)
    requires counts == [2] + [3]
    ensures CountDown(counts, 2) == Confirmation([1, 2], -1)
  {
    CountDownLonger([2], 3, 1);
    CountOne([], 2);
    assert [] + [2] == [2] && [] + [1] + [2] == [1, 2];
  }

  lemma CountThird(counts: seq<int>)
    requires counts == [1, 2] + [3]
    ensures CountDown(counts, 3) == Confirmation([1, 2], 0)
  {
    CountDownLonger([1, 2], 3, 2);
    CountDownLonger([1], 2, 1);
    CountDownLonger([], 1, 0);
    assert [1] + [2] == [1, 2] && [] + [1] == [1];
  }

  // ----- The views, by block number; producer 0 never takes its turn -----

  lemma View2(v: View, w: View, h: Header, r: Confirmation)
    requires v == View(1, 0, 0, 0, [], map[], map[]) && w == View(2, 1, 0, 0, [2], map[1 := 2], map[1 := 0])
    requires h == Plain(1, 1, 0, 0) && r == Confirmation([2], -1)
    ensures Step(v, w, h, 3, r)
  {
    CountOne([], 3);
    assert [] + [2] == [2];
    LastIrreversibleIsLargestSupported(w.implied, 0);
  }

  lemma View3(v: View, w: View, h: Header, r: Confirmation)
    requires v == View(2, 1, 0, 0, [2], Entries(0, 2, 0, 0), Entries(0, 0, 0, 0))
    requires w == View(3, 2, 0, 0, [1, 2], Entries(0, 2, 3, 0), Entries(0, 0, 0, 0))
    requires h == Header(2, 2, 0, 1, Some(TWO)) && r == Confirmation([1, 2], -1)
    ensures Step(v, w, h, 3, r)
  {
    CountSecond(v.counts + [3]);
    EntriesIrreversible(0, 0, 0, 0, 0);
    EntriesUpdate(0, 2, 0, 0, 3);
    EntriesUpdate(0, 0, 0, 0, 0);
    ConfirmsWithin(0, 3, 1);
  }

  /** A block of the old schedule that confirms itself and the two blocks before it. */
  lemma ViewMiddle(v: View, w: View, h: Header, r: Confirmation, last: int)
    requires 2 <= v.num < 50 && v.slot < h.slot && v.counts == [1, 2] && h.confirmed == 2 && r == Confirmation([1, 2], 0)
    requires h.producer in v.last && v.last[h.producer] == last && 0 <= last < v.num - 1
    requires w == View(v.num + 1, h.slot, v.num - 1, LastIrreversible(w.implied), [1, 2],
                       v.last[h.producer := v.num + 1], v.implied[h.producer := v.proposed])
    ensures Step(v, w, h, 3, r)
  {
    CountThird(v.counts + [3]);
    ConfirmsWithin(last, v.num + 1, 2);
  }

  function Old(num: nat, slot: nat, proposed: int, irreversible: int, last: map<Name, int>, implied: map<Name, int>): View
  {
    View(num, slot, proposed, irreversible, [1, 2], last, implied)
  }

  // ----- The chain -----

  ghost predicate Here(g: State, headers: seq<Header>, c: Chain, v: View)
  {
    Reached(g, 1, headers, c) && At(c.state, FOUR, TWO, 3, v)
  }

  predicate Start(g: State)
  {
    Genesis(g) && g.active == FOUR && g.slot == 0
  }

  lemma InitialCarry(last: map<Name, int>, implied: map<Name, int>)
    requires last == map[1 := 2] && implied == map[1 := 0]
    ensures CarryOver(FOUR.producers, last, 0)[1 := 2] == Entries(0, 2, 0, 0)
    ensures CarryOver(FOUR.producers, implied, 0) == Entries(0, 0, 0, 0)
  {
    CarryOverIs(FOUR.producers, last, 0, Entries(0, 2, 0, 0));
    CarryOverIs(FOUR.producers, implied, 0, Entries(0, 0, 0, 0));
    EntriesUpdate(0, 2, 0, 0, 2);
  }

  lemma FourInTurn(s: State, h: Header)
    requires s.active == FOUR && h.scheduleVersion == 0 && h.slot % 4 == h.producer
    ensures InTurn(s, h) && Required(|s.active.producers|) == 3
  {
    TurnOfFour(h.slot);
  }

  lemma FirstFrom(g: State, b: Chain, h: Header, r: Confirmation, v: View) returns (headers: seq<Header>, c: Chain)
    requires Reached(g, 1, [], b) && At(b.state, FOUR, FOUR, 0, ViewOf(b.state))
    requires v == View(2, 1, 0, 0, [2], map[1 := 2], map[1 := 0]) && h == Plain(1, 1, 0, 0)
    requires Step(ViewOf(b.state), v, h, 3, r)
    ensures Reached(g, 1, headers, c)
    ensures At(c.state, FOUR, Schedule(0, []), 0, View(2, 1, 0, 0, [2], Entries(0, 2, 0, 0), Entries(0, 0, 0, 0)))
  {
    InitialCarry(v.last, v.implied);
    FourInTurn(b.state, h);
    headers, c := SwitchLink(g, [], b, h, r, v, Entries(0, 2, 0, 0), Entries(0, 0, 0, 0));
  }

  /** The first block puts the initial schedule into force. */
  lemma FirstBlock(g: State) returns (headers: seq<Header>, c: Chain)
    requires Start(g)
    ensures Reached(g, 1, headers, c)
    ensures At(c.state, FOUR, Schedule(0, []), 0, View(2, 1, 0, 0, [2], Entries(0, 2, 0, 0), Entries(0, 0, 0, 0)))
  {
    var h, r, v := Plain(1, 1, 0, 0), Confirmation([2], -1), View(2, 1, 0, 0, [2], map[1 := 2], map[1 := 0]);
    View2(ViewOf(g), v, h, r);
    headers, c := FirstFrom(g, Chain(g, [], 0, true), h, r, v);
  }

  lemma SecondStep(c: Chain, h: Header, r: Confirmation, w: View) returns (d: Chain)
    requires At(c.state, FOUR, Schedule(0, []), 0, ViewOf(c.state)) && Step(ViewOf(c.state), w, h, 3, r)
    requires h == Header(2, 2, 0, 1, Some(TWO)) && w.num == 3
    ensures Accepted(c, 1, h) && d == Extend(c, h) && At(d.state, FOUR, TWO, 3, w)
  {
    FourInTurn(c.state, h);
    AnnouncingBlock(c, h, r, w);
    d := Extend(c, h);
  }

  /** The second announces the schedule that is to come. */
  lemma SecondBlock(g: State) returns (headers: seq<Header>, c: Chain)
    requires Start(g)
    ensures Here(g, headers, c, Old(3, 2, 0, 0, Entries(0, 2, 3, 0), Entries(0, 0, 0, 0)))
  {
    var before, b := FirstBlock(g);
    var h, r := Header(2, 2, 0, 1, Some(TWO)), Confirmation([1, 2], -1);
    var w := Old(3, 2, 0, 0, Entries(0, 2, 3, 0), Entries(0, 0, 0, 0));
    View3(ViewOf(b.state), w, h, r);
    c := SecondStep(b, h, r, w);
    headers := Link(g, before, b, h, c);
  }

  /** Until enough producers imply block 3, nothing changes but the numbers. */
  lemma MiddleStep(c: Chain, h: Header, r: Confirmation, w: View) returns (d: Chain)
    requires At(c.state, FOUR, TWO, 3, ViewOf(c.state)) && Step(ViewOf(c.state), w, h, 3, r)
    requires h.newProducers.None? && h.scheduleVersion == 0 && h.slot % 4 == h.producer && w.irreversible < 3
    ensures Accepted(c, 1, h) && d == Extend(c, h) && At(d.state, FOUR, TWO, 3, w)
  {
    FourInTurn(c.state, h);
    QuietBlock(c, h, r, w);
    d := Extend(c, h);
  }

  lemma MiddleBlock(g: State, before: seq<Header>, b: Chain, v: View, h: Header, w: View, last: int)
    returns (headers: seq<Header>, c: Chain)
    requires Here(g, before, b, v)
    requires 2 <= v.num < 50 && v.slot < h.slot && v.counts == [1, 2] && h == Plain(h.slot, h.slot % 4, 0, 2)
    requires h.producer in v.last && v.last[h.producer] == last && 0 <= last < v.num - 1
    requires w == Old(v.num + 1, h.slot, v.num - 1, LastIrreversible(w.implied),
                      v.last[h.producer := v.num + 1], v.implied[h.producer := v.proposed])
    requires w.irreversible < 3
    ensures Here(g, headers, c, w)
  {
    var r := Confirmation([1, 2], 0);
    ViewMiddle(v, w, h, r, last);
    c := MiddleStep(b, h, r, w);
    headers := Link(g, before, b, h, c);
  }

  lemma ThirdBlock(g: State) returns (headers: seq<Header>, c: Chain)
    requires Start(g)
    ensures Here(g, headers, c, Old(4, 3, 2, 0, Entries(0, 2, 3, 4), Entries(0, 0, 0, 0)))
  {
    var before, b := SecondBlock(g);
    EntriesIrreversible(0, 0, 0, 0, 0);
    EntriesUpdate(0, 2, 3, 0, 4);
    EntriesUpdate(0, 0, 0, 0, 0);
    headers, c := MiddleBlock(g, before, b, ViewOf(b.state), Plain(3, 3, 0, 2),
                              Old(4, 3, 2, 0, Entries(0, 2, 3, 4), Entries(0, 0, 0, 0)), 0);
  }

  lemma FourthBlock(g: State) returns (headers: seq<Header>, c: Chain)
    requires Start(g)
    ensures Here(g, headers, c, Old(5, 5, 3, 0, Entries(0, 5, 3, 4), Entries(0, 2, 0, 0)))
  {
    var before, b := ThirdBlock(g);
    EntriesIrreversible(0, 2, 0, 0, 0);
    EntriesUpdate(0, 2, 3, 4, 5);
    EntriesUpdate(0, 0, 0, 0, 2);
    headers, c := MiddleBlock(g, before, b, ViewOf(b.state), Plain(5, 1, 0, 2),
                              Old(5, 5, 3, 0, Entries(0, 5, 3, 4), Entries(0, 2, 0, 0)), 2);
  }

  lemma FifthBlock(g: State) returns (headers: seq<Header>, c: Chain)
    requires Start(g)
    ensures Here(g, headers, c, Old(6, 6, 4, 0, Entries(0, 5, 6, 4), Entries(0, 2, 3, 0)))
  {
    var before, b := FourthBlock(g);
    EntriesIrreversible(0, 2, 3, 0, 0);
    EntriesUpdate(0, 5, 3, 4, 6);
    EntriesUpdate(0, 2, 0, 0, 3);
    headers, c := MiddleBlock(g, before, b, ViewOf(b.state), Plain(6, 2, 0, 2),
                              Old(6, 6, 4, 0, Entries(0, 5, 6, 4), Entries(0, 2, 3, 0)), 3);
  }

  lemma SixthBlock(g: State) returns (headers: seq<Header>, c: Chain)
    requires Start(g)
    ensures Here(g, headers, c, Old(7, 7, 5, 2, Entries(0, 5, 6, 7), Entries(0, 2, 3, 4)))
  {
    var before, b := FifthBlock(g);
    EntriesIrreversible(0, 2, 3, 4, 2);
    EntriesUpdate(0, 5, 6, 4, 7);
    EntriesUpdate(0, 2, 3, 0, 4);
    headers, c := MiddleBlock(g, before, b, ViewOf(b.state), Plain(7, 3, 0, 2),
                              Old(7, 7, 5, 2, Entries(0, 5, 6, 7), Entries(0, 2, 3, 4)), 4);
  }

  lemma View8(v: View, w: View, h: Header, r: Confirmation)
    requires v == Old(7, 7, 5, 2, Entries(0, 5, 6, 7), Entries(0, 2, 3, 4))
    requires w == Old(8, 9, 6, 3, Entries(0, 8, 6, 7), Entries(0, 5, 3, 4))
    requires h == Plain(9, 1, 0, 2) && r == Confirmation([1, 2], 0)
    ensures Step(v, w, h, 3, r)
  {
    EntriesIrreversible(0, 5, 3, 4, 3);
    EntriesUpdate(0, 5, 6, 7, 8);
    EntriesUpdate(0, 2, 3, 4, 5);
    ViewMiddle(v, w, h, r, 5);
  }

  lemma LaterCarry(last: map<Name, int>, implied: map<Name, int>)
    requires last == Entries(0, 8, 6, 7) && implied == Entries(0, 5, 3, 4)
    ensures CarryOver(TWO.producers, last, 3)[1 := 8] == map[0 := 0, 4 := 3, 1 := 8]
    ensures CarryOver(TWO.producers, implied, 3) == map[0 := 0, 4 := 3]
  {
    CarryOverIs(TWO.producers, last, 3, map[0 := 0, 4 := 3]);
    CarryOverIs(TWO.producers, implied, 3, map[0 := 0, 4 := 3]);
  }

  /** Block 3 becomes irreversible, and the announced schedule comes into force. */
  lemma SeventhBlock(g: State) returns (headers: seq<Header>, c: Chain)
    requires Start(g)
    ensures Reached(g, 1, headers, c)
    ensures At(c.state, TWO, Schedule(1, []), 3, Old(8, 9, 6, 3, map[0 := 0, 4 := 3, 1 := 8], map[0 := 0, 4 := 3]))
  {
    var before, b := SixthBlock(g);
    var h, r := Plain(9, 1, 0, 2), Confirmation([1, 2], 0);
    var v := Old(8, 9, 6, 3, Entries(0, 8, 6, 7), Entries(0, 5, 3, 4));
    View8(ViewOf(b.state), v, h, r);
    LaterCarry(v.last, v.implied);
    FourInTurn(b.state, h);
    headers, c := SwitchLink(g, before, b, h, r, v, map[0 := 0, 4 := 3, 1 := 8], map[0 := 0, 4 := 3]);
  }

  /** The newcomer's first block is accepted. */
  lemma LastAccepted(c: Chain, h: Header)
    requires At(c.state, TWO, Schedule(1, []), 3, Old(8, 9, 6, 3, map[0 := 0, 4 := 3, 1 := 8], map[0 := 0, 4 := 3]))
    requires h == Plain(11, 4, 1, 0)
    ensures Accepted(c, 1, h)
  {
    TurnOfTwo(11);
    ConfirmsWithin(3, 9, 0);
  }

  /** Producer 0 has implied nothing so far. */
  lemma LastNumber(m: map<Name, int>)
    requires m == map[0 := 0, 4 := 6]
    ensures LastIrreversible(m) == 0
  {
    assert m.Keys == {0, 4};
    assert Supporters(m, 0) == {0, 4} && Supporters(m, 1) == {4};
    LastIrreversibleReaches(m, 0);
    LastIrreversibleReaches(m, 1);
  }

  lemma LastLowers(c: Chain, h: Header)
    requires c.state.impliedIrb == map[0 := 0, 4 := 3] && c.state.proposed == 6 && h.producer == 4
    ensures Extend(c, h).state.irreversible == 0
  {
    NextIrreversible(c, h);
    LastNumber(ImpliedAfter(c.state, 4));
  }

  function Origin(): State
  {
    State(1, 0, 0, 0, 0, 0, FOUR, FOUR, map[], map[], [])
  }

  /** A chain whose next block lowers the irreversible number from 3 to 0: four producers, of
      whom one never produced, are replaced by that one and a newcomer. */
  lemma IrreversibleCanGoBack() returns (g: State, headers: seq<Header>, c: Chain, h: Header)
    ensures Reached(g, 1, headers, c) && Accepted(c, 1, h)
    ensures c.state.irreversible == 3 && Extend(c, h).state.irreversible == 0
  {
    g, h := Origin(), Plain(11, 4, 1, 0);
    headers, c := SeventhBlock(g);
    LastAccepted(c, h);
    LastLowers(c, h);
  }
}
