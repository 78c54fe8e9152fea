/** Single blocks of concrete chains: what a header does to the part of the state that changes from
    block to block. */
module Traces {
  import opened Wrappers
  import opened Varint
  import opened Quorum
  import opened HeaderState
  import opened Chains

  /** The changing part of a state. */
  datatype View = View(num: nat, slot: nat, proposed: int, irreversible: int, counts: seq<int>,
                       last: map<Name, int>, implied: map<Name, int>)

  function ViewOf(s: State): View
  {
    View(s.blockNum, s.slot, s.proposed, s.irreversible, s.confirmCount, s.lastProduced, s.impliedIrb)
  }

  /** A state by its schedules and its changing part. */
  predicate At(s: State, active: Schedule, pending: Schedule, pendingLib: nat, v: View)
  {
    s.active == active && s.pending == pending && s.pendingLib == pendingLib && ViewOf(s) == v
  }

  function Plain(slot: nat, p: Name, version: nat, confirmed: uint16): Header
  {
    Header(slot, p, version, confirmed, None)
  }

  /** What counting the confirmations of a block makes of the changing part. */
  ghost predicate Follows(v: View, w: View, h: Header, r: Confirmation)
  {
    && w.num == v.num + 1 && w.slot == h.slot
    && w.last == v.last[h.producer := v.num + 1]
    && w.implied == v.implied[h.producer := v.proposed]
    && w.irreversible == LastIrreversible(w.implied)
    && w.counts == r.counts
    && w.proposed == if r.hit < 0 then v.proposed else v.num + 1 - (|v.counts| - r.hit)
  }

  /** A header that passes the checks, and the view it leads to. */
  ghost predicate Step(v: View, w: View, h: Header, needed: nat, r: Confirmation)
  {
    && v.slot < h.slot && v.num < 100 && |v.counts| < 10
    && (h.producer in v.last ==> ConfirmsAfter(v.last[h.producer], v.num + 1, h.confirmed))
    && r == CountDown(v.counts + [needed], h.confirmed + 1)
    && Follows(v, w, h, r)
  }

  /** It is the turn of the header's producer. */
  predicate InTurn(s: State, h: Header)
  {
    && Sized(s.active.producers) && h.scheduleVersion == s.active.version
    && ScheduledProducer(s.active.producers, 1, h.slot) == h.producer
  }

  lemma ConfirmsWithin(last: int, num: nat, confirmed: uint16)
    requires num < 100 && confirmed <= num && 0 <= last < num - confirmed
    ensures ConfirmsAfter(last, num, confirmed)
  {
    Wrap32Value(0, num - confirmed);
  }

  /** A claim beyond the chain always passes: the difference wraps to a huge number. */
  lemma ConfirmsBeyond(last: int, num: nat)
    requires num < 100 && 0 <= last <= num
    ensures ConfirmsAfter(last, num, 0xFFFF)
  {
    Wrap32Value(-1, TWO_32 + num - 0xFFFF);
  }

  lemma PushedIs(s: State, counts: seq<int>)
    requires |s.confirmCount| < MAX_TRACKED && Sized(s.active.producers)
    requires counts == s.confirmCount + [Required(|s.active.producers|)]
    ensures Pushed(s) == counts
  {
  }

  lemma CountedView(s: State, h: Header, r: Confirmation, w: View)
    requires Sized(s.active.producers) && Step(ViewOf(s), w, h, Required(|s.active.producers|), r)
    ensures var t := SetConfirmed(StartBlock(s, h.producer, h.slot), h.confirmed);
            && ViewOf(t) == w && t.producer == h.producer
            && t.active == s.active && t.pending == s.pending && t.pendingLib == s.pendingLib
  {
    var counts := s.confirmCount + [Required(|s.active.producers|)];
    PushedIs(s, counts);
    ConfirmedIs(StartBlock(s, h.producer, h.slot), h.confirmed, r);
  }

  /** A block that announces nothing and puts nothing into force. */
  lemma QuietBlock(c: Chain, h: Header, r: Confirmation, w: View)
    requires InTurn(c.state, h) && h.newProducers.None?
    requires Step(ViewOf(c.state), w, h, Required(|c.state.active.producers|), r)
    requires c.state.pending.producers == [] || w.irreversible < c.state.pendingLib
    ensures Accepted(c, 1, h)
    ensures At(Extend(c, h).state, c.state.active, c.state.pending, c.state.pendingLib, w)
  {
    CountedView(c.state, h, r, w);
  }

  lemma CarryOverIs(producers: seq<Name>, known: map<Name, int>, newcomers: int, r: map<Name, int>)
    requires forall p :: p in r <==> p in producers
    requires forall p :: p in r ==> r[p] == if p in known then known[p] else newcomers
    ensures CarryOver(producers, known, newcomers) == r
  {
  }

  /** A block that puts the pending schedule into force; `v` is the view before that. */
  lemma SwitchingBlock(c: Chain, h: Header, r: Confirmation, v: View, last: map<Name, int>, implied: map<Name, int>)
    requires InTurn(c.state, h) && h.newProducers.None?
    requires Step(ViewOf(c.state), v, h, Required(|c.state.active.producers|), r)
    requires c.state.pending.producers != [] && v.irreversible >= c.state.pendingLib
    requires last == CarryOver(c.state.pending.producers, v.last, v.irreversible)[h.producer := v.num]
    requires implied == CarryOver(c.state.pending.producers, v.implied, v.irreversible)
    ensures Accepted(c, 1, h)
    ensures At(Extend(c, h).state, c.state.pending, c.state.pending.(producers := []), c.state.pendingLib,
               v.(last := last, implied := implied))
  {
    CountedView(c.state, h, r, v);
  }

  /** A block that announces a schedule. */
  lemma AnnouncingBlock(c: Chain, h: Header, r: Confirmation, w: View)
    requires InTurn(c.state, h) && h.newProducers.Some?
    requires Step(ViewOf(c.state), w, h, Required(|c.state.active.producers|), r)
    requires c.state.pending.producers == [] && h.newProducers.value.version == c.state.active.version + 1
    requires |h.newProducers.value.producers| <= MAX_PRODUCERS
    ensures Accepted(c, 1, h)
    ensures At(Extend(c, h).state, c.state.active, h.newProducers.value, w.num, w)
  {
    CountedView(c.state, h, r, w);
  }

  /** One more header of a chain. */
  lemma Link(g: State, headers: seq<Header>, c: Chain, h: Header, d: Chain) returns (longer: seq<Header>)
    requires Reached(g, 1, headers, c) && Accepted(c, 1, h) && d == Extend(c, h)
    ensures Reached(g, 1, longer, d)
  {
    ReachedNext(g, 1, headers, c, h);
    longer := headers + [h];
  }

  /** A chain that goes on with a block that puts the pending schedule into force. */
  lemma SwitchLink(g: State, headers: seq<Header>, c: Chain, h: Header, r: Confirmation, v: View,
                   last: map<Name, int>, implied: map<Name, int>)
    returns (longer: seq<Header>, d: Chain)
    requires Reached(g, 1, headers, c) && InTurn(c.state, h) && h.newProducers.None?
    requires Step(ViewOf(c.state), v, h, Required(|c.state.active.producers|), r)
    requires c.state.pending.producers != [] && v.irreversible >= c.state.pendingLib
    requires last == CarryOver(c.state.pending.producers, v.last, v.irreversible)[h.producer := v.num]
    requires implied == CarryOver(c.state.pending.producers, v.implied, v.irreversible)
    ensures Reached(g, 1, longer, d) && d.blocks == c.blocks + [BlockOf(c.state, h)]
    ensures At(d.state, c.state.pending, c.state.pending.(producers := []), c.state.pendingLib,
               v.(last := last, implied := implied))
  {
    SwitchingBlock(c, h, r, v, last, implied);
    d := Extend(c, h);
    longer := Link(g, headers, c, h, d);
  }

  // ----- Small cases of counting -----

  function One(x: int, bound: int): int
  {
    if x >= bound then 1 else 0
  }

  lemma SupportersOne(a: int, x: int)
    ensures |Supporters(map[0 := a], x)| == One(a, x)
  {
    var m := map[0 := a];
    SupportersStep(m, 0, x);
    assert Supporters(m - {0}, x) == {};
  }

  lemma CountOne(front: seq<int>, x: int)
    requires x > 1
    ensures CountDown(front + [x], 1) == Confirmation(front + [x - 1], -1)
  {
    CountDownLonger(front, x, 0);
  }
}
