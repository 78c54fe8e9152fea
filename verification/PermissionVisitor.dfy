/** The visitor that the authority checker is given in the tests: a log of the permissions
    visited, and a stack that saves only the length of the log for each open undo level. It
    behaves as if every level had saved the whole log. */
module PermissionVisitor {
  import opened Wrappers

  datatype Event<P> =
    | Visit(permission: P)
    | Repeat(permission: P)
    | PushUndo
    | PopUndo
    | SquashUndo

  datatype State<P> = State(permissions: seq<P>, sizes: seq<nat>)

  /** `SizeCheck` is the assertion of pop_undo failing on a saved length beyond the log, `NoLevel`
      the assertion of squash_undo failing on an empty stack, and `Undefined` the read of the top
      of an empty stack that pop_undo does before its assertion can fail. */
  datatype Outcome<P> = Done(state: State<P>) | SizeCheck | NoLevel | Undefined

  function Step<P>(s: State<P>, e: Event<P>): Outcome<P>
  {
    var depth := |s.sizes|;
    match e
    case Visit(p) => Done(State(s.permissions + [p], s.sizes))
    case Repeat(_) => Done(s)
    case PushUndo => Done(State(s.permissions, s.sizes + [|s.permissions|]))
    case PopUndo =>
      if depth == 0 then Undefined
      else if s.sizes[depth - 1] > |s.permissions| then SizeCheck
      else Done(State(s.permissions[..s.sizes[depth - 1]], s.sizes[..depth - 1]))
    case SquashUndo =>
      if depth == 0 then NoLevel else Done(State(s.permissions, s.sizes[..depth - 1]))
  }

  function Run<P>(s: State<P>, es: seq<Event<P>>): Outcome<P>
    decreases |es|
  {
    if es == [] then Done(s)
    else
      match Step(s, es[0])
      case Done(t) => Run(t, es[1..])
      case other => other
  }

  /** The object itself. Every method leaves it as it was when the call fails. */
  class Visitor<P> {
    var permissions: seq<P>
    var sizeStack: seq<nat>

    ghost function Now(): State<P>
      reads this
    {
      State(permissions, sizeStack)
    }

    constructor ()
      ensures Now() == State([], [])
    {
      permissions, sizeStack := [], [];
    }

    method Call(permission: P)
      modifies this
      ensures Done(Now()) == Step(old(Now()), Visit(permission))
    {
      permissions := permissions + [permission];
    }

    method CallRepeat(permission: P, repeat: bool)
      ensures Done(Now()) == Step(old(Now()), Repeat(permission))
    {
    }

    method Push()
      modifies this
      ensures Done(Now()) == Step(old(Now()), PushUndo)
    {
      sizeStack := sizeStack + [|permissions|];
    }

    method Pop() returns (ok: bool)
      modifies this
      ensures ok <==> Step(old(Now()), PopUndo).Done?
      ensures if ok then Done(Now()) == Step(old(Now()), PopUndo) else Now() == old(Now())
    {
      var depth := |sizeStack|;
      if depth == 0 {
        return false;
      }
      var back := sizeStack[depth - 1];
      if back > |permissions| {
        return false;
      }
      permissions := permissions[..back];
      sizeStack := sizeStack[..depth - 1];
      ok := true;
    }

    method Squash() returns (ok: bool)
      modifies this
      ensures ok <==> Step(old(Now()), SquashUndo).Done?
      ensures if ok then Done(Now()) == Step(old(Now()), SquashUndo) else Now() == old(Now())
    {
      if |sizeStack| < 1 {
        return false;
      }
      sizeStack := sizeStack[..|sizeStack| - 1];
      ok := true;
    }
  }

  // ----- A stack of full snapshots -----

  datatype Snapshots<P> = Snapshots(current: seq<P>, saved: seq<seq<P>>)

  /** A level that is popped brings its snapshot back; a level that is squashed forgets it. */
  function Replay<P>(c: Snapshots<P>, e: Event<P>): Option<Snapshots<P>>
  {
    var depth := |c.saved|;
    match e
    case Visit(p) => Some(Snapshots(c.current + [p], c.saved))
    case Repeat(_) => Some(c)
    case PushUndo => Some(Snapshots(c.current, c.saved + [c.current]))
    case PopUndo => if depth == 0 then None else Some(Snapshots(c.saved[depth - 1], c.saved[..depth - 1]))
    case SquashUndo => if depth == 0 then None else Some(Snapshots(c.current, c.saved[..depth - 1]))
  }

  function ReplayAll<P>(c: Snapshots<P>, es: seq<Event<P>>): Option<Snapshots<P>>
    decreases |es|
  {
    if es == [] then Some(c)
    else
      match Replay(c, es[0])
      case Some(d) => ReplayAll(d, es[1..])
      case None => None
  }

  /** Each saved length is the length of a snapshot, and the snapshots are prefixes of each other
      and of the log. */
  ghost predicate Represents<P>(s: State<P>, c: Snapshots<P>)
  {
    && s.permissions == c.current
    && |s.sizes| == |c.saved|
    && (forall i :: 0 <= i < |c.saved| ==> s.sizes[i] == |c.saved[i]| && c.saved[i] <= c.current)
    && (forall i, j :: 0 <= i <= j < |c.saved| ==> c.saved[i] <= c.saved[j])
  }

  lemma StepRefines<P>(s: State<P>, c: Snapshots<P>, e: Event<P>)
    requires Represents(s, c)
    ensures Step(s, e).Done? <==> Replay(c, e).Some?
    ensures Step(s, e).Done? ==> Represents(Step(s, e).state, Replay(c, e).value)
    ensures !Step(s, e).SizeCheck?
  {
    if e.PopUndo? && c.saved != [] {
      var top := c.saved[|c.saved| - 1];
      assert top <= c.current;
      assert s.permissions[..|top|] == top;
    }
  }

  lemma {:induction false} RunRefines<P>(s: State<P>, c: Snapshots<P>, es: seq<Event<P>>)
    requires Represents(s, c)
    ensures Run(s, es).Done? <==> ReplayAll(c, es).Some?
    ensures Run(s, es).Done? ==> Represents(Run(s, es).state, ReplayAll(c, es).value)
    ensures !Run(s, es).SizeCheck?
    decreases |es|
  {
    if es != [] {
      StepRefines(s, c, es[0]);
      if Step(s, es[0]).Done? {
        RunRefines(Step(s, es[0]).state, Replay(c, es[0]).value, es[1..]);
      }
    }
  }

  // ----- When a run succeeds -----

  function Change<P>(e: Event<P>): int
  {
    match e
    case PushUndo => 1
    case PopUndo => -1
    case SquashUndo => -1
    case _ => 0
  }

  /** The number of open levels after the events, starting from `depth`. */
  function Depth<P>(depth: int, es: seq<Event<P>>): int
    decreases |es|
  {
    if es == [] then depth else Depth(depth + Change(es[0]), es[1..])
  }

  /** No event closes a level that is not open. */
  ghost predicate NeverBelow<P>(depth: int, es: seq<Event<P>>)
  {
    forall k :: 0 <= k <= |es| ==> Depth(depth, es[..k]) >= 0
  }

  lemma NeverBelowStep<P>(depth: nat, es: seq<Event<P>>)
    requires es != []
    ensures NeverBelow(depth, es) <==>
            depth + Change(es[0]) >= 0 && NeverBelow(depth + Change(es[0]), es[1..])
  {
    var next := depth + Change(es[0]);
    forall k | 1 <= k <= |es| ensures Depth(depth, es[..k]) == Depth(next, es[1..][..k - 1]) {
      assert es[..k][1..] == es[1..][..k - 1];
    }
    if NeverBelow(depth, es) {
      assert Depth(depth, es[..1]) == Depth(next, es[1..][..0]);
      forall k | 0 <= k <= |es[1..]| ensures Depth(next, es[1..][..k]) >= 0 {
        assert Depth(depth, es[..k + 1]) >= 0;
      }
    }
    if next >= 0 && NeverBelow(next, es[1..]) {
      forall k | 0 <= k <= |es| ensures Depth(depth, es[..k]) >= 0 {
        if k > 0 { assert Depth(next, es[1..][..k - 1]) >= 0; }
      }
    }
  }

  lemma {:induction false} ReplaySucceeds<P>(c: Snapshots<P>, es: seq<Event<P>>)
    ensures ReplayAll(c, es).Some? <==> NeverBelow(|c.saved|, es)
    ensures ReplayAll(c, es).Some? ==> |ReplayAll(c, es).value.saved| == Depth(|c.saved|, es)
    decreases |es|
  {
    if es == [] {
      assert forall k :: 0 <= k <= |es| ==> es[..k] == [];
    } else {
      NeverBelowStep(|c.saved|, es);
      if Replay(c, es[0]).Some? {
        ReplaySucceeds(Replay(c, es[0]).value, es[1..]);
      }
    }
  }

  /** Every run of a new visitor: it fails exactly when some event closes a level that is not open,
      the size assertion never fails, the log is the one that full snapshots would give, and one
      length is saved for each open level. */
  lemma EveryRun<P>(es: seq<Event<P>>)
    ensures var r := Run(State([], []), es);
            var reference := ReplayAll(Snapshots([], []), es);
            && !r.SizeCheck?
            && (r.Done? <==> NeverBelow(0, es))
            && (r.Done? <==> reference.Some?)
            && (r.Done? ==> r.state.permissions == reference.value.current
                            && |r.state.sizes| == Depth(0, es))
  {
    RunRefines(State([], []), Snapshots([], []), es);
    ReplaySucceeds(Snapshots([], []), es);
  }

  // ----- Matching brackets -----

  /** The events close every level they open and no other. */
  ghost predicate Balanced<P>(es: seq<Event<P>>)
  {
    NeverBelow(0, es) && Depth(0, es) == 0
  }

  lemma {:induction false} ReplayConcat<P>(c: Snapshots<P>, a: seq<Event<P>>, b: seq<Event<P>>)
    requires ReplayAll(c, a).Some?
    ensures ReplayAll(c, a + b) == ReplayAll(ReplayAll(c, a).value, b)
    decreases |a|
  {
    if a == [] {
      assert a + b == b;
    } else {
      assert (a + b)[0] == a[0] && (a + b)[1..] == a[1..] + b;
      ReplayConcat(Replay(c, a[0]).value, a[1..], b);
    }
  }

  lemma ReplayOne<P>(c: Snapshots<P>, e: Event<P>)
    ensures ReplayAll(c, [e]) == Replay(c, e)
  {
    assert [e][1..] == [];
  }

  /** Events that never close a level below the ones they start on do not see the levels below. */
  lemma {:induction false} ReplayFrame<P>(c: Snapshots<P>, low: seq<seq<P>>, es: seq<Event<P>>)
    requires ReplayAll(c, es).Some?
    ensures var d := ReplayAll(c, es).value;
            ReplayAll(Snapshots(c.current, low + c.saved), es) == Some(Snapshots(d.current, low + d.saved))
    decreases |es|
  {
    if es != [] {
      var d := Replay(c, es[0]).value;
      var n := |c.saved|;
      if es[0].PushUndo? {
        assert low + c.saved + [c.current] == low + (c.saved + [c.current]);
      } else if es[0].PopUndo? || es[0].SquashUndo? {
        assert (low + c.saved)[..|low| + n - 1] == low + c.saved[..n - 1];
      }
      ReplayFrame(d, low, es[1..]);
    }
  }

  /** On snapshots: balanced events only change the log, and only by adding to it. */
  lemma BalancedReplay<P>(c: Snapshots<P>, es: seq<Event<P>>)
    requires Balanced(es)
    ensures ReplayAll(c, es).Some? && ReplayAll(c, es).value.saved == c.saved
    ensures ReplayAll(c, [PushUndo] + es + [PopUndo]) == Some(c)
    ensures ReplayAll(c, [PushUndo] + es + [SquashUndo]) == ReplayAll(c, es)
  {
    var bare := Snapshots(c.current, []);
    ReplaySucceeds(bare, es);
    var log := ReplayAll(bare, es).value.current;
    ReplayFrame(bare, c.saved, es);
    assert c.saved + [] == c.saved;
    var deeper := c.saved + [c.current];
    ReplayFrame(bare, deeper, es);
    assert deeper + [] == deeper && deeper[..|deeper| - 1] == c.saved;
    ReplayOne(c, PushUndo);
    ReplayConcat(c, [PushUndo], es);
    var open := Snapshots(log, deeper);
    assert ReplayAll(c, [PushUndo] + es) == Some(open);
    ReplayConcat(c, [PushUndo] + es, [PopUndo]);
    ReplayConcat(c, [PushUndo] + es, [SquashUndo]);
    ReplayOne(open, PopUndo);
    ReplayOne(open, SquashUndo);
  }

  lemma RepresentsUnique<P>(s: State<P>, t: State<P>, c: Snapshots<P>)
    requires Represents(s, c) && Represents(t, c)
    ensures s == t
  {
    assert s.sizes == t.sizes;
  }

  /** After any history, popping a balanced bracket gives the visitor as it was, and squashing it
      gives what the events inside give on their own. */
  lemma Brackets<P>(history: seq<Event<P>>, s: State<P>, es: seq<Event<P>>)
    requires Run(State([], []), history) == Done(s)
    requires Balanced(es)
    ensures Run(s, [PushUndo] + es + [PopUndo]) == Done(s)
    ensures Run(s, [PushUndo] + es + [SquashUndo]) == Run(s, es)
    ensures Run(s, es).Done? && Run(s, es).state.sizes == s.sizes
  {
    RunRefines(State([], []), Snapshots([], []), history);
    var c := ReplayAll(Snapshots([], []), history).value;
    BalancedReplay(c, es);
    RunRefines(s, c, [PushUndo] + es + [PopUndo]);
    RunRefines(s, c, [PushUndo] + es + [SquashUndo]);
    RunRefines(s, c, es);
    RepresentsUnique(s, Run(s, [PushUndo] + es + [PopUndo]).state, c);
    RepresentsUnique(Run(s, es).state, Run(s, [PushUndo] + es + [SquashUndo]).state, ReplayAll(c, es).value);
    assert Run(s, es).state.sizes == s.sizes;
  }

  /** The log only grows inside a balanced bracket. */
  lemma BracketsAppend<P>(history: seq<Event<P>>, s: State<P>, es: seq<Event<P>>)
    requires Run(State([], []), history) == Done(s)
    requires Balanced(es)
    ensures Run(s, es).Done? && s.permissions <= Run(s, es).state.permissions
  {
    Brackets(history, s, es);
    RunRefines(State([], []), Snapshots([], []), history);
    var c := ReplayAll(Snapshots([], []), history).value;
    var open := Snapshots(c.current, c.saved + [c.current]);
    var t := State(s.permissions, s.sizes + [|s.permissions|]);
    StepRefines(s, c, PushUndo);
    RunRefines(t, open, es);
    BalancedReplay(open, es);
    RunRefines(s, c, es);
    SameLog(c, open, es);
  }

  /** The log of a balanced run does not depend on the levels below it. */
  lemma SameLog<P>(c: Snapshots<P>, d: Snapshots<P>, es: seq<Event<P>>)
    requires Balanced(es) && c.current == d.current
    ensures ReplayAll(c, es).Some? && ReplayAll(d, es).Some?
    ensures ReplayAll(c, es).value.current == ReplayAll(d, es).value.current
  {
    var bare := Snapshots(c.current, []);
    ReplaySucceeds(bare, es);
    ReplayFrame(bare, c.saved, es);
    ReplayFrame(bare, d.saved, es);
    assert c.saved + [] == c.saved && d.saved + [] == d.saved;
  }
}
