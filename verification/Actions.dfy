/** Inline actions: how a contract packs a call, how the bytes it hands to the chain are read back,
    and how the receiving contract unpacks its arguments and finds its handler. */
module Actions {
  import opened Arith
  import opened Varint
  import opened Values
  import opened Codec
  import opened Layout
  import opened Streams

  datatype Permission = Permission(actor: nat, permission: nat)

  datatype Action = Action(account: nat, name: nat, authorization: seq<Permission>, data: seq<byte>)

  const NAME: Ty := TUint(8)
  const PERMISSION: Ty := TTuple([NAME, NAME])
  const ACTION: Ty := TTuple([NAME, NAME, TVector(PERMISSION), TVector(CHAR)])

  predicate IsName(n: nat)
  {
    n < Pow(256, 8)
  }

  predicate ValidPermissions(ps: seq<Permission>)
  {
    |ps| < TWO_32 && forall i :: 0 <= i < |ps| ==> IsName(ps[i].actor) && IsName(ps[i].permission)
  }

  /** An action the C++ type can hold: 64-bit names, and lists whose length has 32 bits. */
  predicate ValidAction(a: Action)
  {
    IsName(a.account) && IsName(a.name) && ValidPermissions(a.authorization) && |a.data| < TWO_32
  }

  function PermissionValue(p: Permission): Val
  {
    VList([VNum(p.actor), VNum(p.permission)])
  }

  function PermissionValues(ps: seq<Permission>): (r: seq<Val>)
    ensures |r| == |ps|
  {
    seq(|ps|, i requires 0 <= i < |ps| => PermissionValue(ps[i]))
  }

  function ActionValue(a: Action): Val
  {
    VList([VNum(a.account), VNum(a.name), VList(PermissionValues(a.authorization)), VList(Chars(a.data))])
  }

  lemma PermissionsTyped(ps: seq<Permission>)
    requires ValidPermissions(ps)
    ensures HasType(TVector(PERMISSION), VList(PermissionValues(ps)))
  {
    forall i | 0 <= i < |ps| ensures HasType(PERMISSION, PermissionValues(ps)[i]) {
      assert FieldsHaveType([NAME, NAME], [VNum(ps[i].actor), VNum(ps[i].permission)]);
    }
  }

  lemma ActionTyped(a: Action)
    requires ValidAction(a)
    ensures HasType(ACTION, ActionValue(a))
  {
    PermissionsTyped(a.authorization);
    CharsTyped(a.data);
    assert FieldsHaveType(ACTION.fields, ActionValue(a).vs);
  }

  /** Different actions have different values. */
  lemma ActionValueInjective(a: Action, b: Action)
    requires ActionValue(a) == ActionValue(b)
    ensures a == b
  {
    var va, vb := ActionValue(a).vs, ActionValue(b).vs;
    assert va[0] == vb[0] && va[1] == vb[1] && va[2] == vb[2] && va[3] == vb[3];
    var pa, pb := PermissionValues(a.authorization), PermissionValues(b.authorization);
    assert pa == pb && Chars(a.data) == Chars(b.data);
    forall i | 0 <= i < |pa| ensures a.authorization[i] == b.authorization[i] {
      assert pa[i].vs[0] == pb[i].vs[0] && pa[i].vs[1] == pb[i].vs[1];
    }
    forall i | 0 <= i < |a.data| ensures a.data[i] == b.data[i] {
      assert Chars(a.data)[i] == Chars(b.data)[i];
    }
  }

  /** The encoding of the arguments of a call. */
  function Arguments(ts: seq<Ty>, args: seq<Val>): (r: seq<byte>)
    requires FieldsHaveType(ts, args)
  {
    Encode(TTuple(ts), VList(args))
  }

  /** The bytes handed to the chain for an action. */
  function Message(a: Action): (r: seq<byte>)
    requires ValidAction(a)
  {
    ActionTyped(a);
    Encode(ACTION, ActionValue(a))
  }

  /** The message determines the action: reading it gives that action and nothing is left over, and
      no other action has the same message. */
  lemma MessageDetermines(a: Action, b: Action)
    requires ValidAction(a) && ValidAction(b)
    ensures Decode(ACTION, Message(a)) == Ok(ActionValue(a), [])
    ensures Message(a) == Message(b) ==> a == b
  {
    ActionTyped(a);
    ActionTyped(b);
    RoundTrip(ACTION, ActionValue(a), []);
    RoundTrip(ACTION, ActionValue(b), []);
    assert Message(a) + [] == Message(a) && Message(b) + [] == Message(b);
    if Message(a) == Message(b) { ActionValueInjective(a, b); }
  }

  lemma ArgumentsReadBack(ts: seq<Ty>, args: seq<Val>)
    requires FieldsHaveType(ts, args)
    ensures Decode(TTuple(ts), Arguments(ts, args)) == Ok(VList(args), [])
  {
    RoundTrip(TTuple(ts), VList(args), []);
    assert Arguments(ts, args) + [] == Arguments(ts, args);
  }

  // ----- The two sides -----

  /** A handler that was run, and the arguments it was given. */
  datatype Call = Call(handler: nat, args: Val)

  /** What a contract sees of the chain: the inline actions it sent, the data of the action it is
      running, the heap blocks it holds, and the handlers that ran. */
  class Host {
    var sent: seq<seq<byte>>
    var actionData: seq<byte>
    var blocks: nat
    var calls: seq<Call>

    constructor (data: seq<byte>)
      ensures sent == [] && actionData == data && blocks == 0 && calls == []
    {
      sent, actionData, blocks, calls := [], data, 0, [];
    }
  }

  /** The packed action is handed to the chain, unless it is too large to be packed. */
  method Send(host: Host, a: Action) returns (ok: bool)
    requires ValidAction(a)
    modifies host`sent
    ensures ok <==> |Message(a)| < TWO_31
    ensures host.sent == if ok then old(host.sent) + [Message(a)] else old(host.sent)
  {
    ActionTyped(a);
    var serialize;
    ok, serialize := Pack(ACTION, ActionValue(a));
    if ok {
      host.sent := host.sent + [serialize[..]];
    }
  }

  /** The action of an inline call. */
  function CallAction(code: nat, act: nat, perms: seq<Permission>, ts: seq<Ty>, args: seq<Val>): Action
    requires FieldsHaveType(ts, args)
  {
    Action(code, act, perms, Arguments(ts, args))
  }

  /** Names and permissions as the C++ types hold them. */
  predicate Addressed(code: nat, act: nat, perms: seq<Permission>)
  {
    IsName(code) && IsName(act) && ValidPermissions(perms)
  }

  /** Neither the arguments nor the message are too large to be packed. */
  predicate Packable(code: nat, act: nat, perms: seq<Permission>, ts: seq<Ty>, args: seq<Val>)
    requires FieldsHaveType(ts, args) && Addressed(code, act, perms)
  {
    |Arguments(ts, args)| < TWO_31 && |Message(CallAction(code, act, perms, ts, args))| < TWO_31
  }

  /** dispatch_inline: the arguments are packed, wrapped in an action and sent. */
  method DispatchInline(host: Host, code: nat, act: nat, perms: seq<Permission>, ts: seq<Ty>, args: seq<Val>)
    returns (ok: bool)
    requires FieldsHaveType(ts, args) && Addressed(code, act, perms)
    modifies host`sent
    ensures ok <==> Packable(code, act, perms, ts, args)
    ensures host.sent == if ok then old(host.sent) + [Message(CallAction(code, act, perms, ts, args))]
                         else old(host.sent)
  {
    var data;
    ok, data := Pack(TTuple(ts), VList(args));
    if ok {
      ok := Send(host, Action(code, act, perms, data[..]));
    }
  }

  const STACK_LIMIT: nat := 512

  /** Reads the data of the action into a buffer, on the heap when it is longer than 512 bytes, and
      gives the buffer back before the arguments are used. */
  method UnpackActionData(host: Host, t: Ty) returns (r: ReadResult<Val>)
    modifies host`blocks
    ensures match Decode(t, host.actionData)
            case Ok(v, _) => r == Value(v) && host.blocks == old(host.blocks)
            case Fail(e) => r == Aborted(e)
  {
    var size := |host.actionData|;
    var heap := STACK_LIMIT < size;
    var data := host.actionData;
    var buffer := new byte[size](i requires 0 <= i < size => data[i]);
    if heap {
      host.blocks := host.blocks + 1;
    }
    assert buffer[..size] == data;
    r := Unpack(t, buffer, size);
    if r.Value? && heap {
      host.blocks := host.blocks - 1;
    }
  }

  /** The handler runs once, with the values the data decodes to, or not at all. */
  method ExecuteAction(host: Host, handler: nat, ts: seq<Ty>) returns (ok: bool)
    modifies host`blocks, host`calls
    ensures match Decode(TTuple(ts), host.actionData)
            case Ok(v, _) =>
              ok && host.calls == old(host.calls) + [Call(handler, v)] && host.blocks == old(host.blocks)
            case Fail(_) => !ok && host.calls == old(host.calls)
  {
    var size := |host.actionData|;
    var data := host.actionData;
    var buffer := new byte[0];
    if size > 0 {
      buffer := new byte[size](i requires 0 <= i < size => data[i]);
      if STACK_LIMIT < size {
        host.blocks := host.blocks + 1;
      }
    }
    assert buffer[..size] == data;
    var r := Unpack(TTuple(ts), buffer, size);
    match r
    case Value(args) =>
      if STACK_LIMIT < size {
        host.blocks := host.blocks - 1;
      }
      host.calls := host.calls + [Call(handler, args)];
      ok := true;
    case Aborted(_) =>
      ok := false;
  }

  /** From the call of a sender to the handler of the receiver: what can be packed arrives as it was
      sent. The chain reads the message and gives the receiver its data. */
  method SendThenExecute(sender: Host, code: nat, act: nat, perms: seq<Permission>, ts: seq<Ty>, args: seq<Val>,
                         handler: nat)
    returns (receiver: Host, ok: bool)
    requires FieldsHaveType(ts, args) && Addressed(code, act, perms)
    modifies sender`sent
    ensures fresh(receiver) && receiver.blocks == 0
    ensures ok <==> Packable(code, act, perms, ts, args)
    ensures receiver.calls == if ok then [Call(handler, VList(args))] else []
  {
    receiver := new Host([]);
    ok := DispatchInline(sender, code, act, perms, ts, args);
    if ok {
      var received := ReceivedData(CallAction(code, act, perms, ts, args), sender.sent[|sender.sent| - 1]);
      receiver := new Host(received);
      ArgumentsReadBack(ts, args);
      var _ := ExecuteAction(receiver, handler, ts);
    }
  }

  /** The data field of a message. */
  method ReceivedData(ghost a: Action, message: seq<byte>) returns (data: seq<byte>)
    requires ValidAction(a) && message == Message(a)
    ensures data == a.data
  {
    MessageDetermines(a, a);
    var buffer := new byte[|message|](i requires 0 <= i < |message| => message[i]);
    assert buffer[..|message|] == message;
    var r := Unpack(ACTION, buffer, |message|);
    var chars := r.value.vs[3].vs;
    assert chars == Chars(a.data);
    assert forall i :: 0 <= i < |chars| ==> chars[i] == VNum(a.data[i]);
    data := seq(|chars|, i requires 0 <= i < |chars| && chars[i].VNum? && 0 <= chars[i].n < 256 => chars[i].n);
  }

  // ----- Finding the handler -----

  datatype Entry = Entry(account: nat, name: nat, arguments: Ty)

  predicate Matches(e: Entry, code: nat, act: nat)
  {
    e.account == code && e.name == act
  }

  /** The place of the first entry for an account and a name, or the length of the list. */
  function FirstMatch(entries: seq<Entry>, code: nat, act: nat): (r: nat)
    ensures r <= |entries|
    ensures forall i :: 0 <= i < r ==> !Matches(entries[i], code, act)
    ensures r < |entries| ==> Matches(entries[r], code, act)
  {
    if entries == [] || Matches(entries[0], code, act) then 0
    else
      var rest := FirstMatch(entries[1..], code, act);
      assert forall i :: 1 <= i < 1 + rest ==> entries[i] == entries[1..][i - 1];
      1 + rest
  }

  /** The recursive dispatch over the actions a contract lists, `base` of which were passed over. It
      returns true exactly when some entry matches, and then only the handler of the first one
      runs, once. `aborted` is set when the data of that entry does not unpack. */
  method Dispatch(host: Host, entries: seq<Entry>, base: nat, code: nat, act: nat)
    returns (found: bool, aborted: bool)
    requires entries != []
    modifies host`blocks, host`calls
    ensures !aborted ==> (found <==> exists i :: 0 <= i < |entries| && Matches(entries[i], code, act))
    ensures var k := FirstMatch(entries, code, act);
            if k == |entries| then
              !found && !aborted && host.calls == old(host.calls) && host.blocks == old(host.blocks)
            else
              match Decode(entries[k].arguments, host.actionData)
              case Ok(v, _) => found && !aborted && host.calls == old(host.calls) + [Call(base + k, v)]
                               && host.blocks == old(host.blocks)
              case Fail(_) => !found && aborted && host.calls == old(host.calls)
    decreases |entries|
  {
    found, aborted := false, false;
    if code == entries[0].account && entries[0].name == act {
      var r := UnpackActionData(host, entries[0].arguments);
      match r
      case Value(v) =>
        host.calls := host.calls + [Call(base, v)];
        found := true;
        assert Matches(entries[0], code, act);
      case Aborted(_) =>
        aborted := true;
    } else if |entries| > 1 {
      found, aborted := Dispatch(host, entries[1..], base + 1, code, act);
      assert forall i :: 0 <= i < |entries[1..]| ==> entries[1..][i] == entries[i + 1];
    }
  }
}
