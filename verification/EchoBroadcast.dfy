/** The echo broadcast actor: what one command does to its three maps.

    Two things come from outside and are part of a `Send` command here: the order in which
    the hash map of members is walked, and the outcome of each member's reliable send. A
    waiter stands for the oneshot sender a caller waits on; answers are logged together with
    the id of the broadcast they belong to. A failing `unwrap` ends the actor's task: `alive`
    becomes false and no later command has any effect. */
module EchoBroadcast {
  import opened Protocol

  /** Identity of a reliable sender. */
  type Handle = nat

  type Members = map<NodeId, Handle>

  type Waiter = nat

  type EchoTable = map<MessageId, map<NodeId, bool>>

  datatype Command =
    | Send(data: Message, members: Members, respondTo: Waiter, order: seq<NodeId>, outcomes: seq<bool>)
    | Echo(data: Message)

  datatype Answer = Answer(id: MessageId, waiter: Waiter, ok: bool)

  datatype Actor = Actor(
    alive: bool,
    echos: EchoTable,
    senders: map<MessageId, Members>,
    txs: map<MessageId, Waiter>,
    answers: seq<Answer>)

  const INIT := Actor(true, map[], map[], map[], [])

  /** The order walks every member once, and there is one outcome for each. */
  ghost predicate WellFormed(c: Command) {
    c.Send? ==>
      && |c.outcomes| == |c.order|
      && (forall k :: k in c.order <==> k in c.members)
      && (forall i, j :: 0 <= i < j < |c.order| ==> c.order[i] != c.order[j])
  }

  /** How many sends succeed before the first failure. */
  function Successes(outcomes: seq<bool>): nat
    ensures Successes(outcomes) <= |outcomes|
  {
    if outcomes == [] || !outcomes[0] then 0 else 1 + Successes(outcomes[1..])
  }

  /** The members whose reliable send succeeded. */
  function Reached(c: Command): seq<NodeId>
    requires c.Send?
  {
    if Successes(c.outcomes) <= |c.order| then c.order[..Successes(c.outcomes)] else c.order
  }

  predicate FullySent(c: Command)
    requires c.Send?
  {
    |Reached(c)| == |c.order|
  }

  function Row(t: EchoTable, id: MessageId): map<NodeId, bool> {
    if id in t then t[id] else map[]
  }

  function ListMember(t: EchoTable, id: MessageId, k: NodeId): EchoTable {
    t[id := if k in Row(t, id) then Row(t, id) else Row(t, id)[k := false]]
  }

  function ListMembers(t: EchoTable, id: MessageId, ks: seq<NodeId>): EchoTable {
    if ks == [] then t
    else ListMember(ListMembers(t, id, ks[..|ks| - 1]), id, ks[|ks| - 1])
  }

  function Confirm(t: EchoTable, id: MessageId, k: NodeId): EchoTable {
    t[id := Row(t, id)[k := true]]
  }

  predicate AllEchoed(t: EchoTable, id: MessageId) {
    forall k :: k in Row(t, id) ==> Row(t, id)[k]
  }

  /** What `send_message` does once the loop over the members has ended. */
  function FinishSend(s: Actor, id: MessageId, c: Command): Actor
    requires c.Send?
  {
    if !FullySent(c) then
      s.(answers := s.answers + [Answer(id, c.respondTo, false)])
    else if id !in s.echos then
      s.(alive := false, senders := s.senders[id := c.members])
    else
      s.(senders := s.senders[id := c.members],
         echos := Confirm(s.echos, id, c.data.SenderId()),
         txs := s.txs[id := c.respondTo])
  }

  function StepSend(s: Actor, c: Command): Actor
    requires c.Send?
  {
    match c.data.MessageId()
    case None => s.(alive := false)
    case Some(id) => FinishSend(s.(echos := ListMembers(s.echos, id, Reached(c))), id, c)
  }

  function StepEcho(s: Actor, data: Message): Actor {
    match data.MessageId()
    case None => s.(alive := false)
    case Some(id) =>
      var t := Confirm(s.echos, id, data.SenderId());
      if AllEchoed(t, id) && id in s.txs then
        s.(echos := t, txs := s.txs - {id}, answers := s.answers + [Answer(id, s.txs[id], true)])
      else
        s.(echos := t)
  }

  function Step(s: Actor, c: Command): Actor {
    if !s.alive then s
    else if c.Send? then StepSend(s, c)
    else StepEcho(s, c.data)
  }

  /** The state after a whole command history. */
  function Run(h: seq<Command>): Actor {
    if h == [] then INIT else Step(Run(h[..|h| - 1]), h[|h| - 1])
  }

  lemma SuccessesIs(outcomes: seq<bool>, i: nat)
    requires i <= |outcomes| && (forall j :: 0 <= j < i ==> outcomes[j])
    requires i < |outcomes| ==> !outcomes[i]
    ensures Successes(outcomes) == i
  {
    if i > 0 {
      SuccessesIs(outcomes[1..], i - 1);
    }
  }

  /** The actor in the program's own form; every handler is tied to the step it performs. */
  class EchoBroadcastActor {
    var alive: bool
    var messageEchos: EchoTable
    var reliableSenders: map<MessageId, Members>
    var messageClientTxs: map<MessageId, Waiter>
    var answers: seq<Answer>

    ghost function State(): Actor
      reads this
    {
      Actor(alive, messageEchos, reliableSenders, messageClientTxs, answers)
    }

    constructor ()
      ensures State() == INIT
    {
      alive := true;
      messageEchos := map[];
      reliableSenders := map[];
      messageClientTxs := map[];
      answers := [];
    }

    method SendMessage(data: Message, members: Members, respondTo: Waiter,
                       order: seq<NodeId>, outcomes: seq<bool>)
      returns (sent: bool)
      requires alive && WellFormed(Send(data, members, respondTo, order, outcomes))
      modifies this
      ensures State() == Step(old(State()), Send(data, members, respondTo, order, outcomes))
      ensures sent <==> alive && FullySent(Send(data, members, respondTo, order, outcomes))
    {
      sent := false;
      var mid := data.MessageId();
      if mid.None? {
        alive := false;
        return;
      }
      var id := mid.value;
      var i := 0;
      while i < |order|
        invariant 0 <= i <= |order|
        invariant forall j :: 0 <= j < i ==> outcomes[j]
        invariant State() == old(State()).(echos := ListMembers(old(messageEchos), id, order[..i]))
      {
        if !outcomes[i] {
          SuccessesIs(outcomes, i);
          answers := answers + [Answer(id, respondTo, false)];
          return;
        }
        assert order[..i + 1][..i] == order[..i];
        messageEchos := ListMember(messageEchos, id, order[i]);
        i := i + 1;
      }
      SuccessesIs(outcomes, i);
      reliableSenders := reliableSenders[id := members];
      if id !in messageEchos {
        alive := false;
        return;
      }
      messageEchos := Confirm(messageEchos, id, data.SenderId());
      messageClientTxs := messageClientTxs[id := respondTo];
      sent := true;
    }

    method AddEcho(id: MessageId, senderId: NodeId)
      modifies this
      ensures State() == old(State()).(echos := Confirm(old(messageEchos), id, senderId))
    {
      if id in messageEchos {
        messageEchos := messageEchos[id := messageEchos[id][senderId := true]];
      } else {
        messageEchos := messageEchos[id := map[senderId := true]];
      }
    }

    method HandleReceivedEcho(data: Message)
      requires alive
      modifies this
      ensures State() == Step(old(State()), Echo(data))
    {
      var mid := data.MessageId();
      if mid.None? {
        alive := false;
        return;
      }
      AddEcho(mid.value, data.SenderId());
      if AllEchoed(messageEchos, mid.value) {
        if mid.value in messageClientTxs {
          answers := answers + [Answer(mid.value, messageClientTxs[mid.value], true)];
          messageClientTxs := messageClientTxs - {mid.value};
        }
      }
    }

    method HandleMessage(c: Command)
      requires WellFormed(c)
      modifies this
      ensures State() == Step(old(State()), c)
    {
      if !alive {
        return;
      }
      match c
      case Send(data, members, respondTo, order, outcomes) =>
        var _ := SendMessage(data, members, respondTo, order, outcomes);
      case Echo(data) => HandleReceivedEcho(data);
    }

    /** The spawned task: handles the commands in the order they arrive. */
    method Serve(commands: seq<Command>)
      requires State() == INIT
      requires forall i :: 0 <= i < |commands| ==> WellFormed(commands[i])
      modifies this
      ensures State() == Run(commands)
    {
      for i := 0 to |commands|
        invariant State() == Run(commands[..i])
      {
        HandleMessage(commands[i]);
        assert commands[..i + 1][..i] == commands[..i];
      }
      assert commands[..|commands|] == commands;
    }
  }
}
