/** The membership actor and the broadcast service. */
module Membership {
  import opened Protocol
  import opened EchoBroadcast
  import opened EchoHistory
  import EchoFates

  datatype MemberCommand =
    | Add(node: NodeId, handle: Handle)
    | Remove(node: NodeId)
    | GetMembers

  datatype MemberReply =
    | Added
    | Removed(handle: Option<Handle>)
    | Snapshot(members: Members)

  function Lookup(m: Members, k: NodeId): Option<Handle> {
    if k in m then Some(m[k]) else None
  }

  function Apply(m: Members, c: MemberCommand): Members {
    match c
    case Add(k, h) => m[k := h]
    case Remove(k) => m - {k}
    case GetMembers => m
  }

  function Fold(cs: seq<MemberCommand>): Members {
    if cs == [] then map[] else Apply(Fold(cs[..|cs| - 1]), cs[|cs| - 1])
  }

  function ReplyTo(m: Members, c: MemberCommand): MemberReply {
    match c
    case Add(_, _) => Added
    case Remove(k) => Removed(Lookup(m, k))
    case GetMembers => Snapshot(m)
  }

  predicate Names(c: MemberCommand, k: NodeId) {
    (c.Add? || c.Remove?) && c.node == k
  }

  /** The last command naming k added it with handle h. */
  ghost predicate AddedLast(cs: seq<MemberCommand>, k: NodeId, h: Handle) {
    exists i :: 0 <= i < |cs| && cs[i] == Add(k, h) && forall j :: i < j < |cs| ==> !Names(cs[j], k)
  }

  /** A snapshot holds exactly the nodes whose last command was an Add, each with the handle of
      that Add. */
  lemma {:induction false} FoldExact(cs: seq<MemberCommand>, k: NodeId, h: Handle)
    ensures Lookup(Fold(cs), k) == Some(h) <==> AddedLast(cs, k, h)
  {
    if cs != [] {
      var n := |cs| - 1;
      var c, g := cs[n], cs[..n];
      FoldExact(g, k, h);
      if AddedLast(cs, k, h) && !Names(c, k) {
        var i :| 0 <= i < |cs| && cs[i] == Add(k, h) && forall j :: i < j < |cs| ==> !Names(cs[j], k);
        assert g[i] == Add(k, h);
      }
      if AddedLast(g, k, h) && !Names(c, k) {
        var i :| 0 <= i < |g| && g[i] == Add(k, h) && forall j :: i < j < |g| ==> !Names(g[j], k);
        assert cs[i] == Add(k, h);
        assert forall j :: i < j < |cs| ==> !Names(cs[j], k);
      }
      if c == Add(k, h) {
        assert cs[n] == Add(k, h);
      }
    }
  }

  /** What a reply says about the commands handled before its own. */
  ghost predicate ReplyCorrect(before: seq<MemberCommand>, c: MemberCommand, reply: MemberReply) {
    match c
    case Add(_, _) => reply == Added
    case Remove(k) => reply.Removed? && forall h: Handle :: reply == Removed(Some(h)) <==> AddedLast(before, k, h)
    case GetMembers =>
      && reply.Snapshot?
      && forall k, h: Handle :: (k in reply.members && reply.members[k] == h) <==> AddedLast(before, k, h)
  }

  /** A snapshot holds exactly the nodes whose last command was an Add, each with its handle; a
      removal returns the handle of the node's last Add, if that was its last command. */
  lemma ReplyExact(before: seq<MemberCommand>, c: MemberCommand)
    ensures ReplyCorrect(before, c, ReplyTo(Fold(before), c))
  {
    forall k, h: Handle ensures Lookup(Fold(before), k) == Some(h) <==> AddedLast(before, k, h) {
      FoldExact(before, k, h);
    }
  }

  class MembershipActor {
    var members: Members

    constructor ()
      ensures members == map[]
    {
      members := map[];
    }

    method AddMember(node: NodeId, handle: Handle)
      modifies this
      ensures members == old(members)[node := handle]
    {
      members := members[node := handle];
    }

    method RemoveMember(node: NodeId) returns (removed: Option<Handle>)
      modifies this
      ensures members == old(members) - {node}
      ensures removed == Lookup(old(members), node)
    {
      if node in members {
        removed := Some(members[node]);
        members := members - {node};
      } else {
        removed := None;
      }
    }

    method HandleCommand(c: MemberCommand) returns (reply: MemberReply)
      modifies this
      ensures members == Apply(old(members), c)
      ensures reply == ReplyTo(old(members), c)
    {
      match c
      case Add(node, handle) =>
        AddMember(node, handle);
        reply := Added;
      case Remove(node) =>
        var removed := RemoveMember(node);
        reply := Removed(removed);
      case GetMembers =>
        reply := Snapshot(members);
    }

    /** The actor's loop: every reply is determined by the commands handled before it. */
    method Serve(commands: seq<MemberCommand>) returns (replies: seq<MemberReply>)
      requires members == map[]
      modifies this
      ensures members == Fold(commands)
      ensures |replies| == |commands|
      ensures forall i :: 0 <= i < |commands| ==> ReplyCorrect(commands[..i], commands[i], replies[i])
    {
      replies := [];
      for i := 0 to |commands|
        invariant members == Fold(commands[..i]) && |replies| == i
        invariant forall j :: 0 <= j < i ==> ReplyCorrect(commands[..j], commands[j], replies[j])
      {
        ReplyExact(commands[..i], commands[i]);
        assert commands[..i + 1][..i] == commands[..i];
        var reply := HandleCommand(commands[i]);
        replies := replies + [reply];
      }
      assert commands[..|commands|] == commands;
    }
  }

  // ---------------------------------------------------------------- the broadcast service

  /** The command the echo broadcast service sends for a message, if the protocol gives it one. */
  function ServiceCommand(nodeId: NodeId, env: Env, msg: Message, members: Members, respondTo: Waiter,
                          order: seq<NodeId>, outcomes: seq<bool>): Option<Command>
  {
    match Call(nodeId, env, msg)
    case Ok(Some(m)) => Some(Send(m, members, respondTo, order, outcomes))
    case _ => None
  }

  /** What a command of the service carries: it has an id exactly when the service was given a
      broadcast, and that broadcast then had none; sender and text are unchanged and the id is the
      generated one. */
  lemma ServiceStampsBroadcasts(nodeId: NodeId, env: Env, msg: Message, members: Members,
                                respondTo: Waiter, order: seq<NodeId>, outcomes: seq<bool>)
    ensures var c := ServiceCommand(nodeId, env, msg, members, respondTo, order, outcomes);
      && (msg.BroadcastMessage? ==> (c.Some? <==> msg.broadcast.id.None?))
      && (c.Some? ==> (c.value.data.MessageId().Some? <==> msg.BroadcastMessage?))
      && (c.Some? && msg.BroadcastMessage? ==>
            c.value.data == BroadcastMessage(msg.broadcast.(id := Some(env.nextId))))
      && (c.Some? ==> c.value == Send(c.value.data, members, respondTo, order, outcomes))
  {
  }

  /** What the service returns, if it returns: an error at once without a command, otherwise what
      the handle makes of the command's channel. */
  function ServiceResult(command: Option<Command>, queued: bool, channel: EchoFates.Channel): Option<Result<()>> {
    if command.Some? then EchoFates.HandleSend(queued, channel) else Some(Err)
  }

  /** The command is the one the service sent for the message. */
  predicate Issues(nodeId: NodeId, env: Env, msg: Message, c: Command) {
    c.Send? && ServiceCommand(nodeId, env, msg, c.members, c.respondTo, c.order, c.outcomes) == Some(c)
  }

  /** For every message: the service succeeds exactly when it issued a command that was queued and
      whose broadcast was completed while its caller waited, and waits exactly while that is
      undecided. It succeeds only for broadcasts without id, and fails at once for those with one. */
  lemma ServiceOkIff(h: seq<Command>, i: nat, nodeId: NodeId, env: Env, msg: Message, members: Members,
                     respondTo: Waiter, order: seq<NodeId>, outcomes: seq<bool>,
                     queued: bool, channel: EchoFates.Channel)
    requires EchoFates.DistinctWaiters(h)
    requires var c := ServiceCommand(nodeId, env, msg, members, respondTo, order, outcomes);
      c.Some? ==> i < |h| && h[i] == c.value && channel == EchoFates.ChannelOf(h, i)
    ensures var c := ServiceCommand(nodeId, env, msg, members, respondTo, order, outcomes);
      var result := ServiceResult(c, queued, channel);
      && (result == Some(Ok(())) <==> c.Some? && queued && EchoFates.Answered(EchoFates.Effective(h), i))
      && (result == None <==> c.Some? && queued && Run(h).alive && EchoFates.Pending(h, i))
      && (result == Some(Ok(())) ==> msg.BroadcastMessage? && msg.broadcast.id.None?)
      && (msg.BroadcastMessage? && msg.broadcast.id.Some? ==> result == Some(Err))
  {
    var c := ServiceCommand(nodeId, env, msg, members, respondTo, order, outcomes);
    ServiceStampsBroadcasts(nodeId, env, msg, members, respondTo, order, outcomes);
    if c.Some? {
      EchoFates.HandleOkIff(h, i, queued);
      if EchoFates.Answered(EchoFates.Effective(h), i) {
        EchoFates.EffectiveIs(h);
        EchoFates.OnlyFullSendsWait(EchoFates.Effective(h), i);
      }
    }
  }

  /** Where a command comes from: the service given a message, the event loop passing on a peer's
      broadcast as it is, or an echo handed in. */
  datatype Origin =
    | Service(nodeId: NodeId, env: Env, msg: Message)
    | Relay(broadcast: Broadcast)
    | Received(msg: Message)

  predicate ComesFrom(c: Command, o: Origin) {
    match o
    case Service(nodeId, env, msg) => Issues(nodeId, env, msg, c)
    case Relay(b) => c.Send? && c.data == BroadcastMessage(b)
    case Received(msg) => c == Echo(msg)
  }

  /** The service was given a broadcast, or the message passed on or handed in has an id. */
  predicate Stamped(o: Origin) {
    match o
    case Service(_, _, msg) => msg.BroadcastMessage?
    case Relay(b) => b.id.Some?
    case Received(msg) => msg.BroadcastMessage? && msg.broadcast.id.Some?
  }

  /** The actor outlives a run, wherever its commands come from, if and only if each of them is
      stamped and each send has a member or an id something listed before. */
  lemma NodeRunFailsIff(h: seq<Command>, origins: seq<Origin>)
    requires |origins| == |h|
    requires forall i :: 0 <= i < |h| ==> WellFormed(h[i]) && ComesFrom(h[i], origins[i])
    ensures Run(h).alive
       <==> forall i :: 0 <= i < |h| ==>
              Stamped(origins[i]) && (h[i].Send? && h[i].members == map[] ==> EchoFates.LookupsSucceed(h, i))
  {
    EchoFates.NoFailedLookupIff(h);
    forall i: nat | i < |h| ensures h[i].data.MessageId().Some? <==> Stamped(origins[i]) {
      if origins[i].Service? {
        var o, c := origins[i], h[i];
        ServiceStampsBroadcasts(o.nodeId, o.env, o.msg, c.members, c.respondTo, c.order, c.outcomes);
      }
    }
    assert forall i :: 0 <= i < |h| ==>
      (EchoFates.LookupsSucceed(h, i)
       <==> Stamped(origins[i]) && (h[i].Send? && h[i].members == map[] ==> EchoFates.LookupsSucceed(h, i)));
  }

  /** One broadcast without id passed on from a peer ends the actor: every call that had no answer
      by then, and every later one, fails. */
  lemma UnstampedRelayEnds(h: seq<Command>, c: Command, b: Broadcast, more: seq<Command>, i: nat)
    requires Run(h).alive && ComesFrom(c, Relay(b)) && b.id.None?
    requires i < |h + [c] + more| && (h + [c] + more)[i].Send? && EchoFates.DistinctWaiters(h + [c] + more)
    ensures !Run(h + [c] + more).alive
    ensures EchoFates.HandleSend(true, EchoFates.ChannelOf(h + [c] + more, i))
         == Some(if EchoFates.Answered(h, i) then Ok(()) else Err)
  {
    assert (h + [c])[..|h|] == h;
    EchoFates.DeadStaysDead(h + [c], more);
    EchoFates.EffectiveAtFailure(h, c, more);
    EchoFates.HandleOkIff(h + [c] + more, i, true);
  }

  /** Such an input: a peer's broadcast without id, with that peer as the only member. */
  lemma UnstampedRelayExample()
    ensures var c := Send(BroadcastMessage(RoundOnePackage("peer", "", None)), map["peer" := 0], 0, ["peer"], [true]);
      && WellFormed(c) && ComesFrom(c, Relay(RoundOnePackage("peer", "", None))) && !Run([c]).alive
  {
    var c := Send(BroadcastMessage(RoundOnePackage("peer", "", None)), map["peer" := 0], 0, ["peer"], [true]);
    assert [c][..0] == [];
  }
}
