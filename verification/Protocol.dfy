/** The messages nodes exchange and the reply function of every protocol service.

    A service's `call` is a function of the node's own id, the message, and what it
    reads from outside: the clock, the keys of the membership map (in the order the hash
    map happens to yield them) and the next generated message id. Those three form `Env`. */
module Protocol {
  datatype Option<+T> = None | Some(value: T)

  datatype Result<+T> = Ok(value: T) | Err

  type NodeId = string

  /** A 64-bit hash in the program; nothing depends on its width. */
  type MessageId = nat

  datatype Unicast =
    | Handshake(senderId: NodeId, text: string, version: string)
    | Heartbeat(senderId: NodeId, time: int)
    | Ping(senderId: NodeId, text: string)
    | Membership(senderId: NodeId, members: Option<seq<NodeId>>)

  datatype Broadcast = RoundOnePackage(senderId: NodeId, text: string, id: Option<MessageId>)

  datatype Message =
    | UnicastMessage(unicast: Unicast)
    | BroadcastMessage(broadcast: Broadcast)
  {
    function SenderId(): NodeId {
      match this
      case UnicastMessage(u) => u.senderId
      case BroadcastMessage(b) => b.senderId
    }

    function MessageId(): Option<MessageId> {
      match this
      case UnicastMessage(_) => None
      case BroadcastMessage(b) => b.id
    }
  }

  datatype Env = Env(clock: int, memberKeys: seq<NodeId>, nextId: MessageId)

  type Response = Result<Option<Message>>

  function HandshakeCall(nodeId: NodeId, msg: Message): Response {
    match msg
    case UnicastMessage(Handshake(_, text, _)) =>
      if text == "helo" then Ok(Some(UnicastMessage(Handshake(nodeId, "oleh", "0.1.0"))))
      else if text == "oleh" then Ok(None)
      else Ok(Some(UnicastMessage(Handshake(nodeId, "helo", "0.1.0"))))
    case _ => Ok(None)
  }

  function PingCall(nodeId: NodeId, msg: Message): Response {
    match msg
    case UnicastMessage(Ping(_, text)) =>
      if text == "" then Ok(Some(UnicastMessage(Ping(nodeId, "ping"))))
      else if text == "ping" then Ok(Some(UnicastMessage(Ping(nodeId, "pong"))))
      else Ok(None)
    case _ => Ok(None)
  }

  function HeartbeatCall(nodeId: NodeId, env: Env, msg: Message): Response {
    match msg
    case UnicastMessage(Heartbeat(senderId, _)) =>
      if senderId == "" then Ok(Some(UnicastMessage(Heartbeat(nodeId, env.clock)))) else Ok(None)
    case _ => Ok(None)
  }

  /** The reply carries the id found in the request, not the id of the replying node. */
  function MembershipCall(env: Env, msg: Message): Response {
    match msg
    case UnicastMessage(Membership(senderId, members)) =>
      if members.None? then Ok(Some(UnicastMessage(Membership(senderId, Some(env.memberKeys)))))
      else Ok(None)
    case _ => Ok(None)
  }

  function RoundOnePackageCall(env: Env, msg: Message): Response {
    match msg
    case BroadcastMessage(RoundOnePackage(senderId, text, id)) =>
      if id.Some? then Ok(None)
      else Ok(Some(BroadcastMessage(RoundOnePackage(senderId, text, Some(env.nextId)))))
    case UnicastMessage(_) => Err
  }

  /** The dispatcher: one service per message kind. */
  function Call(nodeId: NodeId, env: Env, msg: Message): Response {
    match msg
    case UnicastMessage(Ping(_, _)) => PingCall(nodeId, msg)
    case UnicastMessage(Handshake(_, _, _)) => HandshakeCall(nodeId, msg)
    case UnicastMessage(Heartbeat(_, _)) => HeartbeatCall(nodeId, env, msg)
    case UnicastMessage(Membership(_, _)) => MembershipCall(env, msg)
    case BroadcastMessage(_) => RoundOnePackageCall(env, msg)
  }

  /** The reliable-send service: the message it hands to the reliable sender, if any, and what it
      returns given what that send returns. */
  function ReliableSendCall(nodeId: NodeId, env: Env, msg: Message, sendResult: Result<()>)
    : (Option<Message>, Result<()>)
  {
    match Call(nodeId, env, msg)
    case Ok(Some(reply)) => (Some(reply), sendResult)
    case _ => (None, Err)
  }

  /** Which messages have a reply, and which: a handshake unless it is the answering one, an empty
      ping or a "ping", a heartbeat without sender, a membership request. The reply is of the same
      kind and under the node's own id, except that a membership reply keeps the id of the request.
      A broadcast is not answered: without an id it is passed on with the next one. The service
      succeeds exactly when there is a reply and it was sent. */
  lemma RepliesInKind(nodeId: NodeId, env: Env, msg: Message, sendResult: Result<()>)
    ensures var (reply, result) := ReliableSendCall(nodeId, env, msg, sendResult);
      && (result.Ok? <==> reply.Some? && sendResult.Ok?)
      && match msg
         case UnicastMessage(Handshake(_, text, _)) =>
           && (reply.None? <==> text == "oleh")
           && (text == "helo" ==> reply == Some(UnicastMessage(Handshake(nodeId, "oleh", "0.1.0"))))
           && (text != "oleh" && text != "helo" ==> reply == Some(UnicastMessage(Handshake(nodeId, "helo", "0.1.0"))))
         case UnicastMessage(Ping(_, text)) =>
           && (reply.Some? <==> text == "" || text == "ping")
           && (text == "" ==> reply == Some(UnicastMessage(Ping(nodeId, "ping"))))
           && (text == "ping" ==> reply == Some(UnicastMessage(Ping(nodeId, "pong"))))
         case UnicastMessage(Heartbeat(senderId, _)) =>
           && (reply.Some? <==> senderId == "")
           && (reply.Some? ==> reply.value == UnicastMessage(Heartbeat(nodeId, env.clock)))
         case UnicastMessage(Membership(senderId, members)) =>
           && (reply.Some? <==> members.None?)
           && (reply.Some? ==> reply.value == UnicastMessage(Membership(senderId, Some(env.memberKeys))))
         case BroadcastMessage(b) =>
           && (reply.Some? <==> b.id.None?)
           && (reply.Some? ==> reply.value == BroadcastMessage(b.(id := Some(env.nextId))))
  {
  }
}
