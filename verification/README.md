# A model of the federation node's messaging core

This project models the layers through which a federation node talks to its peers, and
proves what they guarantee over whole histories.

- **Echo broadcast** (`EchoBroadcast.dfy`, `EchoHistory.dfy`, `EchoFates.dfy`). The actor keeps,
  per message id, a table of who has echoed, the member snapshot, and the caller that waits. A
  `Send` command carries the order in which the member map is walked and the outcome of every
  reliable send, so both are arbitrary. The maps and the answers are shown to be exactly what a
  description of the command history alone says, with reused ids, sends that fail part way and
  echoes that come early all included.
- **Reliable sender and connection** (`ReliableLink.dfy`, `ReliableActors.dfy` and the `Link*`
  files). Two ends joined by two streams of frames. The steps are the stretches between two
  `await` points, so acknowledging a message and delivering it are separate, and so are reading a
  frame and pushing it into the subscription queue. One step system carries seven results: what a
  caller of the handle gets, the accounting of a live ordered connection, ordered delivery when
  connections close, soundness of acknowledgements on a network that loses, repeats and reorders,
  the exact number of messages up to which that soundness holds, the exact condition under which an
  acknowledged message also reached the peer's client, and the exact condition under which the two
  actors of one end wait on each other.
- **Membership** (`Membership.dfy`, `Snapshots.dfy`). The membership actor, the broadcast service,
  and what a snapshot means for the completion of a broadcast, stated over the events at a node.
- **Composition** (`Composition.dfy`, `Realisation.dfy`). The echo actor's loop suspended on real
  links: every such execution is one of the atomic echo actor, with outcomes the peers justify, and
  every execution of the atomic actor is one of these.
- **Unicast conversations** (`Protocol.dfy`, `Quiescence.dfy`). The reply functions and how many
  handler steps they can cause among any number of nodes.

`dafny verify dfyconfig.toml` checks everything.

## How the model reads the code

- Actors handle one command at a time, so a command is one step of the echo, membership and
  protocol models. In the link model a handler is split at its `await` points.
- The outcome of a write, the clock, the next message id, the order of hash map iteration and the
  scheduling of the actors are arbitrary and appear as parameters or as a choice of step.
- A oneshot channel is a name. In the echo model a command carries the name; where two calls must
  not share one this is a hypothesis (`DistinctWaiters`). In the link model the k-th call of a
  handle waits on the k-th channel.
- A failing `unwrap` in the echo actor ends its task: the state then stays as it is, and every
  oneshot sender it held is dropped, so its callers see an error. `EchoFates.Effective` is the part
  of a history handled before that.
- A send queued on a busy connection waits while the connection finishes the frame in hand and
  reads any number of further frames (`incoming`); if the subscription queue fills up meanwhile,
  the handler never comes back.
- The two ends of a link run the same code. Results stated for end a hold of end b because exchanging
  the ends turns runs into runs (`ReliableLink.MirrorRun`).
- Sequence numbers wrap at 2^64, as they do when overflow checks are off.
- Echoes are counted by sender and id, and payloads are not compared, as in the code. Nothing here
  is Byzantine agreement.
- A caller that timed out is one that ignores its answer.

## What turned out not to hold everywhere

- An acknowledgement proves that the peer processed the message exactly while at most 2^64
  messages have been numbered on that end; `LinkReuse.SoundIff` gives both directions.
- A pending send is not always resolved: `LinkProgress.StuckReachable` reaches a state in which the
  reliable sender and its connection wait on each other, and `LinkProgress.ProgressIff` says
  exactly when: the 32-slot subscription queue is full and one more frame is in hand, or the
  connection is open and the socket takes no frame.
- Ok from a reliable send does not always mean that the peer's client received the message:
  `LinkDelivery.LeakedRun` is a run in which the acknowledgement got out of a connection that then
  ended, so the message was dropped. `LinkDelivery.DeliveryIff` says exactly when Ok means
  delivery: no such acknowledgement, and a client that is still open.
- Unicast conversations end within 3k steps exactly when no heartbeat with an empty sender is in
  flight between two nodes whose ids are both empty (`Quiescence.QuiescenceIff`).
- The lookups of the echo actor succeed exactly when every command carries an id and a send to no
  members comes after something put its id into the table (`EchoFates.NoFailedLookupIff`). Commands
  of the broadcast service always carry an id when the service was given a broadcast, but the event
  loop passes a peer's broadcast on as it is (`src/node.rs:376-379`). One without id ends the actor
  (`Membership.UnstampedRelayExample`), and every call not answered by then fails
  (`Membership.UnstampedRelayEnds`); `Membership.NodeRunFailsIff` covers commands of either origin.
- The comment in `src/node/protocol/membership.rs:67-68` says the membership service does not
  respond with anything; the code answers an empty request, under the id found in the request.
  The model follows the code.

## Model

| member | source | states |
|---|---|---|
| `Protocol.RepliesInKind` | src/node/reliable_sender/service.rs:57-73 | For every message whether there is a reply and exactly which one; the service succeeds exactly when there is a reply and it was sent |
| `Quiescence.ReplyCost` | src/node/protocol/handshake.rs:69-98 | Every reply causes exactly one handler step less than the message it answers, for handshake, ping, heartbeat and membership alike |
| `Quiescence.RunCost` | src/node.rs:314-340 | In every run among any number of nodes, steps taken plus steps still owed never exceed the cost of the packets at the start, are equal to it when no reply is lost, and that cost is at most three per packet |
| `Quiescence.SilenceExactlyAtCost` | src/node/protocol.rs:158-180 | With no reply lost, the network is silent exactly after as many steps as the initial packets cost |
| `Quiescence.EndlessRuns` | src/node/protocol/heartbeat.rs:71-91 | An empty-sender heartbeat between two nodes with empty ids keeps them busy for any number of steps |
| `Quiescence.QuiescenceIff` | src/node/protocol/heartbeat.rs:71-91 | k packets cause at most 3k steps if and only if no such heartbeat is in flight |
| `Quiescence.NamedNodesFallSilent` | src/node.rs:110-116 | With non-empty node ids every conversation ends within that bound |
| `Quiescence.ConversationsStay` | src/node.rs:346-361 | Every packet of a run travels between two endpoints of a packet in flight at the start, in one of the two directions, and carries a message of the same kind |
| `EchoBroadcast.EchoBroadcastActor.SendMessage` | src/node/echo_broadcast/mod.rs:92-122 | The loop over the members with its early exit performs the Send step of the history model, whatever the walk order and outcomes, and succeeds exactly when every member was reached and the lookup worked |
| `EchoBroadcast.EchoBroadcastActor.AddEcho` | src/node/echo_broadcast/mod.rs:134-149 | Sets one node's entry to true, making the row if there is none, and changes nothing else |
| `EchoBroadcast.EchoBroadcastActor.HandleReceivedEcho` | src/node/echo_broadcast/mod.rs:152-173 | Performs the Echo step: confirm the sender, and if the whole row is true answer and forget the waiter |
| `EchoBroadcast.EchoBroadcastActor.HandleMessage` | src/node/echo_broadcast/mod.rs:71-84 | Any command performs its step |
| `EchoBroadcast.EchoBroadcastActor.Serve` | src/node/echo_broadcast/mod.rs:191-200 | The task's loop leaves the actor in the state of the whole command history |
| `EchoHistory.TableExact` | src/node/echo_broadcast/mod.rs:92-149 | After any history without a failed lookup k is listed under id iff it was reached by a send of id, echoed id or originated a fully sent id, and is true iff one of the last two holds, with id and sender read off the broadcast's own fields |
| `EchoHistory.SenderConfirmed` | src/node/echo_broadcast/mod.rs:114-161 | After an echo, or a full send, of a broadcast with sender k and id, k is true under that id for good |
| `EchoHistory.RowsExact` | src/node/echo_broadcast/mod.rs:109-118 | A row exists exactly for ids under which the history lists somebody |
| `EchoHistory.AllEchoedExact` | src/node/echo_broadcast/mod.rs:125-131 | The completion test holds exactly when everybody the history lists under the id is confirmed by it |
| `EchoHistory.WaitersExact` | src/node/echo_broadcast/mod.rs:120-120 | A waiter is held for id iff some full send of id was neither completed nor followed by another, and it is that send's waiter |
| `EchoHistory.SnapshotsExact` | src/node/echo_broadcast/mod.rs:112-112 | The snapshot kept for id is the member map of the last full send of id |
| `EchoHistory.CompletionExact` | src/node/echo_broadcast/mod.rs:152-173 | A command answers a waiter Ok iff it is an echo that completes the id while a send with that waiter is waiting |
| `EchoHistory.CompletionBetweenSends` | src/node/echo_broadcast/mod.rs:159-161 | Until the next send of the id an echo completes it iff every node the send left false has echoed since |
| `EchoHistory.AnsweredAtFirstSettlingEcho` | src/node/echo_broadcast/mod.rs:152-173 | The waiter is answered Ok at precisely the first echo of the id by which every node left false has echoed, never earlier and never later |
| `EchoHistory.OkMeansEveryMember` | src/node/echo_broadcast/mod.rs:86-122 | When a waiter is answered Ok every member of its send has echoed the id or originated a full send of it |
| `EchoFates.ExactlyOneFate` | src/node/echo_broadcast/mod.rs:104-120 | Every send's waiter is in exactly one of pending, answered Ok, failed, displaced |
| `EchoFates.WaitersConserved` | src/node/echo_broadcast/mod.rs:104-171 | Sends handled equal waiters held plus answers given plus waiters displaced |
| `EchoFates.AnswersExact` | src/node/echo_broadcast/mod.rs:106-171 | An answer is in the log iff the fate of some send explains it |
| `EchoFates.NoSecondAnswer` | src/node/echo_broadcast/mod.rs:162-167 | No waiter is answered twice |
| `EchoFates.HandleOkIff` | src/node/echo_broadcast/mod.rs:203-220 | After any history, failed lookups included: a call returns Ok exactly when it was queued and its own broadcast was completed while it waited, is still waiting exactly while the actor lives and nothing decided its fate, and returns an error otherwise |
| `EchoFates.NoFailedLookupIff` | src/node/echo_broadcast/mod.rs:101-131 | No unwrap fails in a history iff every command carries an id and every send has a member or an id already in the table |
| `EchoFates.DeadStaysDead` | src/node/echo_broadcast/mod.rs:194-198 | After a failed lookup no command changes anything |
| `EchoFates.EffectiveIs` | src/node/echo_broadcast/mod.rs:101-118 | A command whose lookup fails answers, registers and lists nobody: table, waiters and answers are those of the run before it |
| `EchoFates.EffectiveLongest` | src/node/echo_broadcast/mod.rs:191-200 | After a failed lookup the first command without effect is one whose lookup fails |
| `EchoFates.TableAlwaysExact` | src/node/echo_broadcast/mod.rs:92-149 | The exact description of the table holds after any history, failed lookups included |
| `EchoFates.TableIgnoresOrder` | src/node/echo_broadcast/mod.rs:103-149 | Histories of the same commands in any order and with any repetition leave the same table |
| `EchoFates.FullSendIgnoresWalk` | src/node/echo_broadcast/mod.rs:103-121 | A fully successful send leaves the same state for every order of walking the members |
| `EchoFates.BroadcastsIndependent` | src/node/echo_broadcast/mod.rs:71-173 | Row, snapshot, waiter and answers of one id are those of running that id's commands alone |
| `ReliableLink.MirrorRun` | src/node/reliable_sender/mod.rs:64-71 | Exchanging the two ends turns runs into runs, so results about one end hold of the other |
| `ReliableLink.ClosedForGood` | src/node/connection.rs:124-162 | A connection that has closed stays closed in every continuation of the run |
| `ReliableLink.AnyStream` | src/node/connection.rs:139-149 | The network of the model can turn a stream into any sequence of the frames on it, in any order and with any loss or repetition, so the results about it cover all such streams |
| `ReliableActors.ConnectionActor.HandleSend` | src/node/connection.rs:88-110 | Whatever the rest of the end is, handling a send is the link's Write step, or Close followed by Fail when the write fails; it succeeds exactly when the actor stays open |
| `ReliableActors.ConnectionActor.ReadNext` | src/node/connection.rs:139-149 | Whatever the rest of the end is, taking a frame off the stream is the link's Read step |
| `ReliableActors.ConnectionActor.HandleReceived` | src/node/connection.rs:112-121 | Delivering the frame in hand is the link's Push step when the subscription queue has room, and changes nothing while it is full |
| `ReliableActors.ConnectionActor.ReadFirst` | src/node/connection.rs:130-161 | What the loop does before it gets to a queued request, for any number of incoming frames, is the sequence of Push and Read steps that are possible |
| `ReliableActors.ConnectionActor.Send` | src/node/connection.rs:192-201 | For any number of frames read first: the end becomes what the suspended send of the link makes of it; no reply exactly when the queue filled up with a frame in hand; otherwise Ok exactly on an open connection whose write succeeds, and a closed one changes nothing |
| `ReliableActors.SuspendedSend` | src/node/connection.rs:130-161 | A suspended send, whatever the connection reads before it gets to it, is a sequence of steps of the link; afterwards it is still pending exactly when the queue is full and a frame is in hand |
| `ReliableActors.BusyReads` | src/node/connection.rs:139-149 | Before it gets to a request the connection reads as many frames as come in unless the queue fills up, keeps all of them in order and writes nothing |
| `ReliableActors.SuspendedWrites` | src/node/connection.rs:88-110 | A suspended send that comes back has put exactly its own frame on the stream if the connection was open and the write succeeded or failed late, and nothing otherwise |
| `ReliableActors.ReliableSenderActor.HandleMessage` | src/node/reliable_sender/mod.rs:90-113 | The whole handler, for any incoming frames meanwhile, is the link's TakeCommand step followed by the steps of the suspended send, so it is a stretch of a run of the link; it stays suspended exactly when that send does |
| `ReliableActors.ReliableSenderActor.HandleConnectionMessage` | src/node/reliable_sender/mod.rs:118-153 | The whole handler is a stretch of a run of the link starting with TakeFrame; a message is appended to an open client exactly when its acknowledgement was written, and nothing else changes what the client has |
| `LinkOrder.TransitOut` | src/node/connection.rs:97-105 | A step adds to what is on its way out only the newly numbered frame or the acknowledgement just written, at the end |
| `LinkOrder.TransitIn` | src/node/connection.rs:112-121 | A step takes from what is on its way in only the frame it acknowledges or consumes, at the front |
| `LinkLive.InFlightAccounting` | src/node/reliable_sender/mod.rs:95-153 | On a live ordered connection: end a's waiting table, the acknowledgements on their way back, its messages on their way out and the delivered ones partition its accepted sequence in order |
| `LinkLive.AccountedBothWays` | src/node/reliable_sender/mod.rs:95-153 | The same of what end b sends, at the same time, if end b keeps to its window too |
| `LinkLive.EachNumberInOnePlace` | src/node/reliable_sender/mod.rs:104-145 | On a live ordered connection with at most 2^64 of end a's messages unanswered at any time, a number of end a is waiting iff its message or its acknowledgement is somewhere on its way, and then in one place only |
| `LinkLive.DrainedMeansDone` | src/node/reliable_sender/mod.rs:123-150 | Under the same window for end a: when nothing is on its way end a's table is empty, every message it accepted was answered and an open client got exactly those messages in order |
| `LinkLive.PendingWindow` | src/node/reliable_sender/mod.rs:90-106 | Below the u64 limit the pending keys are the interval from one past the last acknowledged number to the sequence number, which counts the sends |
| `LinkLive.OverwriteIff` | src/node/reliable_sender/mod.rs:104-106 | Under the same window for end a: its next insert overwrites a waiter iff 2^64 are waiting |
| `LinkFifo.StepKeepsOrder` | src/node/connection.rs:130-161 | Every step, including closing and losing the tail of a stream, keeps received plus deliverable messages a prefix of the accepted ones |
| `LinkFifo.DeliveredIsPrefix` | src/node/reliable_sender/mod.rs:123-137 | Over an ordered stream each client has always received a prefix of what the other end accepted, wherever connections and clients close |
| `LinkFifo.TailLostRun` | src/node/connection.rs:97-101 | A prefix is all one can have: a run in which the only message was written and is lost with the tail of a broken stream |
| `LinkAck.AnsweredMeansProcessed` | src/node/reliable_sender/mod.rs:138-145 | Under loss, repetition, reordering and closing, up to 2^64 messages: an answered call's message was processed by the peer under its number, and no number is answered twice |
| `LinkCalls.HandleOkIff` | src/node/reliable_sender/mod.rs:198-217 | For every state and call: the handle returns Ok exactly when the call was queued and answered, and does not return exactly while a queued call waits |
| `LinkCalls.HandleOkMeansProcessed` | src/node/reliable_sender/mod.rs:198-217 | The handle's Ok means the peer processed that call's message, although the handle looks only at whether a reply came |
| `LinkCalls.QueuedCallsNeverFail` | src/node/reliable_sender/mod.rs:95-153 | While at most 2^64 messages were numbered, on any network and however connections close, a queued call returns Ok or waits; it never returns an error |
| `LinkCalls.LiveCallsInOrder` | src/node/reliable_sender/mod.rs:138-145 | On a live ordered connection within the window the calls that have returned are the first ones, all with Ok, and all others wait |
| `LinkCalls.DrainedCallsOk` | src/node/reliable_sender/mod.rs:198-217 | When nothing is on its way every accepted call has returned Ok |
| `LinkDelivery.AnsweredMeansDelivered` | src/node/reliable_sender/mod.rs:123-137 | On an ordered stream with at most 2^64 messages, if no acknowledgement got out of an ending connection and the peer's client is open, an answered call's message was handed to that client or is just being handed over |
| `LinkDelivery.LeakedRun` | src/node/reliable_sender/mod.rs:124-132 | A run in which the only message is acknowledged and answered, and never delivered to the open client |
| `LinkDelivery.ClosedClientRun` | src/node/reliable_sender/mod.rs:133-136 | A run without such an acknowledgement in which the message is answered, and not delivered because the client closed |
| `LinkDelivery.DeliveryIff` | src/node/reliable_sender/mod.rs:123-137 | Ok means delivered in all ordered runs iff neither of the two is admitted |
| `LinkReuse.ReusedNumberMisleads` | src/node/reliable_sender/mod.rs:90-93 | Past 2^64 messages there are runs in which an old acknowledgement answers a call whose message was never processed |
| `LinkReuse.SoundIff` | src/node/reliable_sender/mod.rs:90-106 | Acknowledgements are sound in all runs that number k messages iff k is at most 2^64 |
| `LinkProgress.ProgressIff` | src/node/connection.rs:181-182 | Whether or not the socket takes frames: a pending send can still be resolved without the connection breaking iff it is not the case that the queue is full and one more frame is in hand, and the socket has room or the connection is closed already |
| `LinkProgress.UnblockWorks` | src/node/reliable_sender/mod.rs:104-131 | In that case at most two steps of the end resolve it |
| `LinkProgress.QueuesBounded` | src/node/reliable_sender/mod.rs:187-188 | In every run the command and subscription queues hold at most 32 entries and at most 33 frames are read but not taken; a pending send is stuck exactly at 33 |
| `LinkProgress.QueueMany` | src/node/reliable_sender/mod.rs:187-187 | Any number of calls up to 32 can be queued |
| `LinkProgress.StuckForever` | src/node/connection.rs:112-121 | Once stuck, no step of either end and nothing the network does frees it |
| `LinkProgress.StuckReachable` | src/node/connection.rs:130-161 | An ordered run with both connections open reaches that state with 33 frames read but not taken |
| `Membership.FoldExact` | src/node/membership.rs:45-67 | The members are exactly the nodes whose last command was an Add, with the handle of that Add |
| `Membership.ReplyExact` | src/node/membership.rs:45-67 | A snapshot reply holds exactly the nodes whose last command was an Add, with its handle; a removal returns the handle of the node's last Add iff that was its last command |
| `Membership.MembershipActor.RemoveMember` | src/node/membership.rs:55-62 | Removes one member and returns the handle it had, if any |
| `Membership.MembershipActor.Serve` | src/node/membership.rs:69-81 | The members are the fold of the commands, and every reply is correct for the commands handled before it in the sense of `ReplyExact` |
| `Membership.ServiceStampsBroadcasts` | src/node/echo_broadcast/service.rs:63-79 | The service sends a command for a broadcast iff it has no id yet, stamps it with the generated id and leaves sender and text unchanged; only broadcasts give commands with an id |
| `Membership.ServiceOkIff` | src/node/echo_broadcast/service.rs:63-79 | For every message and history: the service returns Ok exactly when it issued a command that was queued and whose broadcast was completed while its caller waited, and waits exactly while that is undecided; Ok only for broadcasts without id, an error at once for those with one |
| `Membership.NodeRunFailsIff` | src/node.rs:363-390 | For commands from the service, passed on by the event loop or handed in as echoes: no lookup fails in a run iff the service was given broadcasts, everything else carries an id, and every send has a member or an id listed before |
| `Membership.UnstampedRelayEnds` | src/node.rs:376-379 | Passing on a peer's broadcast without id ends the actor, and every call not answered before it fails, later ones included |
| `Membership.UnstampedRelayExample` | src/node.rs:376-379 | A concrete such broadcast |
| `Snapshots.HistoryExact` | src/node/echo_broadcast/service.rs:66-71 | The echo actor's commands are those of the broadcasts and echoes at the node, in order, and each send carries exactly the nodes whose last membership event before its snapshot was an Add, with their handles |
| `Snapshots.LaterMembersIrrelevant` | src/node/echo_broadcast/service.rs:69-70 | Two continuations of a run, with any membership commands and any other broadcasts, agree on the row, snapshot, waiter and answers of an id as soon as they have the same echoes of it and do not send it again |
| `Snapshots.WaitsForSnapshot` | src/node/echo_broadcast/mod.rs:103-118 | A fully sent broadcast with a fresh id waits for exactly the nodes whose last membership event before its snapshot was an Add, less the originator and those who echoed already |
| `Snapshots.SnapshotDecidesCompletion` | src/node/echo_broadcast/service.rs:63-79 | Whatever membership commands and whatever broadcasts of other ids follow, the broadcast is answered Ok at the first echo event by which every member of its snapshot has echoed, and at no other event |
| `Composition.ComposedRefinesAtomic` | src/node/echo_broadcast/mod.rs:103-121 | Every execution over suspended loops and real links is one of the atomic actor; every member a send reached has a call of its own, distinct from all other calls on that link, whose message the peer processed under that call's number |
| `Composition.RegisteredMeansProcessed` | src/node/echo_broadcast/mod.rs:103-120 | Once a broadcast is registered as waiting, for every member of its snapshot the call made for this very send was processed by the peer under its own number, so an earlier copy of the message does not count |
| `Composition.OkMeansProcessed` | src/node/echo_broadcast/mod.rs:159-167 | The same holds of every broadcast answered Ok |
| `Composition.ComposedIsAtomic` | src/node/echo_broadcast/mod.rs:92-122 | Without any limit on the number of messages: between loops the actor is in the state of its logged commands, and inside a loop it differs from that by the members listed so far only |
| `Realisation.Exchange` | src/node/reliable_sender/mod.rs:95-153 | A call queued on a calm link can be carried through to its answer, after which the link is calm again |
| `Realisation.AtomicRealised` | src/node/echo_broadcast/mod.rs:92-122 | Conversely every history of the atomic actor up to a failed lookup, with any walk orders and outcomes, happens over real links and leaves the actor in the same state |

## Left out

- TCP listening, connecting and length-delimited framing, the Noise handshake and encryption, and
  the encoding of messages: frames are values.
- Generation of message ids from the clock and a hash: ids are arbitrary, and uniqueness is a
  hypothesis where it is used.
- The connections between an arriving broadcast and an `Echo` command: no caller in the code sends
  one, so `Echo` commands are arbitrary input.
- Timeouts of the service layers.
- Capacity of the queue to the client and of the echo and membership command queues: a delivery
  may be delayed for any time, which covers a full queue, but nothing is claimed about when it ends.
- When the TCP stream has room for another frame: that is the network's choice, a parameter in
  `LinkProgress` and a delay elsewhere.
- The membership handle's wrappers around a reply, which turn a missing one into an error.
- The tokio select loops as loops: their scheduling is the free choice of the next step.
- `sequence_number` in builds with overflow checks, where the 2^64-th increment ends the task.
- A broken stream that delivers a frame cut in the middle: it counts as lost with its tail.
- Removal of members after a disconnect: the reliable sender's loop has no exit, so nothing is
  claimed about it.
- Liveness of broadcasts: member keys are socket addresses while echoes carry bind addresses, so
  whether the echoes waited for ever come is outside the model.
- Key generation and Byzantine agreement, command line, configuration and logging.
