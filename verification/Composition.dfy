/** The echo actor over reliable links.

    `send_message` suspends at every member until that member's reliable sender is answered, and
    meanwhile the links go on, carrying other traffic too. The actor handles no other command
    until the loop ends, so each finished loop is one `Send` of the atomic model, with outcomes
    that the links justify. `history` logs these commands, and `acked` the calls the loops
    made on the links and saw answered. */
module Composition {
  import opened Protocol
  import opened EchoBroadcast
  import opened EchoHistory
  import opened EchoFates
  import Link = ReliableLink
  import LinkAck

  /** The loop of `send_message`: how many members are done, and the call it is suspended on. */
  datatype Loop = Loop(
    data: Message,
    members: Members,
    respondTo: Waiter,
    order: seq<NodeId>,
    done: nat,
    call: Option<nat>)

  /** A call that was answered: which send it was for, the member, the link, its position among the
      calls on that link, and the message. */
  datatype Acked = Acked(send: nat, node: NodeId, handle: Handle, call: nat, msg: Message)

  /** A node: its echo actor, and a link to each peer with this node at end a. */
  datatype Node = Node(
    echo: Actor,
    loop: Option<Loop>,
    links: map<Handle, Link.Sys>,
    history: seq<Command>,
    acked: seq<Acked>)

  datatype Action =
    | Begin(data: Message, members: Members, respondTo: Waiter, order: seq<NodeId>)
    | Hear(data: Message)
    | Issue
    | Advance
    | Abort
    | Finish
    | OnLink(handle: Handle, event: Link.Event)

  /** Outcomes of a loop that went through its first `done` members. */
  function Outcomes(done: nat, n: nat): seq<bool> {
    seq(n, i requires 0 <= i < n => i < done)
  }

  function CommandOf(l: Loop): Command {
    Send(l.data, l.members, l.respondTo, l.order, Outcomes(l.done, |l.order|))
  }

  function CurrentHandle(l: Loop): Option<Handle> {
    if l.done < |l.order| && l.order[l.done] in l.members then Some(l.members[l.order[l.done]]) else None
  }

  ghost predicate Enabled(n: Node, act: Action) {
    match act
    case Begin(data, members, w, order) =>
      && n.echo.alive && n.loop.None?
      && WellFormed(CommandOf(Loop(data, members, w, order, 0, None)))
      && forall k :: k in members ==> members[k] in n.links
    case Hear(_) => n.echo.alive && n.loop.None?
    case Issue =>
      && n.loop.Some? && n.loop.value.call.None?
      && var h := CurrentHandle(n.loop.value);
         h.Some? && h.value in n.links && Link.Possible(n.links[h.value], Link.ByA(Link.Submit(n.loop.value.data)))
    case Advance =>
      && n.loop.Some? && n.loop.value.call.Some?
      && var h := CurrentHandle(n.loop.value);
         h.Some? && h.value in n.links && LinkAck.AnsweredCall(n.links[h.value].a, n.loop.value.call.value)
    case Abort => n.loop.Some? && n.loop.value.done < |n.loop.value.order|
    case Finish => n.loop.Some? && n.loop.value.done == |n.loop.value.order|
    case OnLink(h, ev) => h in n.links && Link.Possible(n.links[h], ev)
  }

  function EndLoop(n: Node): Node
    requires n.loop.Some?
  {
    var l := n.loop.value;
    if l.data.MessageId().None? then n
    else n.(echo := FinishSend(n.echo, l.data.MessageId().value, CommandOf(l)),
            loop := None,
            history := n.history + [CommandOf(l)])
  }

  ghost function Next(n: Node, act: Action): Node
    requires Enabled(n, act)
  {
    match act
    case Begin(data, members, w, order) =>
      var l := Loop(data, members, w, order, 0, None);
      if data.MessageId().None?
      then n.(echo := n.echo.(alive := false), history := n.history + [CommandOf(l)])
      else n.(loop := Some(l))
    case Hear(data) => n.(echo := StepEcho(n.echo, data), history := n.history + [Echo(data)])
    case Issue =>
      var l := n.loop.value;
      var h := CurrentHandle(l).value;
      var e := n.links[h].a;
      n.(loop := Some(l.(call := Some(|e.accepted| + |e.commands|))),
         links := n.links[h := Link.Happen(n.links[h], Link.ByA(Link.Submit(l.data)))])
    case Advance =>
      var l := n.loop.value;
      if l.data.MessageId().None? then n
      else n.(echo := n.echo.(echos := ListMember(n.echo.echos, l.data.MessageId().value, l.order[l.done])),
              loop := Some(l.(done := l.done + 1, call := None)),
              acked := n.acked + [Acked(|n.history|, l.order[l.done], CurrentHandle(l).value, l.call.value, l.data)])
    case Abort => EndLoop(n)
    case Finish => EndLoop(n)
    case OnLink(h, ev) => n.(links := n.links[h := Link.Happen(n.links[h], ev)])
  }

  function Start(handles: set<Handle>): Node {
    Node(INIT, None, map h | h in handles :: Link.NEW_SYS, [], [])
  }

  ghost function Perform(handles: set<Handle>, acts: seq<Action>): Option<Node> {
    if acts == [] then Some(Start(handles))
    else
      match Perform(handles, acts[..|acts| - 1])
      case None => None
      case Some(n) => if Enabled(n, acts[|acts| - 1]) then Some(Next(n, acts[|acts| - 1])) else None
  }

  // ---------------------------------------------------------------- the invariant

  /** The peer has processed the message of this call, under the number of this call. */
  ghost predicate ProcessedAs(s: Link.Sys, call: nat, msg: Message) {
    && call < |s.a.accepted| && s.a.accepted[call].msg == msg
    && Link.Data(msg, (call + 1) % Link.U64) in s.b.processed
  }

  ghost predicate AckedOk(links: map<Handle, Link.Sys>, acked: seq<Acked>) {
    forall p :: 0 <= p < |acked| ==>
      acked[p].handle in links && ProcessedAs(links[acked[p].handle], acked[p].call, acked[p].msg)
  }

  /** No two logged calls on a link are the same; later ones come later. */
  ghost predicate CallsGrow(acked: seq<Acked>) {
    forall p, q :: 0 <= p < q < |acked| && acked[p].handle == acked[q].handle ==> acked[p].call < acked[q].call
  }

  /** A call was logged for member k of the given send. */
  ghost predicate AckedFor(acked: seq<Acked>, send: nat, members: Members, k: NodeId, msg: Message) {
    && k in members
    && exists p :: 0 <= p < |acked| && acked[p] == Acked(send, k, members[k], acked[p].call, msg)
  }

  ghost predicate Justified(acked: seq<Acked>, send: nat, c: Command) {
    c.Send? ==> forall k :: k in Reached(c) ==> AckedFor(acked, send, c.members, k, c.data)
  }

  function Calls(e: Link.End): seq<Link.AckWaiter> {
    e.accepted + e.commands
  }

  /** The call the loop is suspended on: it is on the current member's link, carries the message,
      and comes after every logged one there. */
  ghost predicate CallOk(links: map<Handle, Link.Sys>, acked: seq<Acked>, l: Loop, call: nat) {
    && CurrentHandle(l).Some?
    && var h := CurrentHandle(l).value;
       && h in links && call < |Calls(links[h].a)| && Calls(links[h].a)[call].msg == l.data
       && forall p :: 0 <= p < |acked| && acked[p].handle == h ==> acked[p].call < call
  }

  ghost predicate LoopOk(n: Node, l: Loop) {
    && l.data.MessageId().Some? && l.done <= |l.order|
    && WellFormed(CommandOf(l))
    && (forall k :: k in l.members ==> l.members[k] in n.links)
    && (forall j :: 0 <= j < l.done ==> AckedFor(n.acked, |n.history|, l.members, l.order[j], l.data))
    && (l.call.Some? ==> CallOk(n.links, n.acked, l, l.call.value))
  }

  ghost predicate EchoOk(n: Node) {
    match n.loop
    case None => n.echo == Run(n.history)
    case Some(l) =>
      && Run(n.history).alive && l.data.MessageId().Some? && l.done <= |l.order|
      && n.echo == Run(n.history).(echos :=
           ListMembers(Run(n.history).echos, l.data.MessageId().value, l.order[..l.done]))
  }

  ghost predicate HistoryOk(n: Node) {
    forall i :: 0 <= i < |n.history| ==> WellFormed(n.history[i]) && Justified(n.acked, i, n.history[i])
  }

  ghost predicate LinksOk(n: Node) {
    forall h :: h in n.links ==> LinkAck.SoundAtA(n.links[h])
  }

  ghost predicate NodeOk(n: Node) {
    && HistoryOk(n) && EchoOk(n) && (n.loop.Some? ==> LoopOk(n, n.loop.value))
    && AckedOk(n.links, n.acked) && CallsGrow(n.acked)
  }

  /** No link has numbered more than 2^64 messages for this node. */
  ghost predicate BelowLimit(n: Node) {
    forall h :: h in n.links ==> |n.links[h].a.accepted| <= Link.U64
  }

  // ---------------------------------------------------------------- steps of the links

  lemma LinkGrows(s: Link.Sys, ev: Link.Event)
    requires Link.Possible(s, ev)
    ensures Calls(s.a) <= Calls(Link.Happen(s, ev).a)
    ensures s.a.accepted <= Link.Happen(s, ev).a.accepted
    ensures s.b.processed <= Link.Happen(s, ev).b.processed
  {
    var s' := Link.Happen(s, ev);
    if ev.ByA? && ev.act.TakeCommand? {
      assert s.a.commands == [s.a.commands[0]] + s.a.commands[1..];
      assert Calls(s'.a) == Calls(s.a);
    }
  }

  ghost function AfterLink(n: Node, h: Handle, ev: Link.Event): Node
    requires h in n.links && Link.Possible(n.links[h], ev)
  {
    n.(links := n.links[h := Link.Happen(n.links[h], ev)])
  }

  lemma LinksStaySound(n: Node, h: Handle, ev: Link.Event)
    requires LinksOk(n) && h in n.links && Link.Possible(n.links[h], ev)
    requires BelowLimit(AfterLink(n, h, ev))
    ensures LinksOk(AfterLink(n, h, ev))
  {
    assert AfterLink(n, h, ev).links[h] == Link.Happen(n.links[h], ev);
    LinkAck.StepKeepsSound(n.links[h], ev);
  }

  lemma ProcessedStays(s: Link.Sys, s': Link.Sys, call: nat, msg: Message)
    requires ProcessedAs(s, call, msg)
    requires s.b.processed <= s'.b.processed && s.a.accepted <= s'.a.accepted
    ensures ProcessedAs(s', call, msg)
  {
    var i :| 0 <= i < |s.b.processed| && s.b.processed[i] == Link.Data(msg, (call + 1) % Link.U64);
    assert s'.b.processed[i] == s.b.processed[i];
  }

  lemma AckedStays(links: map<Handle, Link.Sys>, acked: seq<Acked>, h: Handle, s': Link.Sys)
    requires AckedOk(links, acked) && h in links
    requires links[h].b.processed <= s'.b.processed && links[h].a.accepted <= s'.a.accepted
    ensures AckedOk(links[h := s'], acked)
  {
    forall call: nat, msg | ProcessedAs(links[h], call, msg) ensures ProcessedAs(s', call, msg) {
      ProcessedStays(links[h], s', call, msg);
    }
  }

  lemma CallStays(links: map<Handle, Link.Sys>, acked: seq<Acked>, l: Loop, call: nat, h: Handle, s': Link.Sys)
    requires CallOk(links, acked, l, call) && h in links && Calls(links[h].a) <= Calls(s'.a)
    ensures CallOk(links[h := s'], acked, l, call)
  {
  }

  lemma LinkStepKeeps(n: Node, h: Handle, ev: Link.Event)
    requires NodeOk(n) && h in n.links && Link.Possible(n.links[h], ev)
    ensures NodeOk(AfterLink(n, h, ev))
  {
    var n' := AfterLink(n, h, ev);
    LinkGrows(n.links[h], ev);
    AckedStays(n.links, n.acked, h, Link.Happen(n.links[h], ev));
    assert EchoOk(n') && HistoryOk(n');
    if n.loop.Some? && n.loop.value.call.Some? {
      CallStays(n.links, n.acked, n.loop.value, n.loop.value.call.value, h, Link.Happen(n.links[h], ev));
    }
  }

  // ---------------------------------------------------------------- steps of the echo actor

  lemma RunSnoc(h: seq<Command>, c: Command)
    ensures Run(h + [c]) == Step(Run(h), c)
  {
  }

  lemma OutcomesSuccesses(done: nat, n: nat)
    requires done <= n
    ensures Successes(Outcomes(done, n)) == done
  {
    SuccessesIs(Outcomes(done, n), done);
  }

  lemma HistoryGrows(n: Node, n': Node, c: Command)
    requires HistoryOk(n) && n'.history == n.history + [c] && n'.acked == n.acked
    requires WellFormed(c) && Justified(n.acked, |n.history|, c)
    ensures HistoryOk(n')
  {
  }

  lemma BeginKeeps(n: Node, act: Action)
    requires NodeOk(n) && act.Begin? && Enabled(n, act)
    ensures NodeOk(Next(n, act))
  {
    var l := Loop(act.data, act.members, act.respondTo, act.order, 0, None);
    var n' := Next(n, act);
    if act.data.MessageId().None? {
      OutcomesSuccesses(0, |l.order|);
      RunSnoc(n.history, CommandOf(l));
      HistoryGrows(n, n', CommandOf(l));
    } else {
      assert l.order[..0] == [];
    }
  }

  lemma HearKeeps(n: Node, data: Message)
    requires NodeOk(n) && Enabled(n, Hear(data))
    ensures NodeOk(Next(n, Hear(data)))
  {
  }

  /** A new call comes after all logged ones. */
  lemma NewCallOk(n: Node, l: Loop, h: Handle, call: nat)
    requires AckedOk(n.links, n.acked) && CurrentHandle(l) == Some(h) && h in n.links
    requires |n.links[h].a.accepted| <= call < |Calls(n.links[h].a)| && Calls(n.links[h].a)[call].msg == l.data
    ensures CallOk(n.links, n.acked, l, call)
  {
    forall p | 0 <= p < |n.acked| && n.acked[p].handle == h ensures n.acked[p].call < call {
      assert ProcessedAs(n.links[h], n.acked[p].call, n.acked[p].msg);
    }
  }

  lemma SubmitIsLast(s: Link.Sys, data: Message)
    requires Link.Possible(s, Link.ByA(Link.Submit(data)))
    ensures var c := |s.a.accepted| + |s.a.commands|;
      var cs := Calls(Link.Happen(s, Link.ByA(Link.Submit(data))).a);
      |s.a.accepted| <= c < |cs| && cs[c].msg == data
      && Link.Happen(s, Link.ByA(Link.Submit(data))).a.accepted == s.a.accepted
  {
  }

  /** Only the loop changed, and not how far it has come. */
  lemma LoopChanged(n: Node, n': Node)
    requires NodeOk(n) && n.loop.Some? && n'.loop.Some?
    requires n' == n.(loop := Some(n.loop.value.(call := n'.loop.value.call)))
    requires LoopOk(n', n'.loop.value)
    ensures NodeOk(n')
  {
  }

  lemma IssueKeeps(n: Node)
    requires NodeOk(n) && Enabled(n, Issue)
    ensures NodeOk(Next(n, Issue))
  {
    var l := n.loop.value;
    var h := CurrentHandle(l).value;
    var ev := Link.ByA(Link.Submit(l.data));
    var mid, n' := AfterLink(n, h, ev), Next(n, Issue);
    LinkStepKeeps(n, h, ev);
    SubmitIsLast(n.links[h], l.data);
    assert mid.links[h] == Link.Happen(n.links[h], ev);
    NewCallOk(mid, l, h, n'.loop.value.call.value);
    LoopChanged(mid, n');
  }

  lemma AnsweredCallProcessed(s: Link.Sys, call: nat, msg: Message)
    requires LinkAck.SoundAtA(s) && LinkAck.AnsweredCall(s.a, call)
    requires call < |Calls(s.a)| && Calls(s.a)[call].msg == msg
    ensures ProcessedAs(s, call, msg)
  {
    var i :| 0 <= i < |s.a.answered| && s.a.answered[i].waiter.respondTo == call;
    LinkAck.CallHandled(s.a, s.b, i, call);
  }

  lemma EchoAdvances(n: Node)
    requires EchoOk(n) && Enabled(n, Advance)
    ensures EchoOk(Next(n, Advance))
  {
    var l := n.loop.value;
    assert l.order[..l.done + 1][..l.done] == l.order[..l.done];
  }

  lemma {:induction false} AckedForGrows(acked: seq<Acked>, a: Acked, send: nat, members: Members,
                                         k: NodeId, msg: Message)
    requires AckedFor(acked, send, members, k, msg)
    ensures AckedFor(acked + [a], send, members, k, msg)
  {
    var p :| 0 <= p < |acked| && acked[p] == Acked(send, k, members[k], acked[p].call, msg);
    assert (acked + [a])[p] == acked[p];
  }

  lemma JustifiedGrows(acked: seq<Acked>, a: Acked, send: nat, c: Command)
    requires Justified(acked, send, c)
    ensures Justified(acked + [a], send, c)
  {
    if c.Send? {
      forall k | k in Reached(c) ensures AckedFor(acked + [a], send, c.members, k, c.data) {
        AckedForGrows(acked, a, send, c.members, k, c.data);
      }
    }
  }

  lemma HistoryStays(n: Node, n': Node, a: Acked)
    requires HistoryOk(n) && n'.history == n.history && n'.acked == n.acked + [a]
    ensures HistoryOk(n')
  {
    forall i | 0 <= i < |n.history| ensures Justified(n'.acked, i, n.history[i]) {
      JustifiedGrows(n.acked, a, i, n.history[i]);
    }
  }

  /** The entry an answered call logs keeps the log in order. */
  lemma LogGrows(links: map<Handle, Link.Sys>, acked: seq<Acked>, l: Loop, a: Acked)
    requires AckedOk(links, acked) && CallsGrow(acked) && l.call.Some? && CallOk(links, acked, l, l.call.value)
    requires a.handle == CurrentHandle(l).value && a.call == l.call.value
    requires ProcessedAs(links[a.handle], a.call, a.msg)
    ensures AckedOk(links, acked + [a]) && CallsGrow(acked + [a])
  {
  }

  lemma LoopAdvances(n: Node, n': Node, a: Acked)
    requires n.loop.Some? && LoopOk(n, n.loop.value) && Enabled(n, Advance) && n' == Next(n, Advance)
    requires n'.acked == n.acked + [a]
    ensures LoopOk(n', n'.loop.value)
  {
    var l := n.loop.value;
    assert CommandOf(n'.loop.value).order == l.order;
    forall j | 0 <= j < l.done + 1 ensures AckedFor(n'.acked, |n.history|, l.members, l.order[j], l.data) {
      if j < l.done {
        AckedForGrows(n.acked, a, |n.history|, l.members, l.order[j], l.data);
      } else {
        assert n'.acked[|n.acked|] == a;
      }
    }
  }

  lemma AdvanceKeeps(n: Node)
    requires NodeOk(n) && LinksOk(n) && Enabled(n, Advance)
    ensures NodeOk(Next(n, Advance))
  {
    var l, n' := n.loop.value, Next(n, Advance);
    var a := n'.acked[|n.acked|];
    AnsweredCallProcessed(n.links[a.handle], a.call, a.msg);
    LogGrows(n.links, n.acked, l, a);
    LoopAdvances(n, n', a);
    EchoAdvances(n);
    HistoryStays(n, n', a);
  }

  lemma EndKeeps(n: Node)
    requires NodeOk(n) && n.loop.Some?
    ensures NodeOk(EndLoop(n))
  {
    var l := n.loop.value;
    var c := CommandOf(l);
    OutcomesSuccesses(l.done, |l.order|);
    assert Reached(c) == l.order[..l.done];
    RunSnoc(n.history, c);
    forall k | k in Reached(c) ensures AckedFor(n.acked, |n.history|, c.members, k, c.data) {
      var j :| 0 <= j < l.done && l.order[j] == k;
    }
    HistoryGrows(n, EndLoop(n), c);
  }

  lemma StepKeepsNode(n: Node, act: Action)
    requires NodeOk(n) && LinksOk(n) && Enabled(n, act)
    ensures NodeOk(Next(n, act))
  {
    match act
    case Begin(_, _, _, _) => BeginKeeps(n, act);
    case Hear(data) => HearKeeps(n, data);
    case Issue => IssueKeeps(n);
    case Advance => AdvanceKeeps(n);
    case Abort => EndKeeps(n);
    case Finish => EndKeeps(n);
    case OnLink(h, ev) => LinkStepKeeps(n, h, ev);
  }

  lemma StepKeepsLinks(n: Node, act: Action)
    requires LinksOk(n) && Enabled(n, act) && BelowLimit(Next(n, act))
    ensures LinksOk(Next(n, act))
  {
    var n' := Next(n, act);
    match act
    case OnLink(h, ev) => LinksStaySound(n, h, ev);
    case Issue =>
      var h, ev := CurrentHandle(n.loop.value).value, Link.ByA(Link.Submit(n.loop.value.data));
      assert n'.links == AfterLink(n, h, ev).links;
      LinksStaySound(n, h, ev);
    case _ => assert n'.links == n.links;
  }

  lemma LimitBefore(n: Node, act: Action)
    requires Enabled(n, act) && BelowLimit(Next(n, act))
    ensures BelowLimit(n)
  {
    var n' := Next(n, act);
    forall h | h in n.links
      ensures |n.links[h].a.accepted| <= Link.U64
    {
      assert h in n'.links;
      if n'.links[h] != n.links[h] {
        var ev := if act.OnLink? then act.event else Link.ByA(Link.Submit(n.loop.value.data));
        Link.AcceptedGrows(n.links[h], ev);
      }
    }
  }

  lemma EchoEnds(n: Node)
    requires EchoOk(n) && n.loop.Some?
    ensures EchoOk(EndLoop(n))
  {
    var l := n.loop.value;
    var c := CommandOf(l);
    OutcomesSuccesses(l.done, |l.order|);
    assert Reached(c) == l.order[..l.done];
    RunSnoc(n.history, c);
  }

  lemma EchoBegins(n: Node, act: Action)
    requires EchoOk(n) && act.Begin? && Enabled(n, act)
    ensures EchoOk(Next(n, act))
  {
    var l := Loop(act.data, act.members, act.respondTo, act.order, 0, None);
    RunSnoc(n.history, CommandOf(l));
    assert l.order[..0] == [];
  }

  lemma StepKeepsEcho(n: Node, act: Action)
    requires EchoOk(n) && Enabled(n, act)
    ensures EchoOk(Next(n, act))
  {
    match act
    case Begin(_, _, _, _) => EchoBegins(n, act);
    case Hear(data) => RunSnoc(n.history, Echo(data));
    case Advance => EchoAdvances(n);
    case Abort => EchoEnds(n);
    case Finish => EchoEnds(n);
    case _ =>
  }

  lemma {:induction false} RunKeepsEcho(handles: set<Handle>, acts: seq<Action>)
    requires Perform(handles, acts).Some?
    ensures EchoOk(Perform(handles, acts).value)
  {
    if acts != [] {
      var g := acts[..|acts| - 1];
      RunKeepsEcho(handles, g);
      var n := Perform(handles, g).value;
      assert Enabled(n, acts[|g|]) && Perform(handles, acts).value == Next(n, acts[|g|]);
      StepKeepsEcho(n, acts[|g|]);
    }
  }

  /** Every composed run, of any length, is a run of the atomic echo actor: between loops the actor
      is in the state its logged commands lead to, and inside a loop it differs from that only by
      the members listed so far. */
  lemma ComposedIsAtomic(handles: set<Handle>, acts: seq<Action>)
    requires Perform(handles, acts).Some?
    ensures var n := Perform(handles, acts).value;
      && (n.loop.None? ==> n.echo == Run(n.history))
      && (n.loop.Some? ==> n.loop.value.data.MessageId().Some? && n.loop.value.done <= |n.loop.value.order|
                           && n.echo == Run(n.history).(echos :=
                                ListMembers(Run(n.history).echos, n.loop.value.data.MessageId().value,
                                            n.loop.value.order[..n.loop.value.done])))
  {
    RunKeepsEcho(handles, acts);
  }

  lemma {:induction false} RunKeeps(handles: set<Handle>, acts: seq<Action>)
    requires Perform(handles, acts).Some? && BelowLimit(Perform(handles, acts).value)
    ensures NodeOk(Perform(handles, acts).value) && LinksOk(Perform(handles, acts).value)
  {
    if acts != [] {
      var g := acts[..|acts| - 1];
      var n := Perform(handles, g).value;
      LimitBefore(n, acts[|g|]);
      RunKeeps(handles, g);
      StepKeepsNode(n, acts[|g|]);
      StepKeepsLinks(n, acts[|g|]);
    }
  }

  // ---------------------------------------------------------------- the results

  /** Every composed run is a run of the atomic echo actor: between loops the actor is in the
      state its logged commands lead to; every member a logged send reached has a call of its own,
      different from all others on that link; and the peer's reliable layer has processed that
      call's message under that call's number. */
  lemma ComposedRefinesAtomic(handles: set<Handle>, acts: seq<Action>)
    requires Perform(handles, acts).Some? && BelowLimit(Perform(handles, acts).value)
    ensures var n := Perform(handles, acts).value;
      && (n.loop.None? ==> n.echo == Run(n.history))
      && (forall i :: 0 <= i < |n.history| ==> WellFormed(n.history[i]) && Justified(n.acked, i, n.history[i]))
      && AckedOk(n.links, n.acked) && CallsGrow(n.acked)
  {
    RunKeeps(handles, acts);
  }

  /** The i-th command is a full send of id for w. For each member of its snapshot the log has a call
      made for this send and no other, whose message the peer has processed under its number. */
  ghost predicate SentToAll(n: Node, i: nat, id: MessageId, w: Waiter) {
    && i < |n.history| && FullSendOf(n.history[i], id) && n.history[i].respondTo == w
    && (forall k :: k in n.history[i].members ==>
          AckedFor(n.acked, i, n.history[i].members, k, n.history[i].data))
    && AckedOk(n.links, n.acked) && CallsGrow(n.acked)
  }

  lemma FullSendProcessed(n: Node, i: nat, id: MessageId)
    requires NodeOk(n) && i < |n.history| && FullSendOf(n.history[i], id)
    ensures SentToAll(n, i, id, n.history[i].respondTo)
  {
  }

  /** Waiters and answers of the node's actor are those of an intact history. */
  lemma IntactHistory(n: Node) returns (g: seq<Command>)
    requires NodeOk(n)
    ensures g <= n.history && Run(g).alive && n.echo.txs == Run(g).txs && n.echo.answers == Run(g).answers
  {
    g := Effective(n.history);
    EffectiveIs(n.history);
  }

  /** Composed safety: once a broadcast is registered as waiting, every member of its snapshot has
      had exactly that message processed by its reliable layer. */
  lemma RegisteredMeansProcessed(handles: set<Handle>, acts: seq<Action>, id: MessageId) returns (i: nat)
    requires Perform(handles, acts).Some? && BelowLimit(Perform(handles, acts).value)
    requires id in Perform(handles, acts).value.echo.txs
    ensures var n := Perform(handles, acts).value; SentToAll(n, i, id, n.echo.txs[id])
  {
    RunKeeps(handles, acts);
    var n := Perform(handles, acts).value;
    var g := IntactHistory(n);
    WaitersExact(g, id);
    i :| WaitingSince(g, i, id);
    assert g[i] == n.history[i];
    FullSendProcessed(n, i, id);
  }

  /** And so has every broadcast that was answered Ok. */
  lemma OkMeansProcessed(handles: set<Handle>, acts: seq<Action>, a: Answer) returns (i: nat)
    requires Perform(handles, acts).Some? && BelowLimit(Perform(handles, acts).value)
    requires a in Perform(handles, acts).value.echo.answers && a.ok
    ensures SentToAll(Perform(handles, acts).value, i, a.id, a.waiter)
  {
    RunKeeps(handles, acts);
    var n := Perform(handles, acts).value;
    var g := IntactHistory(n);
    AnswersExact(g, a);
    i :| Explains(g, i, a);
    OnlyFullSendsWait(g, i);
    assert g[i] == n.history[i];
    FullSendProcessed(n, i, a.id);
  }
}
