/** Two nodes joined by one connection: at each end a reliable sender actor and a connection
    actor, and between them one stream of frames each way.

    An actor runs without interruption between two `await` points, so the steps here are the
    stretches between them. `Phase` says where the reliable sender is suspended; `Conn` says
    whether the connection actor still runs and which inbound frame, if any, it is trying to
    push into the full subscription queue. The last four fields of `End` are logs: what was
    numbered, answered, handled and delivered so far. The k-th call of the handle waits on the
    k-th oneshot channel, so a waiter is named by its position. */
module ReliableLink {
  import opened Protocol

  /** Sequence numbers are `u64` and wrap. */
  const U64: nat := 0x1_0000_0000_0000_0000

  /** Capacity of each command and subscription channel. */
  const CAPACITY: nat := 32

  datatype Frame = Data(msg: Message, number: nat) | Ack(number: nat)

  datatype AckWaiter = AckWaiter(msg: Message, respondTo: nat)

  datatype Reply = Reply(number: nat, waiter: AckWaiter)

  datatype Phase =
    | Idle
    | Sending(frame: Frame)
    | Acking(msg: Message, number: nat)
    | Delivering(msg: Message)

  datatype Conn = Open(holding: Option<Frame>) | Closed

  datatype End = End(
    commands: seq<AckWaiter>,
    sequenceNumber: nat,
    waiting: map<nat, AckWaiter>,
    phase: Phase,
    conn: Conn,
    inbox: seq<Frame>,
    clientOpen: bool,
    accepted: seq<AckWaiter>,
    answered: seq<Reply>,
    processed: seq<Frame>,
    client: seq<Message>)

  /** One end together with the stream it writes to and the stream it reads from. */
  datatype Local = Local(end: End, out: seq<Frame>, inc: seq<Frame>)

  datatype Act =
    | Submit(msg: Message)        // a caller queues a message on the handle
    | TakeCommand                 // the actor numbers the next queued message
    | TakeFrame                   // the actor takes the next frame from the subscription
    | Write                       // the connection writes the frame the actor waits for
    | Fail                        // the connection is gone: the actor's send returns an error
    | Deliver                     // the actor hands the acked message to its client
    | Read                        // the connection reads the next frame from the stream
    | Push                        // the connection pushes it into the subscription queue
    | Close(wrote: bool)          // the connection actor ends, after or before writing
    | CloseClient                 // the client drops its receiver
    | LoseTail(keep: nat)         // a broken stream loses its last frames

  const NEW_END := End([], 0, map[], Idle, Open(None), [], true, [], [], [], [])

  function PendingFrame(e: End): Option<Frame> {
    match e.phase
    case Sending(f) => Some(f)
    case Acking(_, n) => Some(Ack(n))
    case _ => None
  }

  function NextNumber(n: nat): nat {
    (n + 1) % U64
  }

  predicate Enabled(l: Local, act: Act) {
    var e := l.end;
    match act
    case Submit(_) => |e.commands| < CAPACITY
    case TakeCommand => e.phase.Idle? && e.commands != []
    case TakeFrame => e.phase.Idle? && e.inbox != []
    case Write => e.conn == Open(None) && PendingFrame(e).Some?
    case Fail => e.conn.Closed? && PendingFrame(e).Some?
    case Deliver => e.phase.Delivering?
    case Read => e.conn == Open(None) && l.inc != []
    case Push => e.conn.Open? && e.conn.holding.Some? && |e.inbox| < CAPACITY
    case Close(_) => e.conn == Open(None)
    case CloseClient => true
    case LoseTail(keep) => e.conn.Closed? && keep <= |l.out|
  }

  /** The actor's reaction to a frame from the subscription. */
  function TakeFrameOf(e: End): End
    requires e.inbox != []
  {
    var rest := e.(inbox := e.inbox[1..]);
    match e.inbox[0]
    case Data(m, n) => rest.(phase := Acking(m, n), processed := e.processed + [Data(m, n)])
    case Ack(n) =>
      if n in e.waiting
      then rest.(waiting := e.waiting - {n}, answered := e.answered + [Reply(n, e.waiting[n])])
      else rest
  }

  function AfterWrite(e: End): End {
    e.(phase := if e.phase.Acking? then Delivering(e.phase.msg) else Idle)
  }

  function Next(l: Local, act: Act): Local
    requires Enabled(l, act)
  {
    var e := l.end;
    match act
    case Submit(m) =>
      l.(end := e.(commands := e.commands + [AckWaiter(m, |e.accepted| + |e.commands|)]))
    case TakeCommand =>
      var n := NextNumber(e.sequenceNumber);
      var w := e.commands[0];
      l.(end := e.(commands := e.commands[1..], sequenceNumber := n, waiting := e.waiting[n := w],
                   phase := Sending(Data(w.msg, n)), accepted := e.accepted + [w]))
    case TakeFrame => l.(end := TakeFrameOf(e))
    case Write => l.(end := AfterWrite(e), out := l.out + [PendingFrame(e).value])
    case Fail => l.(end := e.(phase := Idle))
    case Deliver =>
      l.(end := e.(phase := Idle, client := if e.clientOpen then e.client + [e.phase.msg] else e.client))
    case Read => l.(end := e.(conn := Open(Some(l.inc[0]))), inc := l.inc[1..])
    case Push => l.(end := e.(conn := Open(None), inbox := e.inbox + [e.conn.holding.value]))
    case Close(wrote) =>
      l.(end := e.(conn := Closed),
         out := if wrote && PendingFrame(e).Some? then l.out + [PendingFrame(e).value] else l.out)
    case CloseClient => l.(end := e.(clientOpen := false))
    case LoseTail(keep) => l.(out := l.out[..keep])
  }

  /** Several steps of one end in a row, if each is enabled where it happens. */
  function Perform(l: Local, acts: seq<Act>): Option<Local>
    decreases acts
  {
    if acts == [] then Some(l)
    else if Enabled(l, acts[0]) then Perform(Next(l, acts[0]), acts[1..])
    else None
  }

  lemma PerformTwo(l: Local, x: Act, y: Act)
    requires Enabled(l, x) && Enabled(Next(l, x), y)
    ensures Perform(l, [x, y]) == Some(Next(Next(l, x), y))
  {
    var m := Next(l, x);
    assert [x, y][1..] == [y] && [y][1..] == [];
    assert Perform(m, [y]) == Some(Next(m, y));
  }

  datatype Sys = Sys(a: End, b: End, ab: seq<Frame>, ba: seq<Frame>)
  {
    function AtA(): Local { Local(a, ab, ba) }
    function AtB(): Local { Local(b, ba, ab) }
  }

  const NEW_SYS := Sys(NEW_END, NEW_END, [], [])

  /** Steps of the two ends, and what an unreliable network may do to a stream: lose a frame, or add
      a copy of one at the end. Together these reorder a stream in any way (`AnyStream`). The network
      never makes up a frame. */
  datatype Event =
    | ByA(act: Act)
    | ByB(act: Act)
    | Drop(toB: bool, i: nat)
    | Duplicate(toB: bool, i: nat)

  function Stream(s: Sys, toB: bool): seq<Frame> {
    if toB then s.ab else s.ba
  }

  function WithStream(s: Sys, toB: bool, fs: seq<Frame>): Sys {
    if toB then s.(ab := fs) else s.(ba := fs)
  }

  predicate Possible(s: Sys, ev: Event) {
    match ev
    case ByA(act) => Enabled(s.AtA(), act)
    case ByB(act) => Enabled(s.AtB(), act)
    case Drop(toB, i) => i < |Stream(s, toB)|
    case Duplicate(toB, i) => i < |Stream(s, toB)|
  }

  function Happen(s: Sys, ev: Event): Sys
    requires Possible(s, ev)
  {
    match ev
    case ByA(act) => var l := Next(s.AtA(), act); Sys(l.end, s.b, l.out, l.inc)
    case ByB(act) => var l := Next(s.AtB(), act); Sys(s.a, l.end, l.inc, l.out)
    case Drop(toB, i) =>
      var fs := Stream(s, toB);
      WithStream(s, toB, fs[..i] + fs[i + 1..])
    case Duplicate(toB, i) =>
      var fs := Stream(s, toB);
      WithStream(s, toB, fs + [fs[i]])
  }

  /** The system after a sequence of events, if each was possible where it happened. */
  function Run(evs: seq<Event>): Option<Sys> {
    if evs == [] then Some(NEW_SYS)
    else
      match Run(evs[..|evs| - 1])
      case None => None
      case Some(s) => if Possible(s, evs[|evs| - 1]) then Some(Happen(s, evs[|evs| - 1])) else None
  }

  lemma RunSnoc(evs: seq<Event>, ev: Event)
    requires Run(evs).Some? && Possible(Run(evs).value, ev)
    ensures Run(evs + [ev]) == Some(Happen(Run(evs).value, ev))
  {
  }

  lemma CopyFrame(evs: seq<Event>, toB: bool, f: Frame) returns (all: seq<Event>)
    requires Run(evs).Some? && f in Stream(Run(evs).value, toB)
    ensures var s := Run(evs).value; Run(all) == Some(WithStream(s, toB, Stream(s, toB) + [f]))
  {
    var fs := Stream(Run(evs).value, toB);
    var i :| 0 <= i < |fs| && fs[i] == f;
    RunSnoc(evs, Duplicate(toB, i));
    all := evs + [Duplicate(toB, i)];
  }

  lemma StreamSet(s: Sys, toB: bool, fs: seq<Frame>, gs: seq<Frame>)
    ensures Stream(WithStream(s, toB, fs), toB) == fs
    ensures WithStream(WithStream(s, toB, fs), toB, gs) == WithStream(s, toB, gs)
    ensures WithStream(s, toB, Stream(s, toB)) == s
  {
  }

  lemma {:induction false} CopyFrames(evs: seq<Event>, toB: bool, fs: seq<Frame>) returns (all: seq<Event>)
    requires Run(evs).Some? && forall f :: f in fs ==> f in Stream(Run(evs).value, toB)
    ensures var s := Run(evs).value; Run(all) == Some(WithStream(s, toB, Stream(s, toB) + fs))
    decreases fs
  {
    var s := Run(evs).value;
    var before := Stream(s, toB);
    if fs == [] {
      all := evs;
      assert before + fs == before;
      StreamSet(s, toB, before, before);
    } else {
      var g, f := fs[..|fs| - 1], fs[|fs| - 1];
      var rest := CopyFrames(evs, toB, g);
      StreamSet(s, toB, before + g, before + g + [f]);
      all := CopyFrame(rest, toB, f);
      assert before + fs == before + g + [f];
    }
  }

  lemma {:induction false} DropFirst(evs: seq<Event>, toB: bool, k: nat) returns (all: seq<Event>)
    requires Run(evs).Some? && k <= |Stream(Run(evs).value, toB)|
    ensures var s := Run(evs).value; Run(all) == Some(WithStream(s, toB, Stream(s, toB)[k..]))
    decreases k
  {
    var s := Run(evs).value;
    var fs := Stream(s, toB);
    if k == 0 {
      all := evs;
      StreamSet(s, toB, fs, fs);
    } else {
      var g := DropFirst(evs, toB, k - 1);
      StreamSet(s, toB, fs[k - 1..], fs[k..]);
      RunSnoc(g, Drop(toB, 0));
      all := g + [Drop(toB, 0)];
      assert fs[k - 1..][..0] + fs[k - 1..][1..] == fs[k..];
    }
  }

  /** The network can turn a stream into any sequence of the frames on it, in any order and with any
      repetition or loss, and changes nothing else. */
  lemma AnyStream(evs: seq<Event>, toB: bool, fs: seq<Frame>) returns (all: seq<Event>)
    requires Run(evs).Some? && forall f :: f in fs ==> f in Stream(Run(evs).value, toB)
    ensures Run(all) == Some(WithStream(Run(evs).value, toB, fs))
  {
    var s := Run(evs).value;
    var g := CopyFrames(evs, toB, fs);
    var before := Stream(s, toB);
    StreamSet(s, toB, before + fs, fs);
    all := DropFirst(g, toB, |before|);
    assert (before + fs)[|before|..] == fs;
  }

  lemma AcceptedGrows(s: Sys, ev: Event)
    requires Possible(s, ev)
    ensures |s.a.accepted| <= |Happen(s, ev).a.accepted|
  {
  }

  lemma ClosedStep(s: Sys, ev: Event)
    requires Possible(s, ev) && s.a.conn.Closed?
    ensures Happen(s, ev).a.conn.Closed?
  {
  }

  /** A connection that has closed stays closed, whatever happens later. */
  lemma {:induction false} ClosedForGood(evs: seq<Event>, more: seq<Event>)
    requires Run(evs + more).Some? && Run(evs).Some? && Run(evs).value.a.conn.Closed?
    ensures Run(evs + more).value.a.conn.Closed?
  {
    if more == [] {
      assert evs + more == evs;
    } else {
      var n := |more| - 1;
      assert (evs + more)[..|evs + more| - 1] == evs + more[..n];
      ClosedForGood(evs, more[..n]);
      ClosedStep(Run(evs + more[..n]).value, more[n]);
    }
  }

  predicate Resting(e: End) {
    e.phase.Idle? && e.conn == Open(None) && e.commands == []
  }

  lemma SendOneSteps(l: Local, m: Message)
    requires Resting(l.end)
    ensures Enabled(l, Submit(m)) && Enabled(Next(l, Submit(m)), TakeCommand)
    ensures Enabled(Next(Next(l, Submit(m)), TakeCommand), Write)
    ensures var n, w := NextNumber(l.end.sequenceNumber), AckWaiter(m, |l.end.accepted|);
      Next(Next(Next(l, Submit(m)), TakeCommand), Write) == l.(
        end := l.end.(sequenceNumber := n, waiting := l.end.waiting[n := w], accepted := l.end.accepted + [w]),
        out := l.out + [Data(m, n)])
  {
  }

  /** The stream is first in, first out, as a TCP connection is; ends may still close. */
  predicate Ordered(evs: seq<Event>) {
    forall i :: 0 <= i < |evs| ==> evs[i].ByA? || evs[i].ByB?
  }

  /** In addition, neither connection closes. */
  predicate Live(evs: seq<Event>) {
    Ordered(evs) && forall i :: 0 <= i < |evs| ==> !evs[i].act.Close?
  }

  /** End a accepts and writes one message; nothing else happens. */
  lemma SendOne(evs: seq<Event>, m: Message) returns (all: seq<Event>)
    requires Run(evs).Some? && Resting(Run(evs).value.a)
    ensures all == evs + [ByA(Submit(m)), ByA(TakeCommand), ByA(Write)]
    ensures Ordered(evs) ==> Ordered(all)
    ensures var s := Run(evs).value;
      var n, w := NextNumber(s.a.sequenceNumber), AckWaiter(m, |s.a.accepted|);
      Run(all) == Some(s.(
        a := s.a.(sequenceNumber := n, waiting := s.a.waiting[n := w], accepted := s.a.accepted + [w]),
        ab := s.ab + [Data(m, n)]))
  {
    SendOneSteps(Run(evs).value.AtA(), m);
    RunSnoc(evs, ByA(Submit(m)));
    var g := evs + [ByA(Submit(m))];
    RunSnoc(g, ByA(TakeCommand));
    var g1 := g + [ByA(TakeCommand)];
    RunSnoc(g1, ByA(Write));
    all := g1 + [ByA(Write)];
    assert all == evs + [ByA(Submit(m)), ByA(TakeCommand), ByA(Write)];
  }

  /** End b, new, reads the one message that is on its way to it and is about to acknowledge it. */
  lemma ReceiveOne(evs: seq<Event>, m: Message, n: nat) returns (all: seq<Event>)
    requires Run(evs).Some? && Run(evs).value.b == NEW_END && Run(evs).value.ab == [Data(m, n)]
    ensures all == evs + [ByB(Read), ByB(Push), ByB(TakeFrame)]
    ensures Ordered(evs) ==> Ordered(all)
    ensures var s := Run(evs).value;
      Run(all) == Some(s.(b := s.b.(phase := Acking(m, n), processed := [Data(m, n)]), ab := []))
  {
    RunSnoc(evs, ByB(Read));
    var g1 := evs + [ByB(Read)];
    RunSnoc(g1, ByB(Push));
    var g2 := g1 + [ByB(Push)];
    assert Run(g2).value.b.inbox == [Data(m, n)] && Run(g2).value.ab == [];
    RunSnoc(g2, ByB(TakeFrame));
    assert Run(g2).value.b.inbox[1..] == [];
    all := g2 + [ByB(TakeFrame)];
  }

  /** End a takes the one acknowledgement that is on its way to it. */
  lemma TakeOnly(evs: seq<Event>, f: Frame) returns (all: seq<Event>)
    requires Run(evs).Some? && Resting(Run(evs).value.a)
    requires Run(evs).value.ba == [f] && Run(evs).value.a.inbox == [] && f.Ack?
    ensures all == evs + [ByA(Read), ByA(Push), ByA(TakeFrame)]
    ensures Ordered(evs) ==> Ordered(all)
    ensures Run(all).Some? && Resting(Run(all).value.a)
    ensures var s, t := Run(evs).value, Run(all).value;
      && t.b == s.b && t.a.accepted == s.a.accepted
      && (f.number in s.a.waiting ==> t.a.answered == s.a.answered + [Reply(f.number, s.a.waiting[f.number])])
  {
    RunSnoc(evs, ByA(Read));
    var g1 := evs + [ByA(Read)];
    RunSnoc(g1, ByA(Push));
    var g2 := g1 + [ByA(Push)];
    RunSnoc(g2, ByA(TakeFrame));
    all := g2 + [ByA(TakeFrame)];
  }

  // ---------------------------------------------------------------- the two ends are alike

  function Mirror(s: Sys): Sys {
    Sys(s.b, s.a, s.ba, s.ab)
  }

  function MirrorEvent(ev: Event): Event {
    match ev
    case ByA(act) => ByB(act)
    case ByB(act) => ByA(act)
    case Drop(toB, i) => Drop(!toB, i)
    case Duplicate(toB, i) => Duplicate(!toB, i)
  }

  function MirrorEvents(evs: seq<Event>): (r: seq<Event>)
    ensures |r| == |evs|
  {
    seq(|evs|, i requires 0 <= i < |evs| => MirrorEvent(evs[i]))
  }

  lemma MirrorStep(s: Sys, ev: Event)
    requires Possible(s, ev)
    ensures Possible(Mirror(s), MirrorEvent(ev))
    ensures Happen(Mirror(s), MirrorEvent(ev)) == Mirror(Happen(s, ev))
  {
  }

  /** Exchanging the ends turns runs into runs, so what holds of end a in every run holds of end b
      in every run. */
  lemma {:induction false} MirrorRun(evs: seq<Event>)
    requires Run(evs).Some?
    ensures Run(MirrorEvents(evs)) == Some(Mirror(Run(evs).value))
    ensures Ordered(evs) ==> Ordered(MirrorEvents(evs))
    ensures Live(evs) ==> Live(MirrorEvents(evs))
  {
    if evs != [] {
      var g, ev := evs[..|evs| - 1], evs[|evs| - 1];
      MirrorRun(g);
      assert MirrorEvents(evs)[..|g|] == MirrorEvents(g);
      MirrorStep(Run(g).value, ev);
    }
  }
}
