/** The connection actor and the reliable sender actor in the program's own form. Each handler is
    tied to the steps of the link it is made of, whatever the rest of the end looks like.

    A handler that suspends at an `await` may find the connection busy: it finishes the frame it
    holds and may read more before it gets to the request. Whether a write succeeds, whether a
    failed one put the frame on the stream all the same, and how many frames the connection reads
    first come from outside. If the subscription queue fills up meanwhile, the handler never comes
    back: the actor is left in its suspended phase. */
module ReliableActors {
  import opened Protocol
  import opened ReliableLink

  /** The connection finishes delivering the frame it holds, if there is room. */
  function Settle(l: Local): Local {
    if Enabled(l, Push) then Next(l, Push) else l
  }

  /** The connection finishes the frame it holds and reads up to `incoming` more, as far as it gets. */
  function Busy(l: Local, incoming: nat): Local
    decreases incoming
  {
    var m := Settle(l);
    if incoming > 0 && Enabled(m, Read) then Busy(Next(m, Read), incoming - 1) else m
  }

  /** The suspended send comes back: written, refused by a closed connection, or failed and the
      connection with it. It does not come back while the connection holds a frame. */
  function Resume(l: Local, writeOk: bool, wrote: bool): Local {
    if Enabled(l, Fail) then Next(l, Fail)
    else if !Enabled(l, Write) then l
    else if writeOk then Next(l, Write)
    else Next(Next(l, Close(wrote)), Fail)
  }

  function HandOver(l: Local): Local {
    if Enabled(l, Deliver) then Next(l, Deliver) else l
  }

  /** The whole handler for a queued message. */
  function AfterCommand(l: Local, incoming: nat, writeOk: bool, wrote: bool): Local
    requires Enabled(l, TakeCommand)
  {
    Resume(Busy(Next(l, TakeCommand), incoming), writeOk, wrote)
  }

  /** The whole handler for a frame from the subscription. */
  function AfterFrame(l: Local, incoming: nat, writeOk: bool, wrote: bool): Local
    requires Enabled(l, TakeFrame)
  {
    var m := Next(l, TakeFrame);
    if m.end.phase.Idle? then m else HandOver(Resume(Busy(m, incoming), writeOk, wrote))
  }

  /** A step that the two actors of an end take by themselves while a handler is under way. */
  predicate Inner(act: Act) {
    act.Push? || act.Read? || act.Write? || act.Fail? || act.Close? || act.Deliver?
  }

  /** The given step followed by inner steps leads from one state of the end to the other. */
  ghost predicate Leads(l: Local, first: Act, r: Local) {
    exists acts :: (forall i :: 0 <= i < |acts| ==> Inner(acts[i])) && Perform(l, [first] + acts) == Some(r)
  }

  lemma {:induction false} PerformAppend(l: Local, xs: seq<Act>, ys: seq<Act>)
    requires Perform(l, xs).Some?
    ensures Perform(l, xs + ys) == Perform(Perform(l, xs).value, ys)
    decreases xs
  {
    if xs == [] {
      assert xs + ys == ys;
    } else {
      assert (xs + ys)[1..] == xs[1..] + ys;
      PerformAppend(Next(l, xs[0]), xs[1..], ys);
    }
  }

  lemma PerformOne(l: Local, act: Act)
    requires Enabled(l, act)
    ensures Perform(l, [act]) == Some(Next(l, act))
  {
    assert [act][1..] == [];
  }

  lemma {:induction false} BusySteps(l: Local, incoming: nat) returns (acts: seq<Act>)
    ensures Perform(l, acts) == Some(Busy(l, incoming))
    ensures Busy(l, incoming).end.phase == l.end.phase
    ensures forall i :: 0 <= i < |acts| ==> acts[i].Push? || acts[i].Read?
    decreases incoming
  {
    acts := [];
    if Enabled(l, Push) {
      PerformOne(l, Push);
      acts := [Push];
    }
    var m := Settle(l);
    if incoming > 0 && Enabled(m, Read) {
      PerformOne(m, Read);
      PerformAppend(l, acts, [Read]);
      var more := BusySteps(Next(m, Read), incoming - 1);
      PerformAppend(l, acts + [Read], more);
      acts := acts + [Read] + more;
    }
  }

  /** What is read or still to be read, oldest first. */
  function Unread(l: Local): seq<Frame> {
    l.end.inbox + (if l.end.conn.Open? && l.end.conn.holding.Some? then [l.end.conn.holding.value] else []) + l.inc
  }

  /** A busy connection reads as many frames as came in, unless it gets stuck with a full queue, and
      keeps them all in order; it writes nothing. */
  lemma {:induction false} BusyReads(l: Local, incoming: nat)
    ensures var r := Busy(l, incoming);
      && Unread(r) == Unread(l) && r.out == l.out
      && (r.end.conn.Open? && r.end.conn.holding.None? ==> r.inc == [] || |r.inc| + incoming == |l.inc|)
      && (r.end.conn.Open? && r.end.conn.holding.Some? ==> |r.end.inbox| >= CAPACITY)
    decreases incoming
  {
    var m := Settle(l);
    assert Unread(m) == Unread(l);
    if incoming > 0 && Enabled(m, Read) {
      assert m.inc == [m.inc[0]] + m.inc[1..];
      assert Unread(Next(m, Read)) == Unread(m);
      BusyReads(Next(m, Read), incoming - 1);
    }
  }

  lemma {:induction false} BusySettled(l: Local, incoming: nat)
    ensures !Enabled(Busy(l, incoming), Push)
    ensures l.end.conn.Open? <==> Busy(l, incoming).end.conn.Open?
    ensures Busy(l, incoming).end.phase == l.end.phase
    decreases incoming
  {
    var m := Settle(l);
    if incoming > 0 && Enabled(m, Read) {
      BusySettled(Next(m, Read), incoming - 1);
    }
  }

  /** A suspended send, whatever the connection reads before it gets to it, is a sequence of steps
      of the link, so what holds of every run holds through it. It is over afterwards unless the
      connection still holds a frame, and the queue is full then. */
  lemma SuspendedSend(l: Local, incoming: nat, writeOk: bool, wrote: bool) returns (acts: seq<Act>)
    requires PendingFrame(l.end).Some?
    ensures Perform(l, acts) == Some(Resume(Busy(l, incoming), writeOk, wrote))
    ensures forall i :: 0 <= i < |acts| ==> Inner(acts[i])
    ensures var m := Busy(l, incoming);
      PendingFrame(Resume(m, writeOk, wrote).end).Some?
      <==> m.end.conn.Open? && m.end.conn.holding.Some? && |m.end.inbox| >= CAPACITY
  {
    acts := BusySteps(l, incoming);
    var m := Busy(l, incoming);
    BusySettled(l, incoming);
    var last := if Enabled(m, Fail) then [Fail]
                else if !Enabled(m, Write) then []
                else if writeOk then [Write]
                else [Close(wrote), Fail];
    PerformAppend(l, acts, last);
    if |last| == 1 {
      PerformOne(m, last[0]);
    } else if last != [] {
      PerformTwo(m, Close(wrote), Fail);
    }
    acts := acts + last;
  }

  /** What a suspended send leaves on the stream: the frame, if the connection was open and the
      write succeeded or failed late. */
  lemma SuspendedWrites(l: Local, incoming: nat, writeOk: bool, wrote: bool)
    requires PendingFrame(l.end).Some?
    ensures var r := Resume(Busy(l, incoming), writeOk, wrote);
      r.out == l.out + (if PendingFrame(r.end).None? && l.end.conn.Open? && (writeOk || wrote)
                        then [PendingFrame(l.end).value] else [])
  {
    BusySettled(l, incoming);
    BusyReads(l, incoming);
  }

  lemma LeadsFrom(l: Local, first: Act, acts: seq<Act>, r: Local)
    requires Enabled(l, first) && Perform(Next(l, first), acts) == Some(r)
    requires forall i :: 0 <= i < |acts| ==> Inner(acts[i])
    ensures Leads(l, first, r)
  {
    assert ([first] + acts)[1..] == acts;
  }

  lemma CommandLeads(l: Local, incoming: nat, writeOk: bool, wrote: bool)
    requires Enabled(l, TakeCommand)
    ensures Leads(l, TakeCommand, AfterCommand(l, incoming, writeOk, wrote))
  {
    var acts := SuspendedSend(Next(l, TakeCommand), incoming, writeOk, wrote);
    LeadsFrom(l, TakeCommand, acts, AfterCommand(l, incoming, writeOk, wrote));
  }

  lemma FrameLeads(l: Local, incoming: nat, writeOk: bool, wrote: bool)
    requires Enabled(l, TakeFrame)
    ensures Leads(l, TakeFrame, AfterFrame(l, incoming, writeOk, wrote))
  {
    var m := Next(l, TakeFrame);
    var acts := [];
    if !m.end.phase.Idle? {
      acts := SuspendedSend(m, incoming, writeOk, wrote);
      var r := Resume(Busy(m, incoming), writeOk, wrote);
      if Enabled(r, Deliver) {
        PerformAppend(m, acts, [Deliver]);
        PerformOne(r, Deliver);
        acts := acts + [Deliver];
      }
    }
    LeadsFrom(l, TakeFrame, acts, AfterFrame(l, incoming, writeOk, wrote));
  }

  class ConnectionActor {
    var open: bool
    var holding: Option<Frame>
    var writer: seq<Frame>
    var reader: seq<Frame>
    var subscriber: seq<Frame>

    /** The end this actor belongs to, the rest of which is e. */
    ghost function Side(e: End): Local
      reads this
    {
      Local(e.(conn := if open then Open(holding) else Closed, inbox := subscriber), writer, reader)
    }

    constructor (reader: seq<Frame>)
      ensures Side(NEW_END) == Local(NEW_END, [], reader)
    {
      open := true;
      holding := None;
      writer := [];
      this.reader := reader;
      subscriber := [];
    }

    /** Writes one frame for the handle. A failed write ends the actor's loop for good. */
    method HandleSend(frame: Frame, writeOk: bool, wrote: bool, ghost e: End) returns (ok: bool)
      requires open && holding.None? && PendingFrame(e) == Some(frame)
      modifies this
      ensures ok == open == writeOk
      ensures var l := Resume(old(Side(e)), writeOk, wrote); Side(l.end) == l
    {
      if writeOk || wrote {
        writer := writer + [frame];
      }
      open := writeOk;
      ok := writeOk;
    }

    /** Takes the next frame off the stream; its delivery may have to wait for room. */
    method ReadNext(ghost e: End)
      requires open && holding.None? && reader != []
      modifies this
      ensures Side(e) == Next(old(Side(e)), Read)
    {
      holding := Some(reader[0]);
      reader := reader[1..];
    }

    /** Delivers the frame in hand, or goes on holding it while the queue is full. */
    method HandleReceived(ghost e: End) returns (done: bool)
      requires open && holding.Some?
      modifies this
      ensures Side(e) == Settle(old(Side(e)))
      ensures done == (|old(subscriber)| < CAPACITY) == holding.None?
    {
      done := |subscriber| < CAPACITY;
      if done {
        subscriber := subscriber + [holding.value];
        holding := None;
      }
    }

    /** What the loop does before it gets to a request: the frame in hand, then the stream. */
    method ReadFirst(incoming: nat, ghost e: End)
      modifies this
      ensures Side(e) == Busy(old(Side(e)), incoming)
      ensures open == old(open)
      ensures !open ==> unchanged(this)
    {
      var left := incoming;
      if open && holding.Some? {
        var _ := HandleReceived(e);
      }
      while open && holding.None? && reader != [] && left > 0
        invariant open == old(open)
        invariant !Enabled(Side(e), Push)
        invariant Busy(Side(e), left) == Busy(old(Side(e)), incoming)
        invariant !open ==> unchanged(this)
        decreases left
      {
        ReadNext(e);
        left := left - 1;
        var _ := HandleReceived(e);
      }
    }

    /** The handle's send. A closed actor drops the request, and with it the reply channel; an open
        one gets to it after what it has in hand and whatever it reads first. No reply means it
        never gets to it. */
    method Send(frame: Frame, writeOk: bool, wrote: bool, incoming: nat, ghost e: End)
      returns (reply: Option<bool>)
      requires PendingFrame(e) == Some(frame)
      modifies this
      ensures var l := Resume(Busy(old(Side(e)), incoming), writeOk, wrote);
        && Side(l.end) == l
        && (reply.None? <==> PendingFrame(l.end).Some?)
        && (reply.Some? ==> reply.value == open == (old(open) && writeOk))
      ensures open ==> old(open)
      ensures !old(open) ==> reply == Some(false) && unchanged(this)
    {
      ReadFirst(incoming, e);
      if !open {
        reply := Some(false);
      } else if holding.Some? {
        reply := None;
      } else {
        var ok := HandleSend(frame, writeOk, wrote, e);
        reply := Some(ok);
      }
    }
  }

  lemma {:induction false} BusyParts(l: Local, incoming: nat)
    ensures Busy(l, incoming).end == l.end.(conn := Busy(l, incoming).end.conn, inbox := Busy(l, incoming).end.inbox)
    decreases incoming
  {
    var m := Settle(l);
    if incoming > 0 && Enabled(m, Read) {
      BusyParts(Next(m, Read), incoming - 1);
    }
  }

  /** A suspended send changes, besides the connection's part, only the phase. */
  lemma ResumedParts(l: Local, incoming: nat, writeOk: bool, wrote: bool)
    requires PendingFrame(l.end).Some?
    ensures var r := Resume(Busy(l, incoming), writeOk, wrote);
      && r.end == l.end.(conn := r.end.conn, inbox := r.end.inbox, phase := r.end.phase)
      && (PendingFrame(r.end).Some? ==> r.end.phase == l.end.phase)
      && (PendingFrame(r.end).None? ==>
            r.end.phase == if l.end.phase.Acking? && r.end.conn.Open? then Delivering(l.end.phase.msg) else Idle)
  {
    BusyParts(l, incoming);
  }

  class ReliableSenderActor {
    var receiver: seq<AckWaiter>
    var waitingForAck: map<nat, AckWaiter>
    var sequenceNumber: nat
    var phase: Phase
    var clientOpen: bool
    var client: seq<Message>
    const connection: ConnectionActor
    ghost var accepted: seq<AckWaiter>
    ghost var answered: seq<Reply>
    ghost var processed: seq<Frame>

    /** This actor's part of its end. */
    ghost function Part(): End
      reads this
    {
      End(receiver, sequenceNumber, waitingForAck, phase, Closed, [], clientOpen,
          accepted, answered, processed, client)
    }

    /** The end this actor and its connection form. */
    ghost function View(): Local
      reads this, connection
    {
      connection.Side(Part())
    }

    constructor (connection: ConnectionActor)
      requires connection.Side(NEW_END) == Local(NEW_END, [], connection.reader)
      ensures this.connection == connection
      ensures View() == Local(NEW_END, [], connection.reader)
    {
      this.connection := connection;
      receiver, waitingForAck, sequenceNumber, phase := [], map[], 0, Idle;
      clientOpen, client := true, [];
      accepted, answered, processed := [], [], [];
    }

    method NextSequenceNumber() returns (n: nat)
      modifies this`sequenceNumber
      ensures n == sequenceNumber == NextNumber(old(sequenceNumber))
    {
      sequenceNumber := (sequenceNumber + 1) % U64;
      n := sequenceNumber;
    }

    /** The next queued message: number it, remember the caller, have it written. The outcome of
        the write is ignored. */
    method HandleMessage(writeOk: bool, wrote: bool, incoming: nat)
      requires phase.Idle? && receiver != []
      modifies this, connection
      ensures View() == AfterCommand(old(View()), incoming, writeOk, wrote)
      ensures Leads(old(View()), TakeCommand, View())
    {
      ghost var l := Next(View(), TakeCommand);
      var waiter := receiver[0];
      receiver := receiver[1..];
      var n := NextSequenceNumber();
      waitingForAck := waitingForAck[n := waiter];
      accepted := accepted + [waiter];
      phase := Sending(Data(waiter.msg, n));
      assert View() == l;
      var reply := connection.Send(Data(waiter.msg, n), writeOk, wrote, incoming, Part());
      ResumedParts(l, incoming, writeOk, wrote);
      if reply.Some? {
        phase := Idle;
      }
      CommandLeads(old(View()), incoming, writeOk, wrote);
    }

    /** A message is acknowledged first, and handed over only if that worked. */
    method Acknowledge(writeOk: bool, wrote: bool, incoming: nat) returns (ok: Option<bool>)
      requires phase.Idle? && connection.subscriber != [] && connection.subscriber[0].Data?
      modifies this, connection
      ensures View() == AfterFrame(old(View()), incoming, writeOk, wrote)
      ensures var frame := old(connection.subscriber)[0];
        client == old(client) + (if ok == Some(true) && clientOpen then [frame.msg] else [])
      ensures clientOpen == old(clientOpen)
      ensures ok.None? <==> !phase.Idle?
      ensures ok.Some? ==> ok.value == (old(connection.open) && writeOk)
    {
      ghost var l := Next(View(), TakeFrame);
      var frame := connection.subscriber[0];
      connection.subscriber := connection.subscriber[1..];
      processed := processed + [frame];
      phase := Acking(frame.msg, frame.number);
      assert View() == l;
      ok := connection.Send(Ack(frame.number), writeOk, wrote, incoming, Part());
      ResumedParts(l, incoming, writeOk, wrote);
      if ok.Some? {
        phase := Idle;
        if ok.value && clientOpen {
          client := client + [frame.msg];
        }
      }
    }

    /** The next frame from the subscription: a message is acknowledged first and handed over only
        if that worked; an acknowledgement answers the caller waiting for its number, if any. */
    method HandleConnectionMessage(writeOk: bool, wrote: bool, incoming: nat) returns (ok: Option<bool>)
      requires phase.Idle? && connection.subscriber != []
      modifies this, connection
      ensures View() == AfterFrame(old(View()), incoming, writeOk, wrote)
      ensures Leads(old(View()), TakeFrame, View())
      ensures var frame := old(connection.subscriber)[0];
        client == old(client) + (if frame.Data? && ok == Some(true) && old(clientOpen) then [frame.msg] else [])
      ensures ok.None? <==> !phase.Idle?
      ensures ok.Some? ==> (ok.value <==> old(connection.subscriber)[0].Ack? || (old(connection.open) && writeOk))
    {
      FrameLeads(View(), incoming, writeOk, wrote);
      var frame := connection.subscriber[0];
      match frame
      case Data(_, _) => ok := Acknowledge(writeOk, wrote, incoming);
      case Ack(n) =>
        connection.subscriber := connection.subscriber[1..];
        if n in waitingForAck {
          answered := answered + [Reply(n, waitingForAck[n])];
          waitingForAck := waitingForAck - {n};
        }
        ok := Some(true);
    }
  }
}
