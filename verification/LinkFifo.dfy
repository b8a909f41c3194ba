/** Ordered delivery that survives failure: over a first-in-first-out stream, what a client
    receives is always a prefix of what the peer's actor accepted, wherever either connection
    ends. The acknowledgement is sent before the message is handed over, so a message whose
    acknowledgement cannot be sent is skipped; it is a prefix all the same because a closed
    connection stays closed and every later acknowledgement fails too. */
module LinkFifo {
  import opened Protocol
  import opened ReliableLink
  import opened LinkOrder
  import opened LinkLive

  lemma PrefixTrans<T>(xs: seq<T>, ys: seq<T>, zs: seq<T>)
    requires xs <= ys <= zs
    ensures xs <= zs
  {
  }

  lemma DropSuffix<T>(xs: seq<T>, ys: seq<T>, zs: seq<T>)
    requires xs + ys <= zs
    ensures xs <= zs
  {
  }

  function Received(y: End): seq<Message> {
    y.client + DeliverPart(y)
  }

  ghost predicate Coming(x: End, from: nat, out: seq<Frame>) {
    && from <= |x.accepted|
    && Datas(out) <= FramesFrom(x.accepted, from)
    && (x.conn.Open? ==> Datas(out) == FramesFrom(x.accepted, from))
  }

  /** The data frames that can still reach y are those of the messages x accepted after the ones
      received: all of them while both connections are open, the first of them once x's is closed.
      Once y's is closed, or y's client is, nothing more arrives. */
  ghost predicate InOrder(x: End, y: End, out: seq<Frame>) {
    && x.sequenceNumber == Tag(|x.accepted|)
    && if !y.clientOpen then y.client <= Msgs(x.accepted)
       else Received(y) <= Msgs(x.accepted) && (y.conn.Open? ==> Coming(x, |Received(y)|, out))
  }

  lemma MsgsGrow(acc: seq<AckWaiter>, w: AckWaiter)
    ensures Msgs(acc) <= Msgs(acc + [w])
  {
  }

  lemma Weaken(x: End, y: End, out: seq<Frame>)
    requires InOrder(x, y, out)
    ensures y.client <= Msgs(x.accepted)
  {
    if y.clientOpen {
      DropSuffix(y.client, DeliverPart(y), Msgs(x.accepted));
    }
  }

  // ---------------------------------------------------------------- steps of the sender

  lemma ComingGrows(x: End, x': End, w: AckWaiter, from: nat, out: seq<Frame>)
    requires Coming(x, from, out) && x'.accepted == x.accepted + [w] && x'.conn == x.conn
    ensures Coming(x', from, if x.conn.Open? then out + [Data(w.msg, Tag(|x'.accepted|))] else out)
  {
    FramesSnoc(x.accepted, w, from);
    FilterSnoc(out, Data(w.msg, Tag(|x'.accepted|)));
    assert FramesFrom(x.accepted, from) <= FramesFrom(x'.accepted, from);
    PrefixTrans(Datas(out), FramesFrom(x.accepted, from), FramesFrom(x'.accepted, from));
  }

  lemma SenderAccepts(x: End, x': End, w: AckWaiter, y: End, out: seq<Frame>)
    requires InOrder(x, y, out) && x'.accepted == x.accepted + [w] && x'.conn == x.conn
    requires x'.sequenceNumber == NextNumber(x.sequenceNumber)
    ensures InOrder(x', y, if x.conn.Open? then out + [Data(w.msg, x'.sequenceNumber)] else out)
  {
    MsgsGrow(x.accepted, w);
    assert x'.sequenceNumber == Tag(|x'.accepted|);
    if y.clientOpen {
      PrefixTrans(Received(y), Msgs(x.accepted), Msgs(x'.accepted));
      if y.conn.Open? {
        ComingGrows(x, x', w, |Received(y)|, out);
      }
    } else {
      PrefixTrans(y.client, Msgs(x.accepted), Msgs(x'.accepted));
    }
  }

  lemma SenderLoses(x: End, x': End, y: End, out': seq<Frame>, lost: seq<Frame>)
    requires InOrder(x, y, out' + lost) && x'.conn.Closed?
    requires x'.accepted == x.accepted && x'.sequenceNumber == x.sequenceNumber
    ensures InOrder(x', y, out')
  {
    DatasAppend(out', lost);
    if y.clientOpen && y.conn.Open? {
      DropSuffix(Datas(out'), Datas(lost), FramesFrom(x.accepted, |Received(y)|));
    }
  }

  lemma AckAddsNothing(x: End, y: End, out: seq<Frame>, n: nat)
    ensures InOrder(x, y, out) <==> InOrder(x, y, out + [Ack(n)])
  {
    FilterSnoc(out, Ack(n));
  }

  lemma SenderOpenStep(l: Local, act: Act, y: End)
    requires Enabled(l, act) && !act.Close? && l.end.conn.Open?
    requires InOrder(l.end, y, Transit(l.end, y, l.out))
    ensures InOrder(Next(l, act).end, y, Transit(Next(l, act).end, y, Next(l, act).out))
  {
    var x, x' := l.end, Next(l, act).end;
    var out := Transit(x, y, l.out);
    TransitOut(l, act, y);
    if act.TakeCommand? {
      SenderAccepts(x, x', x.commands[0], y, out);
    } else {
      assert x'.accepted == x.accepted && x'.sequenceNumber == x.sequenceNumber && x'.conn.Open?;
      if Added(x, act) != [] {
        AckAddsNothing(x, y, out, x.phase.number);
      }
      assert out + [] == out;
    }
  }

  lemma SenderCloses(l: Local, wrote: bool, y: End)
    requires Enabled(l, Close(wrote))
    requires InOrder(l.end, y, Transit(l.end, y, l.out))
    ensures InOrder(Next(l, Close(wrote)).end, y, Transit(Next(l, Close(wrote)).end, y, Next(l, Close(wrote)).out))
  {
    var x, l' := l.end, Next(l, Close(wrote));
    var x' := l'.end;
    var out, out' := Transit(x, y, l.out), Transit(x', y, l'.out);
    if x.phase.Sending? && !wrote {
      Assoc(Arrived(y), l.out, Tail(x));
      assert out == out' + Tail(x);
      SenderLoses(x, x', y, out', Tail(x));
    } else {
      assert out == out + [];
      SenderLoses(x, x', y, out, []);
      if x.phase.Acking? && wrote {
        Assoc(Arrived(y), l.out, [Ack(x.phase.number)]);
        assert out' == out + [Ack(x.phase.number)];
        AckAddsNothing(x', y, out, x.phase.number);
      } else {
        assert out' == out;
      }
    }
  }

  lemma SenderClosedStep(l: Local, act: Act, y: End)
    requires Enabled(l, act) && l.end.conn.Closed?
    requires InOrder(l.end, y, Transit(l.end, y, l.out))
    ensures InOrder(Next(l, act).end, y, Transit(Next(l, act).end, y, Next(l, act).out))
  {
    var x, x' := l.end, Next(l, act).end;
    var out := Transit(x, y, l.out);
    if act.TakeCommand? {
      SenderAccepts(x, x', x.commands[0], y, out);
    } else if act.LoseTail? {
      var kept, lost := l.out[..act.keep], l.out[act.keep..];
      assert l.out == kept + lost;
      Assoc(Arrived(y), kept, lost);
      assert out == Transit(x', y, kept) + lost;
      SenderLoses(x, x', y, Transit(x', y, kept), lost);
    } else {
      assert x'.accepted == x.accepted && x'.sequenceNumber == x.sequenceNumber
          && x'.conn.Closed? && Next(l, act).out == l.out;
    }
  }

  lemma SenderStepKeepsOrder(l: Local, act: Act, y: End)
    requires Enabled(l, act)
    requires InOrder(l.end, y, Transit(l.end, y, l.out))
    ensures InOrder(Next(l, act).end, y, Transit(Next(l, act).end, y, Next(l, act).out))
  {
    if l.end.conn.Closed? {
      SenderClosedStep(l, act, y);
    } else if act.Close? {
      SenderCloses(l, act.wrote, y);
    } else {
      SenderOpenStep(l, act, y);
    }
  }

  // ---------------------------------------------------------------- steps of the receiver

  /** A step of y that is not a successful acknowledgement adds nothing to what is received. */
  lemma ReceivedStays(l: Local, act: Act)
    requires Enabled(l, act) && !(act.Write? && l.end.phase.Acking?)
    ensures Next(l, act).end.clientOpen ==> l.end.clientOpen
    ensures Next(l, act).end.clientOpen ==> Received(Next(l, act).end) == Received(l.end)
    ensures !l.end.clientOpen ==> Next(l, act).end.client == l.end.client
    ensures l.end.clientOpen && !Next(l, act).end.clientOpen ==> Next(l, act).end.client == l.end.client
    ensures act.Close? || Next(l, act).end.conn.Closed? == l.end.conn.Closed?
  {
  }

  /** The frame y is acknowledging is that of the next message it will have received. */
  lemma NextComing(x: End, from: nat, f: Frame, out: seq<Frame>)
    requires Coming(x, from, [f] + out) && f.Data?
    ensures from < |x.accepted| && f == Data(x.accepted[from].msg, Tag(from + 1))
    ensures Coming(x, from + 1, out)
  {
    FilterCons(f, out);
    var fs := FramesFrom(x.accepted, from);
    assert ([f] + Datas(out))[0] == f;
    FramesCons(x.accepted, from);
    assert fs[1..] == FramesFrom(x.accepted, from + 1);
    assert ([f] + Datas(out))[1..] == Datas(out);
  }

  lemma ReceiverAcks(l: Local, x: End)
    requires Enabled(l, Write) && l.end.phase.Acking?
    requires InOrder(x, l.end, Transit(x, l.end, l.inc))
    ensures InOrder(x, Next(l, Write).end, Transit(x, Next(l, Write).end, Next(l, Write).inc))
  {
    var y, y' := l.end, Next(l, Write).end;
    var f, out' := Data(y.phase.msg, y.phase.number), Transit(x, y', l.inc);
    TransitIn(l, Write, x);
    if y.clientOpen {
      NextComing(x, |Received(y)|, f, out');
      assert Received(y') == Received(y) + [f.msg];
      assert Msgs(x.accepted)[|Received(y)|] == f.msg;
    }
  }

  lemma ReceiverOpenStep(l: Local, act: Act, x: End)
    requires Enabled(l, act) && !act.Close? && l.end.conn.Open? && !(act.Write? && l.end.phase.Acking?)
    requires InOrder(x, l.end, Transit(x, l.end, l.inc))
    ensures InOrder(x, Next(l, act).end, Transit(x, Next(l, act).end, Next(l, act).inc))
  {
    var y, y' := l.end, Next(l, act).end;
    var out, out' := Transit(x, y, l.inc), Transit(x, y', Next(l, act).inc);
    TransitIn(l, act, x);
    ReceivedStays(l, act);
    Weaken(x, y, out);
    assert Datas(out) == Datas(out') by {
      if Removed(y, act) != [] {
        FilterCons(y.inbox[0], out');
      } else {
        assert [] + out' == out';
      }
    }
  }

  lemma ReceiverStepKeepsOrder(l: Local, act: Act, x: End)
    requires Enabled(l, act)
    requires InOrder(x, l.end, Transit(x, l.end, l.inc))
    ensures InOrder(x, Next(l, act).end, Transit(x, Next(l, act).end, Next(l, act).inc))
  {
    if act.Write? && l.end.phase.Acking? {
      ReceiverAcks(l, x);
    } else if act.Close? || l.end.conn.Closed? {
      Weaken(x, l.end, Transit(x, l.end, l.inc));
      ReceivedStays(l, act);
    } else {
      ReceiverOpenStep(l, act, x);
    }
  }

  // ---------------------------------------------------------------- whole runs

  ghost predicate BothInOrder(s: Sys) {
    && InOrder(s.a, s.b, Transit(s.a, s.b, s.ab))
    && InOrder(s.b, s.a, Transit(s.b, s.a, s.ba))
  }

  lemma StepKeepsOrder(s: Sys, ev: Event)
    requires Possible(s, ev) && (ev.ByA? || ev.ByB?) && BothInOrder(s)
    ensures BothInOrder(Happen(s, ev))
  {
    if ev.ByA? {
      SenderStepKeepsOrder(s.AtA(), ev.act, s.b);
      ReceiverStepKeepsOrder(s.AtA(), ev.act, s.b);
    } else {
      SenderStepKeepsOrder(s.AtB(), ev.act, s.a);
      ReceiverStepKeepsOrder(s.AtB(), ev.act, s.a);
    }
  }

  lemma {:induction false} RunKeepsOrder(evs: seq<Event>)
    requires Run(evs).Some? && Ordered(evs)
    ensures BothInOrder(Run(evs).value)
  {
    if evs != [] {
      var g := evs[..|evs| - 1];
      RunKeepsOrder(g);
      StepKeepsOrder(Run(g).value, evs[|g|]);
    }
  }

  /** In every ordered run, with connections and clients closing wherever they like, each client
      has received a prefix of the messages the other end accepted. */
  lemma DeliveredIsPrefix(evs: seq<Event>)
    requires Run(evs).Some? && Ordered(evs)
    ensures Run(evs).value.b.client <= Msgs(Run(evs).value.a.accepted)
    ensures Run(evs).value.a.client <= Msgs(Run(evs).value.b.accepted)
  {
    RunKeepsOrder(evs);
    var s := Run(evs).value;
    Weaken(s.a, s.b, Transit(s.a, s.b, s.ab));
    Weaken(s.b, s.a, Transit(s.b, s.a, s.ba));
  }

  /** More than a prefix is not guaranteed: in this run the only message was written, the connection
      ended, and the frame was lost with the tail of the stream. */
  lemma TailLostRun(m: Message) returns (evs: seq<Event>)
    ensures Run(evs).Some? && Ordered(evs)
    ensures var s := Run(evs).value;
      && |s.a.accepted| == 1 && s.a.conn.Closed? && s.a.phase.Idle? && s.ab == []
      && s.b == NEW_END
  {
    var g := SendOne([], m);
    RunSnoc(g, ByA(Close(false)));
    var g1 := g + [ByA(Close(false))];
    RunSnoc(g1, ByA(LoseTail(0)));
    evs := g1 + [ByA(LoseTail(0))];
  }
}
