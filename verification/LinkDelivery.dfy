/** When an answered call also means that the peer's client has the message, on an ordered stream.

    The acknowledgement goes out before the message is handed over. A connection that ends while
    the acknowledgement is being written may still have put it on the stream; the handler then sees
    an error and skips the message, while the caller at the other end is told Ok. */
module LinkDelivery {
  import opened Protocol
  import opened ReliableLink
  import opened LinkOrder
  import opened LinkLive
  import opened LinkFifo
  import opened LinkAck

  predicate Leaks(s: Option<Sys>, ev: Event) {
    s.Some? && ev == ByB(Close(true)) && s.value.b.phase.Acking?
  }

  /** End b's connection ended after putting on the stream an acknowledgement it then reported as
      failed. */
  predicate Leaked(evs: seq<Event>) {
    evs != [] &&
    (Leaked(evs[..|evs| - 1]) || Leaks(Run(evs[..|evs| - 1]), evs[|evs| - 1]))
  }

  predicate Within(n: nat, bound: nat) {
    n < U64 && Position(n) <= bound
  }

  /** How many messages y may have acknowledged. */
  function Acknowledged(y: End, leaked: bool): nat {
    |Received(y)| + if leaked then 1 else 0
  }

  ghost predicate AcksWithin(x: End, y: End, back: seq<Frame>, bound: nat) {
    && (forall f :: OnWay(y, x, back, f) && f.Ack? ==> Within(f.number, bound))
    && (forall i :: 0 <= i < |x.answered| ==> Within(x.answered[i].number, bound))
  }

  ghost predicate Covered(s: Sys, leaked: bool) {
    s.b.clientOpen ==>
      && (leaked ==> s.b.conn.Closed?)
      && AcksWithin(s.a, s.b, s.ba, Acknowledged(s.b, leaked))
  }

  lemma SenderKeepsCover(l: Local, act: Act, y: End, bound: nat)
    requires Enabled(l, act) && AcksWithin(l.end, y, l.inc, bound)
    ensures AcksWithin(Next(l, act).end, y, Next(l, act).inc, bound)
  {
    var l' := Next(l, act);
    forall f | OnWay(y, l'.end, l'.inc, f) && f.Ack? ensures Within(f.number, bound) {
      OnWayIn(l, act, y, f);
    }
    if act.TakeFrame? {
      assert OnWay(y, l.end, l.inc, l.end.inbox[0]);
    }
  }

  /** The number of the acknowledgement y is sending is that of the next message to receive. */
  lemma AckingNext(x: End, y: End, stream: seq<Frame>)
    requires InOrder(x, y, Transit(x, y, stream)) && |x.accepted| <= U64
    requires y.clientOpen && y.conn.Open? && y.phase.Acking?
    ensures Within(y.phase.number, |Received(y)| + 1)
  {
    var f := Data(y.phase.msg, y.phase.number);
    var rest := y.inbox + Held(y) + Leaving(x, stream);
    assert Transit(x, y, stream) == [f] + rest;
    NextComing(x, |Received(y)|, f, rest);
  }

  lemma ReceiverGrows(l: Local, act: Act)
    requires Enabled(l, act) && Next(l, act).end.clientOpen
    ensures |Received(Next(l, act).end)|
         == |Received(l.end)| + (if act.Write? && l.end.phase.Acking? then 1 else 0)
  {
    if !(act.Write? && l.end.phase.Acking?) {
      ReceivedStays(l, act);
    }
  }

  lemma ReceiverKeepsCover(l: Local, act: Act, x: End, leaked: bool)
    requires Enabled(l, act) && Next(l, act).end.clientOpen && |x.accepted| <= U64
    requires InOrder(x, l.end, Transit(x, l.end, l.inc))
    requires leaked ==> l.end.conn.Closed?
    requires AcksWithin(x, l.end, l.out, Acknowledged(l.end, leaked))
    ensures var leaked' := leaked || (act == Close(true) && l.end.phase.Acking?);
      && (leaked' ==> Next(l, act).end.conn.Closed?)
      && AcksWithin(x, Next(l, act).end, Next(l, act).out, Acknowledged(Next(l, act).end, leaked'))
  {
    var y, l' := l.end, Next(l, act);
    var leaked' := leaked || (act == Close(true) && y.phase.Acking?);
    ReceiverGrows(l, act);
    var bound, bound' := Acknowledged(y, leaked), Acknowledged(l'.end, leaked');
    assert bound <= bound';
    forall f | OnWay(l'.end, x, l'.out, f) && f.Ack? ensures Within(f.number, bound') {
      OnWayOut(l, act, x, f);
      if !OnWay(y, x, l.out, f) {
        AckingNext(x, y, l.inc);
      }
    }
  }

  lemma ReceivedOpen(l: Local, act: Act)
    requires Enabled(l, act) && Next(l, act).end.clientOpen
    ensures l.end.clientOpen
  {
  }

  lemma StepKeepsCover(s: Sys, ev: Event, leaked: bool)
    requires Possible(s, ev) && (ev.ByA? || ev.ByB?) && |s.a.accepted| <= U64
    requires BothInOrder(s) && Covered(s, leaked)
    ensures Covered(Happen(s, ev), leaked || Leaks(Some(s), ev))
  {
    if Happen(s, ev).b.clientOpen {
      if ev.ByA? {
        SenderKeepsCover(s.AtA(), ev.act, s.b, Acknowledged(s.b, leaked));
      } else {
        ReceivedOpen(s.AtB(), ev.act);
        ReceiverKeepsCover(s.AtB(), ev.act, s.a, leaked);
      }
    }
  }

  lemma {:induction false} RunKeepsCover(evs: seq<Event>)
    requires Run(evs).Some? && Ordered(evs) && |Run(evs).value.a.accepted| <= U64
    ensures Covered(Run(evs).value, Leaked(evs))
  {
    if evs != [] {
      var g := evs[..|evs| - 1];
      AcceptedGrows(Run(g).value, evs[|g|]);
      RunKeepsCover(g);
      RunKeepsOrder(g);
      StepKeepsCover(Run(g).value, evs[|g|], Leaked(g));
    }
  }

  /** The call's message is with the peer's client, or is being handed to it. */
  predicate Delivered(s: Sys, call: nat) {
    call < |Received(s.b)| && call < |s.a.accepted| && Received(s.b)[call] == s.a.accepted[call].msg
  }

  /** In an ordered run whose receiving client is open, an answered call's message was delivered,
      unless an acknowledgement leaked: then at most the one message after the delivered ones is
      answered all the same. */
  lemma AnsweredMeansDelivered(evs: seq<Event>, call: nat)
    requires Run(evs).Some? && Ordered(evs) && |Run(evs).value.a.accepted| <= U64
    requires Run(evs).value.b.clientOpen && AnsweredCall(Run(evs).value.a, call)
    ensures Delivered(Run(evs).value, call) || (Leaked(evs) && call == |Received(Run(evs).value.b)|)
  {
    var s := Run(evs).value;
    RunKeepsCover(evs);
    RunKeepsOrder(evs);
    var i :| 0 <= i < |s.a.answered| && s.a.answered[i].waiter.respondTo == call;
    AnsweredMeansProcessed(evs, i);
    assert Within(s.a.answered[i].number, Acknowledged(s.b, Leaked(evs)));
    if call < |Received(s.b)| {
      assert Received(s.b)[call] == Msgs(s.a.accepted)[call];
    }
  }

  // ---------------------------------------------------------------- the exact condition

  /** Ok means delivered in every ordered run, where acknowledgements may or may not leak and the
      receiving client may or may not have closed. */
  ghost predicate OkMeansDelivered(leaks: bool, closes: bool) {
    forall evs, call: nat ::
      Run(evs).Some? && Ordered(evs) && |Run(evs).value.a.accepted| <= U64
      && (leaks || !Leaked(evs)) && (closes || Run(evs).value.b.clientOpen)
      && AnsweredCall(Run(evs).value.a, call)
      ==> Delivered(Run(evs).value, call)
  }

  predicate AckPending(s: Sys) {
    && Resting(s.a) && s.a.inbox == [] && s.ba == [] && |s.a.accepted| == 1
    && 1 in s.a.waiting && s.a.waiting[1].respondTo == 0
    && s.b.phase.Acking? && s.b.phase.number == 1 && s.b.conn == Open(None)
    && s.b.clientOpen && s.b.client == []
  }

  lemma {:induction false} StillNotLeaked(evs: seq<Event>, more: seq<Event>)
    requires !Leaked(evs) && forall i :: 0 <= i < |more| ==> more[i] != ByB(Close(true))
    ensures !Leaked(evs + more)
  {
    if more == [] {
      assert evs + more == evs;
    } else {
      var n := |more| - 1;
      assert (evs + more)[..|evs + more| - 1] == evs + more[..n];
      StillNotLeaked(evs, more[..n]);
    }
  }

  /** End b is about to acknowledge the first and only message. */
  lemma AboutToAck(m: Message) returns (evs: seq<Event>)
    ensures Run(evs).Some? && Ordered(evs) && !Leaked(evs) && AckPending(Run(evs).value)
  {
    var g := SendOne([], m);
    StillNotLeaked([], [ByA(Submit(m)), ByA(TakeCommand), ByA(Write)]);
    evs := ReceiveOne(g, m, 1);
    StillNotLeaked(g, [ByB(Read), ByB(Push), ByB(TakeFrame)]);
  }

  lemma {:induction false} LeakedStays(evs: seq<Event>, more: seq<Event>)
    requires Leaked(evs)
    ensures Leaked(evs + more)
  {
    if more == [] {
      assert evs + more == evs;
    } else {
      var n := |more| - 1;
      assert (evs + more)[..|evs + more| - 1] == evs + more[..n];
      LeakedStays(evs, more[..n]);
    }
  }

  /** A run in which the only message is acknowledged, answered and never delivered. */
  lemma LeakedRun(m: Message) returns (evs: seq<Event>)
    ensures Run(evs).Some? && Ordered(evs) && Leaked(evs)
    ensures var s := Run(evs).value;
      && |s.a.accepted| == 1 && AnsweredCall(s.a, 0)
      && s.b.clientOpen && s.b.conn.Closed? && s.b.phase.Idle? && s.b.client == []
  {
    var g := AboutToAck(m);
    RunSnoc(g, ByB(Close(true)));
    var g1 := g + [ByB(Close(true))];
    assert g1[..|g|] == g;
    RunSnoc(g1, ByB(Fail));
    var g2 := g1 + [ByB(Fail)];
    assert Leaked(g1);
    LeakedStays(g1, [ByB(Fail)]);
    evs := TakeOnly(g2, Ack(1));
    LeakedStays(g2, [ByA(Read), ByA(Push), ByA(TakeFrame)]);
    assert Run(evs).value.a.answered[|Run(evs).value.a.answered| - 1].waiter.respondTo == 0;
  }

  lemma AckToNobody(g: seq<Event>) returns (all: seq<Event>)
    requires Run(g).Some? && Ordered(g) && !Leaked(g) && AckPending(Run(g).value)
    ensures Run(all).Some? && Ordered(all) && !Leaked(all)
    ensures var s, t := Run(g).value, Run(all).value;
      t.a == s.a && t.ba == [Ack(1)] && t.b.client == [] && t.b.phase.Idle?
  {
    RunSnoc(g, ByB(CloseClient));
    var g1 := g + [ByB(CloseClient)];
    RunSnoc(g1, ByB(Write));
    var g2 := g1 + [ByB(Write)];
    RunSnoc(g2, ByB(Deliver));
    all := g2 + [ByB(Deliver)];
    StillNotLeaked(g, [ByB(CloseClient)]);
    StillNotLeaked(g1, [ByB(Write)]);
    StillNotLeaked(g2, [ByB(Deliver)]);
  }

  /** A run in which the client has closed when the only message is acknowledged. */
  lemma ClosedClientRun(m: Message) returns (evs: seq<Event>)
    ensures Run(evs).Some? && Ordered(evs) && !Leaked(evs)
    ensures var s := Run(evs).value; |s.a.accepted| == 1 && AnsweredCall(s.a, 0) && s.b.client == [] && s.b.phase.Idle?
  {
    var g := AboutToAck(m);
    var g1 := AckToNobody(g);
    evs := TakeOnly(g1, Ack(1));
    StillNotLeaked(g1, [ByA(Read), ByA(Push), ByA(TakeFrame)]);
    assert Run(evs).value.a.answered[|Run(evs).value.a.answered| - 1].waiter.respondTo == 0;
  }

  /** Over ordered streams an Ok always means delivery if and only if no acknowledgement leaks and
      the receiving client stays open. */
  lemma DeliveryIff(leaks: bool, closes: bool)
    ensures OkMeansDelivered(leaks, closes) <==> !leaks && !closes
  {
    if leaks {
      var evs := LeakedRun(UnicastMessage(Ping("", "")));
      assert AnsweredCall(Run(evs).value.a, 0) && !Delivered(Run(evs).value, 0);
    } else if closes {
      var evs := ClosedClientRun(UnicastMessage(Ping("", "")));
      assert AnsweredCall(Run(evs).value.a, 0) && !Delivered(Run(evs).value, 0);
    } else {
      forall evs, call: nat |
        Run(evs).Some? && Ordered(evs) && |Run(evs).value.a.accepted| <= U64 && Run(evs).value.b.clientOpen
        && !Leaked(evs) && AnsweredCall(Run(evs).value.a, call)
        ensures Delivered(Run(evs).value, call)
      {
        AnsweredMeansDelivered(evs, call);
      }
    }
  }
}
