/** What an answered send means on any network that does not make up frames: streams may lose,
    repeat and reorder frames, and connections may close. Stated for the messages end a sends;
    `MirrorRun` carries it over to end b. */
module LinkAck {
  import opened Protocol
  import opened ReliableLink

  /** The frame is somewhere between x and y's actor. */
  predicate OnWay(x: End, y: End, stream: seq<Frame>, f: Frame) {
    f in y.inbox || y.conn == Open(Some(f)) || f in stream || x.phase == Sending(f)
  }

  /** Which accepted message, counting from one, a number stands for before numbers are reused:
      the first 2^64 messages get 1, 2, ..., 2^64 - 1, 0. */
  function Position(n: nat): nat {
    if n == 0 then U64 else n
  }

  predicate InUse(x: End, n: nat) {
    n < U64 && Position(n) <= |x.accepted|
  }

  /** A data frame carries a message x accepted, under the number x gave it. */
  predicate Genuine(x: End, f: Frame) {
    f.Data? ==> InUse(x, f.number) && x.accepted[Position(f.number) - 1].msg == f.msg
  }

  predicate Handled(y: End, x: End, n: nat) {
    InUse(x, n) && Data(x.accepted[Position(n) - 1].msg, n) in y.processed
  }

  ghost predicate Numbered(x: End) {
    && x.sequenceNumber == |x.accepted| % U64
    && (forall i :: 0 <= i < |x.accepted| ==> x.accepted[i].respondTo == i)
    && (forall i :: 0 <= i < |x.commands| ==> x.commands[i].respondTo == |x.accepted| + i)
    && (forall n :: n in x.waiting ==> InUse(x, n) && x.waiting[n] == x.accepted[Position(n) - 1])
  }

  ghost predicate FramesGenuine(x: End, y: End, out: seq<Frame>) {
    && (forall f :: OnWay(x, y, out, f) ==> Genuine(x, f))
    && (forall f :: f in y.processed ==> f.Data? && Genuine(x, f))
    && (y.phase.Acking? ==> Data(y.phase.msg, y.phase.number) in y.processed)
  }

  ghost predicate AcksGenuine(x: End, y: End, back: seq<Frame>) {
    forall f :: OnWay(y, x, back, f) && f.Ack? ==> Handled(y, x, f.number)
  }

  ghost predicate RepliesGenuine(x: End, y: End) {
    && (forall i :: 0 <= i < |x.answered| ==>
          && Handled(y, x, x.answered[i].number)
          && x.answered[i].waiter == x.accepted[Position(x.answered[i].number) - 1]
          && x.answered[i].number !in x.waiting)
    && (forall i, j :: 0 <= i < j < |x.answered| ==> x.answered[i].number != x.answered[j].number)
  }

  ghost predicate Sound(x: End, y: End, out: seq<Frame>, back: seq<Frame>) {
    Numbered(x) && FramesGenuine(x, y, out) && AcksGenuine(x, y, back) && RepliesGenuine(x, y)
  }

  /** A step of an end puts no frame on its way that was not there, other than the one it has
      just numbered and the acknowledgement it was sending. */
  lemma OnWayOut(l: Local, act: Act, y: End, f: Frame)
    requires Enabled(l, act) && OnWay(Next(l, act).end, y, Next(l, act).out, f)
    ensures OnWay(l.end, y, l.out, f)
         || (act.TakeCommand? && f == Data(l.end.commands[0].msg, NextNumber(l.end.sequenceNumber)))
         || ((act.Write? || act == Close(true)) && l.end.phase.Acking? && f == Ack(l.end.phase.number))
  {
  }

  lemma OnWayIn(l: Local, act: Act, y: End, f: Frame)
    requires Enabled(l, act) && OnWay(y, Next(l, act).end, Next(l, act).inc, f)
    ensures OnWay(y, l.end, l.inc, f)
  {
  }

  // ---------------------------------------------------------------- steps of the sending end

  /** Accepting one more message, below the limit. */
  predicate Accepts(x: End, x': End, w: AckWaiter, n: nat) {
    && |x.accepted| < U64 && n == (|x.accepted| + 1) % U64
    && x'.accepted == x.accepted + [w] && x'.answered == x.answered
    && x'.sequenceNumber == n && x'.waiting == x.waiting[n := w]
  }

  lemma FreshNumber(x: End, n: nat)
    requires |x.accepted| < U64 && n == (|x.accepted| + 1) % U64
    ensures n < U64 && Position(n) == |x.accepted| + 1 && !InUse(x, n)
  {
  }

  lemma GenuineGrows(x: End, x': End, w: AckWaiter, n: nat, y: End, f: Frame)
    requires Accepts(x, x', w, n)
    ensures Genuine(x, f) ==> Genuine(x', f)
    ensures f == Data(w.msg, n) ==> Genuine(x', f)
    ensures Handled(y, x, f.number) ==> Handled(y, x', f.number)
  {
  }

  lemma NumberedGrows(x: End, x': End, w: AckWaiter, n: nat)
    requires Accepts(x, x', w, n) && Numbered(x)
    requires x.commands != [] && w == x.commands[0] && x'.commands == x.commands[1..]
    ensures Numbered(x')
  {
    FreshNumber(x, n);
    forall k | k in x'.waiting ensures InUse(x', k) && x'.waiting[k] == x'.accepted[Position(k) - 1] {
      if k != n {
        assert InUse(x, k);
      }
    }
  }

  lemma RepliesGrow(x: End, x': End, w: AckWaiter, n: nat, y: End)
    requires Accepts(x, x', w, n) && RepliesGenuine(x, y)
    ensures RepliesGenuine(x', y)
  {
  }

  lemma SenderTakesCommand(l: Local, y: End)
    requires Enabled(l, TakeCommand) && Sound(l.end, y, l.out, l.inc)
    requires |l.end.accepted| + 1 <= U64
    ensures Sound(Next(l, TakeCommand).end, y, Next(l, TakeCommand).out, Next(l, TakeCommand).inc)
  {
    var x, x' := l.end, Next(l, TakeCommand).end;
    var w, n := x.commands[0], NextNumber(x.sequenceNumber);
    assert Accepts(x, x', w, n);
    NumberedGrows(x, x', w, n);
    RepliesGrow(x, x', w, n, y);
    forall f | OnWay(x', y, l.out, f) ensures Genuine(x', f) {
      OnWayOut(l, TakeCommand, y, f);
      GenuineGrows(x, x', w, n, y, f);
    }
    forall f | f in y.processed ensures f.Data? && Genuine(x', f) {
      GenuineGrows(x, x', w, n, y, f);
    }
    forall f | OnWay(y, x', l.inc, f) && f.Ack? ensures Handled(y, x', f.number) {
      OnWayIn(l, TakeCommand, y, f);
      GenuineGrows(x, x', w, n, y, f);
    }
  }

  lemma ReplyIsGenuine(x: End, y: End, n: nat)
    requires Numbered(x) && RepliesGenuine(x, y) && n in x.waiting && Handled(y, x, n)
    ensures RepliesGenuine(x.(waiting := x.waiting - {n}, answered := x.answered + [Reply(n, x.waiting[n])]), y)
  {
  }

  lemma TakeFrameReplies(l: Local, y: End)
    requires Enabled(l, TakeFrame) && AcksGenuine(l.end, y, l.inc)
    requires Numbered(l.end) && RepliesGenuine(l.end, y)
    ensures Numbered(Next(l, TakeFrame).end) && RepliesGenuine(Next(l, TakeFrame).end, y)
  {
    var x, x' := l.end, Next(l, TakeFrame).end;
    var f0 := x.inbox[0];
    assert OnWay(y, x, l.inc, f0);
    if f0.Ack? && f0.number in x.waiting {
      ReplyIsGenuine(x, y, f0.number);
      assert x'.answered == x.answered + [Reply(f0.number, x.waiting[f0.number])];
    } else {
      assert x'.answered == x.answered && x'.waiting == x.waiting;
    }
    assert x'.accepted == x.accepted;
  }

  lemma FramesStay(l: Local, act: Act, y: End)
    requires Enabled(l, act) && !act.TakeCommand? && FramesGenuine(l.end, y, l.out)
    ensures FramesGenuine(Next(l, act).end, y, Next(l, act).out)
  {
    var x, l' := l.end, Next(l, act);
    assert l'.end.accepted == x.accepted;
    forall f | OnWay(l'.end, y, l'.out, f) ensures Genuine(l'.end, f) {
      OnWayOut(l, act, y, f);
    }
  }

  lemma AcksStay(l: Local, act: Act, y: End)
    requires Enabled(l, act) && !act.TakeCommand? && AcksGenuine(l.end, y, l.inc)
    ensures AcksGenuine(Next(l, act).end, y, Next(l, act).inc)
  {
    var x, l' := l.end, Next(l, act);
    assert l'.end.accepted == x.accepted;
    forall f | OnWay(y, l'.end, l'.inc, f) && f.Ack? ensures Handled(y, l'.end, f.number) {
      OnWayIn(l, act, y, f);
    }
  }

  lemma SenderTakesFrame(l: Local, y: End)
    requires Enabled(l, TakeFrame) && Sound(l.end, y, l.out, l.inc)
    ensures Sound(Next(l, TakeFrame).end, y, Next(l, TakeFrame).out, Next(l, TakeFrame).inc)
  {
    FramesStay(l, TakeFrame, y);
    AcksStay(l, TakeFrame, y);
    TakeFrameReplies(l, y);
  }

  lemma SenderOtherStep(l: Local, act: Act, y: End)
    requires Enabled(l, act) && !act.TakeCommand? && !act.TakeFrame? && Sound(l.end, y, l.out, l.inc)
    ensures Sound(Next(l, act).end, y, Next(l, act).out, Next(l, act).inc)
  {
    var x, x' := l.end, Next(l, act).end;
    assert x'.accepted == x.accepted && x'.answered == x.answered && x'.waiting == x.waiting
        && x'.sequenceNumber == x.sequenceNumber;
    FramesStay(l, act, y);
    AcksStay(l, act, y);
    assert Numbered(x');
    assert RepliesGenuine(x', y);
  }

  lemma SenderStep(l: Local, act: Act, y: End)
    requires Enabled(l, act) && Sound(l.end, y, l.out, l.inc)
    requires |Next(l, act).end.accepted| <= U64
    ensures Sound(Next(l, act).end, y, Next(l, act).out, Next(l, act).inc)
  {
    if act.TakeCommand? {
      SenderTakesCommand(l, y);
    } else if act.TakeFrame? {
      SenderTakesFrame(l, y);
    } else {
      SenderOtherStep(l, act, y);
    }
  }

  // ---------------------------------------------------------------- steps of the receiving end

  lemma ProcessedGrows(l: Local, act: Act, x: End)
    requires Enabled(l, act) && FramesGenuine(x, l.end, l.inc)
    ensures forall f :: f in l.end.processed ==> f in Next(l, act).end.processed
    ensures forall f :: f in Next(l, act).end.processed ==> f.Data? && Genuine(x, f)
    ensures Next(l, act).end.phase.Acking? ==>
              Data(Next(l, act).end.phase.msg, Next(l, act).end.phase.number) in Next(l, act).end.processed
    ensures l.end.phase.Acking? ==> Handled(Next(l, act).end, x, l.end.phase.number)
  {
  }

  lemma ReceiverStep(l: Local, act: Act, x: End)
    requires Enabled(l, act) && Sound(x, l.end, l.inc, l.out)
    ensures Sound(x, Next(l, act).end, Next(l, act).inc, Next(l, act).out)
  {
    var y, l' := l.end, Next(l, act);
    var y' := l'.end;
    forall f | OnWay(x, y', l'.inc, f) ensures Genuine(x, f) {
      OnWayIn(l, act, x, f);
    }
    ProcessedGrows(l, act, x);
    forall f | OnWay(y', x, l'.out, f) && f.Ack? ensures Handled(y', x, f.number) {
      OnWayOut(l, act, x, f);
    }
    assert RepliesGenuine(x, y');
  }

  // ---------------------------------------------------------------- whole runs

  ghost predicate SoundAtA(s: Sys) {
    Sound(s.a, s.b, s.ab, s.ba)
  }

  lemma FewerFrames(x: End, y: End, out: seq<Frame>, back: seq<Frame>, out': seq<Frame>, back': seq<Frame>)
    requires Sound(x, y, out, back)
    requires forall f :: f in out' ==> f in out
    requires forall f :: f in back' ==> f in back
    ensures Sound(x, y, out', back')
  {
  }

  lemma NoNewFrames(s: Sys, ev: Event)
    requires Possible(s, ev) && !ev.ByA? && !ev.ByB?
    ensures Happen(s, ev).a == s.a && Happen(s, ev).b == s.b
    ensures forall f :: f in Happen(s, ev).ab ==> f in s.ab
    ensures forall f :: f in Happen(s, ev).ba ==> f in s.ba
  {
  }

  lemma StepKeepsSound(s: Sys, ev: Event)
    requires Possible(s, ev) && SoundAtA(s) && |Happen(s, ev).a.accepted| <= U64
    ensures SoundAtA(Happen(s, ev))
  {
    match ev
    case ByA(act) => SenderStep(s.AtA(), act, s.b);
    case ByB(act) => ReceiverStep(s.AtB(), act, s.a);
    case _ =>
      NoNewFrames(s, ev);
      FewerFrames(s.a, s.b, s.ab, s.ba, Happen(s, ev).ab, Happen(s, ev).ba);
  }

  lemma {:induction false} RunKeepsSound(evs: seq<Event>)
    requires Run(evs).Some? && |Run(evs).value.a.accepted| <= U64
    ensures SoundAtA(Run(evs).value)
  {
    if evs != [] {
      var g := evs[..|evs| - 1];
      AcceptedGrows(Run(g).value, evs[|g|]);
      RunKeepsSound(g);
      StepKeepsSound(Run(g).value, evs[|g|]);
    }
  }

  /** Acknowledgement soundness: in every run on any network without forgery, while a has numbered
      at most 2^64 messages, each answered call is the one that sent the message the number stands
      for, the peer's actor has processed the frame carrying exactly that message under that
      number, and no number is answered twice. */
  lemma AnsweredMeansProcessed(evs: seq<Event>, i: nat)
    requires Run(evs).Some? && |Run(evs).value.a.accepted| <= U64
    requires i < |Run(evs).value.a.answered|
    ensures var s := Run(evs).value;
      var r := s.a.answered[i];
      && InUse(s.a, r.number) && r.waiter == s.a.accepted[Position(r.number) - 1]
      && r.waiter.respondTo == Position(r.number) - 1
      && Data(r.waiter.msg, r.number) in s.b.processed
      && (forall j :: 0 <= j < |s.a.answered| && j != i ==> s.a.answered[j].number != r.number)
  {
    RunKeepsSound(evs);
  }

  /** The call on the end's handle was answered. */
  predicate AnsweredCall(x: End, call: nat) {
    exists i :: 0 <= i < |x.answered| && x.answered[i].waiter.respondTo == call
  }

  lemma CallHandled(x: End, y: End, i: nat, call: nat)
    requires Numbered(x) && RepliesGenuine(x, y)
    requires i < |x.answered| && x.answered[i].waiter.respondTo == call
    ensures call < |x.accepted| && Data(x.accepted[call].msg, (call + 1) % U64) in y.processed
  {
  }
}
