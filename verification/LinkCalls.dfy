/** What a caller of the reliable sender's handle gets. Stated for the calls at end a. */
module LinkCalls {
  import opened Protocol
  import opened ReliableLink
  import opened LinkLive
  import opened LinkAck

  /** The oneshot channel of a call: its sender is with the actor, was used, or is gone. */
  datatype Channel = Held | Used(reply: Result<()>) | Dropped

  /** What the handle's send returns, if it returns. The content of a reply is not looked at, only
      whether one came. */
  function HandleSend(queued: bool, channel: Channel): Option<Result<()>> {
    if !queued then Some(Err)
    else match channel
      case Held => None
      case Used(_) => Some(Ok(()))
      case Dropped => Some(Err)
  }

  /** The call's waiter is queued, or in the table of those waiting for an acknowledgement. */
  ghost predicate Waits(x: End, call: nat) {
    || (exists i :: 0 <= i < |x.commands| && x.commands[i].respondTo == call)
    || (exists n :: n in x.waiting && x.waiting[n].respondTo == call)
  }

  /** The actor only ever sends Ok; a waiter pushed out of the table by a later one is dropped. */
  ghost function ChannelOf(s: Sys, call: nat): Channel {
    if AnsweredCall(s.a, call) then Used(Ok(()))
    else if Waits(s.a, call) then Held
    else Dropped
  }

  /** The handle returns Ok exactly for a queued call that was answered, and does not return exactly
      while a queued call waits. */
  lemma HandleOkIff(s: Sys, call: nat, queued: bool)
    ensures HandleSend(queued, ChannelOf(s, call)) == Some(Ok(())) <==> queued && AnsweredCall(s.a, call)
    ensures HandleSend(queued, ChannelOf(s, call)) == None <==> queued && !AnsweredCall(s.a, call) && Waits(s.a, call)
  {
  }

  /** The handle's Ok means the peer processed that very message. */
  lemma HandleOkMeansProcessed(evs: seq<Event>, call: nat, queued: bool)
    requires Run(evs).Some? && |Run(evs).value.a.accepted| <= U64
    requires HandleSend(queued, ChannelOf(Run(evs).value, call)) == Some(Ok(()))
    ensures var s := Run(evs).value;
      call < |s.a.accepted| && Data(s.a.accepted[call].msg, (call + 1) % U64) in s.b.processed
  {
    RunKeepsSound(evs);
    var s := Run(evs).value;
    var i :| 0 <= i < |s.a.answered| && s.a.answered[i].waiter.respondTo == call;
    CallHandled(s.a, s.b, i, call);
  }

  // ---------------------------------------------------------------- no call is lost

  /** The k-th call waits on the k-th channel. */
  ghost predicate CallsNumbered(x: End) {
    && (forall i :: 0 <= i < |x.accepted| ==> x.accepted[i].respondTo == i)
    && (forall i :: 0 <= i < |x.commands| ==> x.commands[i].respondTo == |x.accepted| + i)
  }

  lemma CallsStep(s: Sys, ev: Event)
    requires Possible(s, ev) && CallsNumbered(s.a)
    ensures CallsNumbered(Happen(s, ev).a)
  {
  }

  lemma {:induction false} CallsStayNumbered(evs: seq<Event>)
    requires Run(evs).Some?
    ensures CallsNumbered(Run(evs).value.a)
  {
    if evs != [] {
      var g := evs[..|evs| - 1];
      CallsStayNumbered(g);
      CallsStep(Run(g).value, evs[|g|]);
    }
  }

  predicate InTable(x: End, call: nat) {
    call < |x.accepted| && (call + 1) % U64 in x.waiting && x.waiting[(call + 1) % U64] == x.accepted[call]
  }

  /** Every accepted call was answered or is in the table under its number. */
  ghost predicate Kept(x: End) {
    forall c :: 0 <= c < |x.accepted| ==> AnsweredCall(x, c) || InTable(x, c)
  }

  lemma AnsweredStays(x: End, r: Reply, c: nat)
    requires AnsweredCall(x, c)
    ensures AnsweredCall(x.(answered := x.answered + [r]), c)
  {
    var i :| 0 <= i < |x.answered| && x.answered[i].waiter.respondTo == c;
    assert (x.answered + [r])[i] == x.answered[i];
  }

  lemma TakeCommandKeeps(l: Local)
    requires Enabled(l, TakeCommand) && CallsNumbered(l.end) && Kept(l.end)
    requires l.end.sequenceNumber == |l.end.accepted| % U64 && |l.end.accepted| < U64
    ensures Kept(Next(l, TakeCommand).end)
  {
    var x, x' := l.end, Next(l, TakeCommand).end;
    forall c: nat | c < |x'.accepted| ensures AnsweredCall(x', c) || InTable(x', c) {
      if c < |x.accepted| {
        assert AnsweredCall(x, c) || InTable(x, c);
        assert x'.accepted[c] == x.accepted[c];
      }
    }
  }

  lemma TakeFrameKeeps(l: Local)
    requires Enabled(l, TakeFrame) && CallsNumbered(l.end) && Kept(l.end)
    requires |l.end.accepted| <= U64
    ensures Kept(Next(l, TakeFrame).end)
  {
    var x, x' := l.end, Next(l, TakeFrame).end;
    if x.inbox[0].Ack? && x.inbox[0].number in x.waiting {
      var n := x.inbox[0].number;
      var r := Reply(n, x.waiting[n]);
      forall c: nat | c < |x.accepted| ensures AnsweredCall(x', c) || InTable(x', c) {
        if AnsweredCall(x, c) {
          AnsweredStays(x, r, c);
        } else if n == (c + 1) % U64 {
          assert x'.answered[|x.answered|].waiter.respondTo == c;
        }
      }
    } else {
      assert forall c :: AnsweredCall(x, c) ==> AnsweredCall(x', c);
    }
  }

  lemma StepKeepsCalls(s: Sys, ev: Event)
    requires Possible(s, ev) && CallsNumbered(s.a) && Kept(s.a)
    requires s.a.sequenceNumber == |s.a.accepted| % U64 && |Happen(s, ev).a.accepted| <= U64
    ensures Kept(Happen(s, ev).a)
  {
    if ev.ByA? && ev.act.TakeCommand? {
      TakeCommandKeeps(s.AtA());
    } else if ev.ByA? && ev.act.TakeFrame? {
      TakeFrameKeeps(s.AtA());
    } else {
      var x, x' := s.a, Happen(s, ev).a;
      assert x'.accepted == x.accepted && x'.answered == x.answered && x'.waiting == x.waiting;
      assert forall c :: AnsweredCall(x, c) ==> AnsweredCall(x', c);
    }
  }

  lemma {:induction false} CallsKept(evs: seq<Event>)
    requires Run(evs).Some? && |Run(evs).value.a.accepted| <= U64
    ensures Kept(Run(evs).value.a)
  {
    if evs != [] {
      var g := evs[..|evs| - 1];
      AcceptedGrows(Run(g).value, evs[|g|]);
      CallsKept(g);
      CallsStayNumbered(g);
      RunKeepsSound(g);
      StepKeepsCalls(Run(g).value, evs[|g|]);
    }
  }

  /** While at most 2^64 messages were numbered no queued call ever fails, on any network and however
      connections close: it returns Ok or it waits. */
  lemma QueuedCallsNeverFail(evs: seq<Event>, call: nat)
    requires Run(evs).Some? && |Run(evs).value.a.accepted| <= U64
    requires var x := Run(evs).value.a; call < |x.accepted| + |x.commands|
    ensures var s := Run(evs).value;
      HandleSend(true, ChannelOf(s, call)) == if AnsweredCall(s.a, call) then Some(Ok(())) else None
  {
    CallsStayNumbered(evs);
    CallsKept(evs);
    var x := Run(evs).value.a;
    if call < |x.accepted| {
      assert AnsweredCall(x, call) || InTable(x, call);
    } else {
      assert x.commands[call - |x.accepted|].respondTo == call;
    }
  }

  // ---------------------------------------------------------------- live connections

  lemma {:induction false} WaitMapHas(acc: seq<AckWaiter>, lo: nat, hi: nat, i: nat)
    requires lo < i <= hi <= |acc| && hi - lo <= U64
    ensures Tag(i) in WaitMap(acc, lo, hi) && WaitMap(acc, lo, hi)[Tag(i)] == acc[i - 1]
    decreases hi
  {
    if i < hi {
      WaitMapHas(acc, lo, hi - 1, i);
      TagsDiffer(i, hi);
    }
  }

  lemma AccountedCall(s: Sys, call: nat)
    requires Accounted(s) && InWindow(s) && CallsNumbered(s.a)
    requires call < |s.a.accepted| + |s.a.commands|
    ensures AnsweredCall(s.a, call) <==> call < |s.a.answered|
    ensures call >= |s.a.answered| ==> Waits(s.a, call)
  {
    var x := s.a;
    if call < |x.answered| {
      assert x.answered[call].waiter.respondTo == call;
    } else if call < |x.accepted| {
      WaitMapHas(x.accepted, |x.answered|, |x.accepted|, call + 1);
      assert x.waiting[Tag(call + 1)].respondTo == call;
    } else {
      assert x.commands[call - |x.accepted|].respondTo == call;
    }
  }

  /** On a live ordered connection calls return in the order they were made: those answered so far
      are the first ones, they returned Ok, and every other one waits. */
  lemma LiveCallsInOrder(evs: seq<Event>, call: nat)
    requires Run(evs).Some? && Live(evs) && AlwaysInWindow(evs)
    requires var x := Run(evs).value.a; call < |x.accepted| + |x.commands|
    ensures var s := Run(evs).value;
      HandleSend(true, ChannelOf(s, call)) == if call < |s.a.answered| then Some(Ok(())) else None
  {
    CallsStayNumbered(evs);
    InFlightAccounting(evs);
    assert evs[..|evs|] == evs;
    AccountedCall(Run(evs).value, call);
  }

  /** When nothing is on its way, every accepted call has returned Ok. */
  lemma DrainedCallsOk(evs: seq<Event>, call: nat)
    requires Run(evs).Some? && Live(evs) && AlwaysInWindow(evs)
    requires var s := Run(evs).value; Drained(s.a, s.b, s.ab) && Drained(s.b, s.a, s.ba)
    requires call < |Run(evs).value.a.accepted|
    ensures HandleSend(true, ChannelOf(Run(evs).value, call)) == Some(Ok(()))
  {
    DrainedMeansDone(evs);
    LiveCallsInOrder(evs, call);
  }
}
