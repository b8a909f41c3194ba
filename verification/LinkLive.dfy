/** Accounting on a live, ordered connection: where every unacknowledged number is.

    For the direction from x to y, three positions in the sequence of messages x accepted split
    it: the first `lo` are acknowledged, those up to `mid` have been acknowledged by y but the
    acknowledgement is still on its way back, the rest are on their way out. */
module LinkLive {
  import opened Protocol
  import opened ReliableLink
  import opened LinkOrder

  /** The number the i-th accepted message gets, counting from one. */
  function Tag(i: nat): nat {
    i % U64
  }

  function FramesFrom(acc: seq<AckWaiter>, lo: nat): seq<Frame>
    requires lo <= |acc|
  {
    seq(|acc| - lo, i requires 0 <= i < |acc| - lo => Data(acc[lo + i].msg, Tag(lo + i + 1)))
  }

  function Tags(lo: nat, hi: nat): seq<nat>
    requires lo <= hi
  {
    seq<nat>(hi - lo, i requires 0 <= i < hi - lo => Tag(lo + i + 1))
  }

  function Msgs(acc: seq<AckWaiter>): seq<Message> {
    seq(|acc|, i requires 0 <= i < |acc| => acc[i].msg)
  }

  function DeliverPart(y: End): seq<Message> {
    if y.phase.Delivering? then [y.phase.msg] else []
  }

  /** The pending table for the messages after the first `lo` and up to the first `hi`. */
  function WaitMap(acc: seq<AckWaiter>, lo: nat, hi: nat): map<nat, AckWaiter>
    requires hi <= |acc|
  {
    if hi <= lo then map[] else WaitMap(acc, lo, hi - 1)[Tag(hi) := acc[hi - 1]]
  }

  lemma {:induction false} WaitMapAppend(acc: seq<AckWaiter>, w: AckWaiter, lo: nat, hi: nat)
    requires hi <= |acc|
    ensures WaitMap(acc + [w], lo, hi) == WaitMap(acc, lo, hi)
  {
    if lo < hi {
      WaitMapAppend(acc, w, lo, hi - 1);
    }
  }

  lemma {:induction false} WaitMapKeys(acc: seq<AckWaiter>, lo: nat, hi: nat, k: nat)
    requires hi <= |acc|
    ensures k in WaitMap(acc, lo, hi) <==> exists i :: lo < i <= hi && Tag(i) == k
  {
    if lo < hi {
      WaitMapKeys(acc, lo, hi - 1, k);
    }
  }

  lemma TagsDiffer(i: nat, j: nat)
    requires i < j < i + U64
    ensures Tag(i) != Tag(j)
  {
  }

  lemma {:induction false} WaitMapDrop(acc: seq<AckWaiter>, lo: nat, hi: nat)
    requires lo < hi <= |acc| && hi - lo <= U64
    ensures Tag(lo + 1) in WaitMap(acc, lo, hi) && WaitMap(acc, lo, hi)[Tag(lo + 1)] == acc[lo]
    ensures WaitMap(acc, lo, hi) - {Tag(lo + 1)} == WaitMap(acc, lo + 1, hi)
  {
    if lo + 1 < hi {
      WaitMapDrop(acc, lo, hi - 1);
      TagsDiffer(lo + 1, hi);
      var m := WaitMap(acc, lo, hi - 1);
      assert m[Tag(hi) := acc[hi - 1]] - {Tag(lo + 1)} == (m - {Tag(lo + 1)})[Tag(hi) := acc[hi - 1]];
    } else {
      assert WaitMap(acc, lo, hi - 1) == map[];
    }
  }

  lemma FramesSnoc(acc: seq<AckWaiter>, w: AckWaiter, lo: nat)
    requires lo <= |acc|
    ensures FramesFrom(acc + [w], lo) == FramesFrom(acc, lo) + [Data(w.msg, Tag(|acc| + 1))]
  {
  }

  lemma FramesCons(acc: seq<AckWaiter>, lo: nat)
    requires lo < |acc|
    ensures FramesFrom(acc, lo) == [Data(acc[lo].msg, Tag(lo + 1))] + FramesFrom(acc, lo + 1)
  {
  }

  lemma TagsCons(lo: nat, hi: nat)
    requires lo < hi
    ensures Tags(lo, hi) == [Tag(lo + 1)] + Tags(lo + 1, hi)
  {
  }

  lemma TagsSnoc(lo: nat, hi: nat)
    requires lo <= hi
    ensures Tags(lo, hi + 1) == Tags(lo, hi) + [Tag(hi + 1)]
  {
  }

  lemma MsgsSnoc(acc: seq<AckWaiter>, n: nat)
    requires n < |acc|
    ensures Msgs(acc[..n + 1]) == Msgs(acc[..n]) + [acc[n].msg]
  {
  }

  lemma SameTail<T>(x: T, xs: seq<T>, y: T, ys: seq<T>)
    requires [x] + xs == [y] + ys
    ensures x == y && xs == ys
  {
    assert ([x] + xs)[0] == x && ([x] + xs)[1..] == xs;
    assert ([y] + ys)[0] == y && ([y] + ys)[1..] == ys;
  }

  /** The state of x and y for the messages x sends, given everything on its way out and back. */
  ghost predicate Account(x: End, y: End, out: seq<Frame>, back: seq<Frame>) {
    var lo, hi := |x.answered|, |x.accepted|;
    && lo + |Datas(out)| <= hi
    && var mid := hi - |Datas(out)|;
    && Datas(out) == FramesFrom(x.accepted, mid)
    && Acks(back) == Tags(lo, mid)
    && x.sequenceNumber == Tag(hi)
    && x.waiting == WaitMap(x.accepted, lo, hi)
    && (forall i :: 0 <= i < lo ==> x.answered[i] == Reply(Tag(i + 1), x.accepted[i]))
    && (y.clientOpen ==> y.client + DeliverPart(y) == Msgs(x.accepted[..mid]))
  }

  /** The step changes none of the fields the account of what x sends speaks about. */
  predicate SenderUntouched(x: End, x': End) {
    && x'.accepted == x.accepted && x'.answered == x.answered
    && x'.sequenceNumber == x.sequenceNumber && x'.waiting == x.waiting
  }

  lemma AccountExtended(x: End, x': End, w: AckWaiter, y: End, out: seq<Frame>, back: seq<Frame>)
    requires Account(x, y, out, back)
    requires x'.accepted == x.accepted + [w] && x'.answered == x.answered
    requires x'.sequenceNumber == Tag(|x.accepted| + 1)
    requires x'.waiting == x.waiting[Tag(|x.accepted| + 1) := w]
    ensures Account(x', y, out + [Data(w.msg, x'.sequenceNumber)], back)
  {
    var hi := |x.accepted|;
    var mid := hi - |Datas(out)|;
    FilterSnoc(out, Data(w.msg, Tag(hi + 1)));
    FramesSnoc(x.accepted, w, mid);
    WaitMapAppend(x.accepted, w, |x.answered|, hi);
    assert x'.accepted[..mid] == x.accepted[..mid];
  }

  lemma AccountTakeCommand(l: Local, y: End, out: seq<Frame>, back: seq<Frame>)
    requires Enabled(l, TakeCommand) && Account(l.end, y, out, back)
    ensures Account(Next(l, TakeCommand).end, y, out + Added(l.end, TakeCommand), back)
  {
    var x, x' := l.end, Next(l, TakeCommand).end;
    assert x'.sequenceNumber == Tag(|x.accepted| + 1);
    AccountExtended(x, x', x.commands[0], y, out, back);
  }

  lemma AccountTakeAck(x: End, y: End, out: seq<Frame>, back: seq<Frame>)
    requires x.phase.Idle? && x.inbox != [] && x.inbox[0].Ack?
    requires Account(x, y, out, [x.inbox[0]] + back)
    requires |x.accepted| - |x.answered| <= U64
    ensures x.inbox[0].number in x.waiting
    ensures Account(TakeFrameOf(x), y, out, back)
  {
    var lo, hi := |x.answered|, |x.accepted|;
    var mid := hi - |Datas(out)|;
    var n := x.inbox[0].number;
    FilterCons(x.inbox[0], back);
    TagsCons(lo, mid);
    SameTail(n, Acks(back), Tag(lo + 1), Tags(lo + 1, mid));
    WaitMapDrop(x.accepted, lo, hi);
  }

  lemma AccountUntouched(x: End, x': End, y: End, out: seq<Frame>, back: seq<Frame>)
    requires Account(x, y, out, back) && SenderUntouched(x, x')
    ensures Account(x', y, out, back)
  {
  }

  lemma AccountAcking(x: End, y: End, f: Frame, out: seq<Frame>, back': seq<Frame>, n: nat)
    requires Account(x, y, out, [f] + back') && f.Data?
    ensures Account(x, y, out + [Ack(n)], back')
  {
    FilterSnoc(out, Ack(n));
    FilterCons(f, back');
  }

  /** Steps of the sending end keep the account. */
  lemma SenderStep(l: Local, act: Act, y: End, out: seq<Frame>, back': seq<Frame>)
    requires Enabled(l, act) && !act.Close? && l.end.conn.Open?
    requires Account(l.end, y, out, Removed(l.end, act) + back')
    requires |l.end.accepted| - |l.end.answered| <= U64
    ensures Account(Next(l, act).end, y, out + Added(l.end, act), back')
  {
    var x, x' := l.end, Next(l, act).end;
    assert out + [] == out && [] + back' == back';
    if act.TakeCommand? {
      AccountTakeCommand(l, y, out, back');
    } else if act.TakeFrame? && x.inbox[0].Ack? {
      AccountTakeAck(x, y, out, back');
    } else if act.Write? && x.phase.Acking? {
      AccountAcking(x, y, Data(x.phase.msg, x.phase.number), out, back', x.phase.number);
      AccountUntouched(x, x', y, out + [Ack(x.phase.number)], back');
    } else {
      AccountUntouched(x, x', y, out, back');
    }
  }

  lemma AccountAcked(x: End, y: End, y': End, out: seq<Frame>, back: seq<Frame>)
    requires y.phase.Acking? && y' == AfterWrite(y)
    requires Account(x, y, [Data(y.phase.msg, y.phase.number)] + out, back)
    ensures Account(x, y', out, back + [Ack(y.phase.number)])
  {
    var lo, hi := |x.answered|, |x.accepted|;
    var f := Data(y.phase.msg, y.phase.number);
    FilterCons(f, out);
    FilterSnoc(back, Ack(y.phase.number));
    var mid := hi - |Datas([f] + out)|;
    FramesCons(x.accepted, mid);
    SameTail(f, Datas(out), Data(x.accepted[mid].msg, Tag(mid + 1)), FramesFrom(x.accepted, mid + 1));
    TagsSnoc(lo, mid);
    MsgsSnoc(x.accepted, mid);
  }

  /** Steps of the receiving end keep the account. */
  lemma ReceiverStep(l: Local, act: Act, x: End, out': seq<Frame>, back: seq<Frame>)
    requires Enabled(l, act) && !act.Close? && l.end.conn.Open?
    requires Account(x, l.end, Removed(l.end, act) + out', back)
    ensures Account(x, Next(l, act).end, out', back + Added(l.end, act))
  {
    var y, y' := l.end, Next(l, act).end;
    assert back + [] == back && [] + out' == out';
    if act.Write? && y.phase.Acking? {
      AccountAcked(x, y, y', out', back);
    } else {
      assert y'.clientOpen ==> y.clientOpen && y'.client + DeliverPart(y') == y.client + DeliverPart(y);
      if act.TakeFrame? && y.inbox[0].Ack? {
        FilterCons(y.inbox[0], out');
      } else if act.TakeCommand? {
        FilterSnoc(back, Added(y, act)[0]);
      }
    }
  }

  /** The account of what end a sends. */
  ghost predicate Accounted(s: Sys) {
    && s.a.conn.Open? && s.b.conn.Open?
    && Account(s.a, s.b, Transit(s.a, s.b, s.ab), Transit(s.b, s.a, s.ba))
  }

  /** End a has at most 2^64 messages waiting, so that its numbers in use are distinct. */
  predicate InWindow(s: Sys) {
    |s.a.accepted| - |s.a.answered| <= U64
  }

  lemma SenderKeepsAccount(l: Local, act: Act, y: End)
    requires Enabled(l, act) && !act.Close? && l.end.conn.Open?
    requires |l.end.accepted| - |l.end.answered| <= U64
    requires Account(l.end, y, Transit(l.end, y, l.out), Transit(y, l.end, l.inc))
    ensures var l' := Next(l, act);
      l'.end.conn.Open? && Account(l'.end, y, Transit(l'.end, y, l'.out), Transit(y, l'.end, l'.inc))
  {
    TransitOut(l, act, y);
    TransitIn(l, act, y);
    SenderStep(l, act, y, Transit(l.end, y, l.out), Transit(y, Next(l, act).end, Next(l, act).inc));
  }

  lemma ReceiverKeepsAccount(l: Local, act: Act, x: End)
    requires Enabled(l, act) && !act.Close? && l.end.conn.Open?
    requires Account(x, l.end, Transit(x, l.end, l.inc), Transit(l.end, x, l.out))
    ensures var l' := Next(l, act);
      l'.end.conn.Open? && Account(x, l'.end, Transit(x, l'.end, l'.inc), Transit(l'.end, x, l'.out))
  {
    TransitOut(l, act, x);
    TransitIn(l, act, x);
    ReceiverStep(l, act, x, Transit(x, Next(l, act).end, Next(l, act).inc), Transit(l.end, x, l.out));
  }

  lemma StepKeepsAccount(s: Sys, ev: Event)
    requires Possible(s, ev) && (ev.ByA? || ev.ByB?) && !ev.act.Close?
    requires Accounted(s) && InWindow(s)
    ensures Accounted(Happen(s, ev))
  {
    if ev.ByA? {
      SenderKeepsAccount(s.AtA(), ev.act, s.b);
    } else {
      ReceiverKeepsAccount(s.AtB(), ev.act, s.a);
    }
  }

  ghost predicate AlwaysInWindow(evs: seq<Event>) {
    forall n :: 0 <= n <= |evs| && Run(evs[..n]).Some? ==> InWindow(Run(evs[..n]).value)
  }

  /** In every live, ordered run the numbers waiting for an acknowledgement are exactly, and in
      order, the acknowledgements on their way back followed by the messages on their way out;
      nothing else is on its way, and every message before that was delivered in order. */
  lemma {:induction false} InFlightAccounting(evs: seq<Event>)
    requires Run(evs).Some? && Live(evs) && AlwaysInWindow(evs)
    ensures Accounted(Run(evs).value)
  {
    if evs != [] {
      var g := evs[..|evs| - 1];
      assert forall n :: 0 <= n <= |g| ==> g[..n] == evs[..n];
      InFlightAccounting(g);
      assert InWindow(Run(evs[..|g|]).value);
      StepKeepsAccount(Run(g).value, evs[|g|]);
    }
  }

  /** If both ends keep to the window the account holds both ways. */
  lemma AccountedBothWays(evs: seq<Event>)
    requires Run(evs).Some? && Live(evs) && AlwaysInWindow(evs) && AlwaysInWindow(MirrorEvents(evs))
    ensures Accounted(Run(evs).value) && Accounted(Mirror(Run(evs).value))
  {
    MirrorRun(evs);
    InFlightAccounting(evs);
    InFlightAccounting(MirrorEvents(evs));
  }

  lemma {:induction false} AcceptedBefore(evs: seq<Event>, n: nat)
    requires Run(evs).Some? && n <= |evs|
    ensures Run(evs[..n]).Some? && |Run(evs[..n]).value.a.accepted| <= |Run(evs).value.a.accepted|
    decreases |evs|
  {
    if n == |evs| {
      assert evs[..n] == evs;
    } else {
      var g := evs[..|evs| - 1];
      AcceptedGrows(Run(g).value, evs[|g|]);
      AcceptedBefore(g, n);
      assert g[..n] == evs[..n];
    }
  }

  /** While at most 2^64 messages have been numbered, the window is never exceeded. */
  lemma BelowLimitInWindow(evs: seq<Event>)
    requires Run(evs).Some? && |Run(evs).value.a.accepted| <= U64
    ensures AlwaysInWindow(evs)
  {
    forall n | 0 <= n <= |evs| && Run(evs[..n]).Some? ensures InWindow(Run(evs[..n]).value) {
      AcceptedBefore(evs, n);
    }
  }

  function Numbers(fs: seq<Frame>): seq<nat> {
    seq<nat>(|fs|, i requires 0 <= i < |fs| => fs[i].number)
  }

  /** The numbers of x anywhere between x and y: acknowledgements coming back, oldest first,
      then messages going out. */
  function Places(x: End, y: End, out: seq<Frame>, back: seq<Frame>): seq<nat> {
    Acks(Transit(y, x, back)) + Numbers(Datas(Transit(x, y, out)))
  }

  lemma PlacesAreTags(x: End, y: End, out: seq<Frame>, back: seq<Frame>)
    requires Account(x, y, out, back)
    ensures Acks(back) + Numbers(Datas(out)) == Tags(|x.answered|, |x.accepted|)
  {
    var lo, hi := |x.answered|, |x.accepted|;
    var mid := hi - |Datas(out)|;
    assert Numbers(FramesFrom(x.accepted, mid)) == Tags(mid, hi);
    assert Tags(lo, mid) + Tags(mid, hi) == Tags(lo, hi);
  }

  lemma TagsDistinct(lo: nat, hi: nat)
    requires lo <= hi <= lo + U64
    ensures forall i, j :: 0 <= i < j < |Tags(lo, hi)| ==> Tags(lo, hi)[i] != Tags(lo, hi)[j]
  {
    forall i, j | 0 <= i < j < |Tags(lo, hi)| ensures Tags(lo, hi)[i] != Tags(lo, hi)[j] {
      TagsDiffer(lo + i + 1, lo + j + 1);
    }
  }

  lemma InTags(acc: seq<AckWaiter>, lo: nat, k: nat)
    requires lo <= |acc|
    ensures k in WaitMap(acc, lo, |acc|) <==> k in Tags(lo, |acc|)
  {
    WaitMapKeys(acc, lo, |acc|, k);
    var ts := Tags(lo, |acc|);
    if i :| lo < i <= |acc| && Tag(i) == k {
      assert ts[i - lo - 1] == k;
    }
    if k in ts {
      var i :| 0 <= i < |ts| && ts[i] == k;
      assert Tag(lo + i + 1) == k;
    }
  }

  /** A number is waiting exactly when it is in one of those places, and it is in only one. */
  lemma EachNumberInOnePlace(evs: seq<Event>)
    requires Run(evs).Some? && Live(evs) && AlwaysInWindow(evs)
    ensures var s := Run(evs).value;
      var ps := Places(s.a, s.b, s.ab, s.ba);
      && (forall k :: k in s.a.waiting <==> k in ps)
      && (forall i, j :: 0 <= i < j < |ps| ==> ps[i] != ps[j])
  {
    InFlightAccounting(evs);
    assert evs[..|evs|] == evs;
    var s := Run(evs).value;
    PlacesAreTags(s.a, s.b, Transit(s.a, s.b, s.ab), Transit(s.b, s.a, s.ba));
    TagsDistinct(|s.a.answered|, |s.a.accepted|);
    forall k ensures k in s.a.waiting <==> k in Tags(|s.a.answered|, |s.a.accepted|) {
      InTags(s.a.accepted, |s.a.answered|, k);
    }
  }

  predicate Drained(x: End, y: End, stream: seq<Frame>) {
    Transit(x, y, stream) == []
  }

  /** When nothing is on its way, nothing waits: the table is empty, every accepted message was
      answered, and an open client received exactly the accepted messages, in order. */
  lemma DrainedMeansDone(evs: seq<Event>)
    requires Run(evs).Some? && Live(evs) && AlwaysInWindow(evs)
    requires var s := Run(evs).value; Drained(s.a, s.b, s.ab) && Drained(s.b, s.a, s.ba)
    ensures var s := Run(evs).value;
      && s.a.waiting == map[] && |s.a.answered| == |s.a.accepted|
      && (forall i :: 0 <= i < |s.a.accepted| ==> s.a.answered[i].waiter == s.a.accepted[i])
      && (s.b.clientOpen ==> s.b.client + DeliverPart(s.b) == Msgs(s.a.accepted))
      && (s.b.clientOpen && s.b.phase.Idle? ==> s.b.client == Msgs(s.a.accepted))
  {
    InFlightAccounting(evs);
    var s := Run(evs).value;
    assert s.a.accepted[..|s.a.accepted|] == s.a.accepted;
  }

  lemma WindowKeys(acc: seq<AckWaiter>, lo: nat, k: nat)
    requires |acc| < U64
    ensures Tag(|acc|) == |acc|
    ensures k in WaitMap(acc, lo, |acc|) <==> lo < k <= |acc|
  {
    WaitMapKeys(acc, lo, |acc|, k);
    if lo < k <= |acc| {
      assert Tag(k) == k;
    }
  }

  /** The window: below the u64 limit the keys of the pending table are exactly the interval from
      one past the last acknowledged number to the sequence number, which counts the sends. */
  lemma PendingWindow(evs: seq<Event>, k: nat)
    requires Run(evs).Some? && Live(evs) && |Run(evs).value.a.accepted| < U64
    ensures var x := Run(evs).value.a;
      && x.sequenceNumber == |x.accepted|
      && (k in x.waiting <==> |x.answered| < k <= x.sequenceNumber)
  {
    BelowLimitInWindow(evs);
    InFlightAccounting(evs);
    var x := Run(evs).value.a;
    WindowKeys(x.accepted, |x.answered|, k);
  }

  lemma FreshTag(lo: nat, hi: nat)
    requires lo <= hi < lo + U64
    ensures forall i: nat :: lo < i <= hi ==> Tag(i) != Tag(hi + 1)
  {
  }

  lemma NextTagWaiting(acc: seq<AckWaiter>, lo: nat)
    requires lo <= |acc| <= lo + U64
    ensures NextNumber(Tag(|acc|)) in WaitMap(acc, lo, |acc|) <==> |acc| - lo == U64
  {
    var hi := |acc|;
    assert NextNumber(Tag(hi)) == Tag(hi + 1);
    WaitMapKeys(acc, lo, hi, Tag(hi + 1));
    if hi - lo == U64 {
      assert lo < lo + 1 <= hi && Tag(lo + 1) == Tag(hi + 1);
    } else {
      FreshTag(lo, hi);
    }
  }

  /** Taking the next command overwrites a waiter if and only if 2^64 are already waiting. */
  lemma OverwriteIff(evs: seq<Event>)
    requires Run(evs).Some? && Live(evs) && AlwaysInWindow(evs)
    ensures var x := Run(evs).value.a;
      NextNumber(x.sequenceNumber) in x.waiting <==> |x.accepted| - |x.answered| == U64
  {
    InFlightAccounting(evs);
    assert evs[..|evs|] == evs;
    var x := Run(evs).value.a;
    NextTagWaiting(x.accepted, |x.answered|);
  }
}
