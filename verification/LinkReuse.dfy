/** The limit of acknowledgement soundness: what happens when sequence numbers are reused. */
module LinkReuse {
  import opened Protocol
  import opened ReliableLink
  import opened LinkAck

  ghost predicate AllProcessed(s: Sys) {
    forall i :: 0 <= i < |s.a.answered| ==>
      Data(s.a.answered[i].waiter.msg, s.a.answered[i].number) in s.b.processed
  }

  /** Every run that numbers exactly k messages answers only processed ones. */
  ghost predicate SoundFor(k: nat) {
    forall evs :: Run(evs).Some? && |Run(evs).value.a.accepted| == k ==> AllProcessed(Run(evs).value)
  }

  /** End a sends k more copies of m; nothing else happens. */
  lemma {:induction false} SendMore(evs: seq<Event>, m: Message, k: nat) returns (all: seq<Event>)
    requires Run(evs).Some? && Resting(Run(evs).value.a)
    ensures Run(all).Some? && Resting(Run(all).value.a)
    ensures var s, t := Run(evs).value, Run(all).value;
      && |t.a.accepted| == |s.a.accepted| + k
      && t.a.inbox == s.a.inbox && t.a.answered == s.a.answered && t.b == s.b && t.ba == s.ba
      && (k > 0 ==> t.a.sequenceNumber in t.a.waiting && t.a.waiting[t.a.sequenceNumber].msg == m)
    decreases k
  {
    if k == 0 {
      all := evs;
    } else {
      var g := SendMore(evs, m, k - 1);
      all := SendOne(g, m);
    }
  }

  lemma NumberStep(s: Sys, ev: Event)
    requires Possible(s, ev) && s.a.sequenceNumber == |s.a.accepted| % U64
    ensures Happen(s, ev).a.sequenceNumber == |Happen(s, ev).a.accepted| % U64
  {
    if ev == ByA(TakeCommand) {
      assert Happen(s, ev).a.sequenceNumber == NextNumber(|s.a.accepted| % U64);
    }
  }

  /** The sequence number counts the accepted messages, up to wrapping. */
  lemma {:induction false} NumberCounts(evs: seq<Event>)
    requires Run(evs).Some?
    ensures Run(evs).value.a.sequenceNumber == |Run(evs).value.a.accepted| % U64
  {
    if evs != [] {
      var g := evs[..|evs| - 1];
      NumberCounts(g);
      NumberStep(Run(g).value, evs[|g|]);
    }
  }

  /** The peer acknowledges a first message and the acknowledgement stays on its way. */
  lemma FirstAcked(m: Message) returns (evs: seq<Event>)
    ensures Run(evs).Some? && Resting(Run(evs).value.a)
    ensures var s := Run(evs).value;
      && |s.a.accepted| == 1 && s.a.inbox == [] && s.a.answered == []
      && s.ba == [Ack(1)] && s.b.processed == [Data(m, 1)]
  {
    var g := SendOne([], m);
    var g1 := ReceiveOne(g, m, 1);
    RunSnoc(g1, ByB(Write));
    evs := g1 + [ByB(Write)];
  }

  lemma WrapsToOne()
    ensures (U64 + 1) % U64 == 1
  {
  }

  lemma WaitForReuse(g: seq<Event>, m': Message) returns (all: seq<Event>)
    requires Run(g).Some? && Resting(Run(g).value.a) && |Run(g).value.a.accepted| == 1
    ensures Run(all).Some? && Resting(Run(all).value.a)
    ensures var s, t := Run(g).value, Run(all).value;
      && |t.a.accepted| == U64 + 1
      && t.a.inbox == s.a.inbox && t.a.answered == s.a.answered && t.b == s.b && t.ba == s.ba
      && 1 in t.a.waiting && t.a.waiting[1].msg == m'
  {
    all := SendMore(g, m', U64);
    NumberCounts(all);
    WrapsToOne();
  }

  lemma Misled(s: Sys, m: Message, w: AckWaiter)
    requires s.a.answered == [Reply(1, w)] && s.b.processed == [Data(m, 1)] && w.msg != m
    ensures !AllProcessed(s)
  {
    assert Data(w.msg, 1) !in s.b.processed;
    assert s.a.answered[0] == Reply(1, w);
  }

  /** After 2^64 further messages the number 1 is in use again, and the old acknowledgement
      answers the wrong call. */
  lemma ReusedNumberMisleads(m: Message, m': Message, k: nat) returns (evs: seq<Event>)
    requires m != m' && k > U64
    ensures Run(evs).Some? && |Run(evs).value.a.accepted| == k && !AllProcessed(Run(evs).value)
  {
    var g := FirstAcked(m);
    var g1 := WaitForReuse(g, m');
    var g2 := TakeOnly(g1, Ack(1));
    evs := SendMore(g2, m, k - U64 - 1);
    Misled(Run(evs).value, m, Run(g1).value.a.waiting[1]);
  }

  /** Acknowledgements are sound for all runs that number k messages if and only if k is at most
      2^64. */
  lemma SoundIff(k: nat)
    ensures SoundFor(k) <==> k <= U64
  {
    if k <= U64 {
      forall evs | Run(evs).Some? && |Run(evs).value.a.accepted| == k ensures AllProcessed(Run(evs).value) {
        RunKeepsSound(evs);
      }
    } else {
      var evs := ReusedNumberMisleads(UnicastMessage(Ping("", "")), UnicastMessage(Ping("", "ping")), k);
    }
  }
}
