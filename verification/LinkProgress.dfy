/** When a reliable sender and its connection actor wait on each other.

    The reliable sender suspends until its frame is written; the connection actor, if it has
    just read a frame, suspends until the subscription queue has room, and only the reliable
    sender empties that queue. Whether the socket takes another frame is up to the network: `room`
    says whether it does. */
module LinkProgress {
  import opened Protocol
  import opened ReliableLink

  /** Both wait: a send is pending, the queue is full and one more frame is in hand. */
  predicate Stuck(e: End) {
    && PendingFrame(e).Some?
    && e.conn.Open? && e.conn.holding.Some?
    && |e.inbox| >= CAPACITY
  }

  /** Frames the connection has read and the reliable sender has not taken. */
  function ReadNotTaken(e: End): nat {
    |e.inbox| + if e.conn.Open? && e.conn.holding.Some? then 1 else 0
  }

  /** The end gets out of the suspended send by steps of its own. */
  function Unblock(l: Local): seq<Act> {
    if l.end.conn.Closed? then [Fail]
    else if l.end.conn.holding.Some? then [Push, Write]
    else [Write]
  }

  /** Steps of the end in which its connection does not break, and writes only if there is room. */
  predicate Undisturbed(act: Act, room: bool) {
    !act.Close? && (act.Write? ==> room)
  }

  ghost predicate Resolves(l: Local, acts: seq<Act>, room: bool) {
    && (forall i :: 0 <= i < |acts| ==> Undisturbed(acts[i], room))
    && Perform(l, acts).Some? && PendingFrame(Perform(l, acts).value.end).None?
  }

  lemma UnblockWorks(l: Local, room: bool)
    requires PendingFrame(l.end).Some? && !Stuck(l.end) && (l.end.conn.Closed? || room)
    ensures Resolves(l, Unblock(l), room) && |Unblock(l)| <= 2
  {
    if l.end.conn.Open? && l.end.conn.holding.Some? {
      PerformTwo(l, Push, Write);
    } else {
      assert Unblock(l)[1..] == [];
    }
  }

  /** Once stuck, no step of either end and nothing the network does frees it. */
  lemma StuckForever(s: Sys, ev: Event)
    requires Possible(s, ev)
    ensures Stuck(s.a) ==> Stuck(Happen(s, ev).a)
    ensures Stuck(s.b) ==> Stuck(Happen(s, ev).b)
  {
  }

  /** Steps of the end itself do not free it either, however many there are. */
  lemma {:induction false} StuckPerform(l: Local, acts: seq<Act>)
    requires Stuck(l.end) && Perform(l, acts).Some?
    ensures Stuck(Perform(l, acts).value.end)
    decreases acts
  {
    if acts != [] {
      StuckPerform(Next(l, acts[0]), acts[1..]);
    }
  }

  /** Without room the send stays pending as long as the connection lives. */
  lemma {:induction false} NoRoomPerform(l: Local, acts: seq<Act>)
    requires PendingFrame(l.end).Some? && l.end.conn.Open? && Perform(l, acts).Some?
    requires forall i :: 0 <= i < |acts| ==> Undisturbed(acts[i], false)
    ensures PendingFrame(Perform(l, acts).value.end).Some?
    decreases acts
  {
    if acts != [] {
      assert Undisturbed(acts[0], false);
      NoRoomPerform(Next(l, acts[0]), acts[1..]);
    }
  }

  /** A pending send can still be resolved, without the connection breaking, if and only if the end
      is not stuck and the socket takes the frame or the connection is closed already; and then
      within two steps. In particular it is not stuck whenever at most 32 frames are read but not
      taken. */
  lemma ProgressIff(l: Local, room: bool)
    requires PendingFrame(l.end).Some?
    ensures (exists acts :: Resolves(l, acts, room)) <==> !Stuck(l.end) && (l.end.conn.Closed? || room)
    ensures ReadNotTaken(l.end) <= 32 ==> !Stuck(l.end)
  {
    if !Stuck(l.end) && (l.end.conn.Closed? || room) {
      UnblockWorks(l, room);
      assert Resolves(l, Unblock(l), room);
    } else {
      forall acts ensures !Resolves(l, acts, room) {
        if Resolves(l, acts, room) {
          if Stuck(l.end) {
            StuckPerform(l, acts);
          } else {
            NoRoomPerform(l, acts);
          }
        }
      }
    }
  }

  predicate Bounded(e: End) {
    |e.commands| <= 32 && |e.inbox| <= 32
  }

  lemma StepKeepsBounds(s: Sys, ev: Event)
    requires Possible(s, ev) && Bounded(s.a)
    ensures Bounded(Happen(s, ev).a)
  {
  }

  /** In every run the command and subscription queues hold at most 32 entries, so at most 33 frames
      are read and not taken; a pending send is stuck exactly at 33. */
  lemma {:induction false} QueuesBounded(evs: seq<Event>)
    requires Run(evs).Some?
    ensures var x := Run(evs).value.a;
      && Bounded(x) && ReadNotTaken(x) <= 33
      && (PendingFrame(x).Some? ==> (Stuck(x) <==> ReadNotTaken(x) == 33))
  {
    if evs != [] {
      var g := evs[..|evs| - 1];
      QueuesBounded(g);
      StepKeepsBounds(Run(g).value, evs[|g|]);
    }
  }

  // ---------------------------------------------------------------- the wait does occur

  /** One end writes k messages that the other has not read. */
  lemma {:induction false} SendMany(m: Message, k: nat) returns (evs: seq<Event>)
    ensures Run(evs).Some? && Ordered(evs)
    ensures var s := Run(evs).value; Resting(s.a) && |s.ab| == k && s.b == NEW_END
  {
    if k == 0 {
      evs := [];
    } else {
      var g := SendMany(m, k - 1);
      evs := SendOne(g, m);
    }
  }

  /** Up to 32 calls can be queued. */
  lemma {:induction false} QueueMany(m: Message, k: nat) returns (evs: seq<Event>)
    requires k <= 32
    ensures Run(evs).Some? && Live(evs) && |Run(evs).value.a.commands| == k
  {
    evs := [];
    if k > 0 {
      var g := QueueMany(m, k - 1);
      RunSnoc(g, ByA(Submit(m)));
      evs := g + [ByA(Submit(m))];
    }
  }

  lemma {:induction false} ReadMany(evs: seq<Event>, k: nat) returns (all: seq<Event>)
    requires Run(evs).Some? && Ordered(evs) && k <= CAPACITY
    requires var s := Run(evs).value;
      s.b.phase.Sending? && s.b.conn == Open(None) && s.b.inbox == [] && |s.ab| > CAPACITY
    ensures Run(all).Some? && Ordered(all)
    ensures var s := Run(all).value;
      s.b.phase.Sending? && s.b.conn == Open(None) && |s.b.inbox| == k && |s.ab| + k == |Run(evs).value.ab|
      && s.a == Run(evs).value.a
    decreases k
  {
    if k == 0 {
      all := evs;
    } else {
      var g := ReadMany(evs, k - 1);
      RunSnoc(g, ByB(Read));
      RunSnoc(g + [ByB(Read)], ByB(Push));
      all := g + [ByB(Read)] + [ByB(Push)];
    }
  }

  lemma ClosedStaysClosed(s: Sys, ev: Event)
    requires Possible(s, ev) && (ev.ByA? || ev.ByB?)
    requires Happen(s, ev).a.conn.Open? && Happen(s, ev).b.conn.Open?
    ensures s.a.conn.Open? && s.b.conn.Open? && !ev.act.Close?
  {
  }

  lemma {:induction false} OpenEndsNeverClosed(evs: seq<Event>)
    requires Run(evs).Some? && Ordered(evs)
    requires Run(evs).value.a.conn.Open? && Run(evs).value.b.conn.Open?
    ensures Live(evs)
  {
    if evs != [] {
      var g := evs[..|evs| - 1];
      ClosedStaysClosed(Run(g).value, evs[|g|]);
      OpenEndsNeverClosed(g);
      assert evs == g + [evs[|g|]];
    }
  }

  /** An ordered run in which both connections stay open and one end gets stuck: the peer writes
      33 messages while this end's own send is still queued behind the reads. */
  lemma StuckReachable(m: Message) returns (evs: seq<Event>)
    ensures Run(evs).Some? && Live(evs)
    ensures Stuck(Run(evs).value.b) && ReadNotTaken(Run(evs).value.b) == 33
  {
    var g := SendMany(m, CAPACITY + 1);
    RunSnoc(g, ByB(Submit(m)));
    var g1 := g + [ByB(Submit(m))];
    RunSnoc(g1, ByB(TakeCommand));
    var g2 := g1 + [ByB(TakeCommand)];
    var g3 := ReadMany(g2, CAPACITY);
    RunSnoc(g3, ByB(Read));
    evs := g3 + [ByB(Read)];
    OpenEndsNeverClosed(evs);
  }
}
