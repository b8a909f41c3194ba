/** The converse of the composition: whatever the atomic echo actor can do happens over real links
    too. */
module Realisation {
  import opened Protocol
  import opened EchoBroadcast
  import opened EchoHistory
  import opened Composition
  import Link = ReliableLink
  import LinkAck

  // ---------------------------------------------------------------- one call on a quiet link

  /** Several events on a link in a row, if each is possible where it happens. */
  function Follow(s: Link.Sys, evs: seq<Link.Event>): Option<Link.Sys>
    decreases evs
  {
    if evs == [] then Some(s)
    else if Link.Possible(s, evs[0]) then Follow(Link.Happen(s, evs[0]), evs[1..])
    else None
  }

  lemma {:induction false} FollowAppend(s: Link.Sys, xs: seq<Link.Event>, ys: seq<Link.Event>)
    requires Follow(s, xs).Some?
    ensures Follow(s, xs + ys) == Follow(Follow(s, xs).value, ys)
    decreases xs
  {
    if xs == [] {
      assert xs + ys == ys;
    } else {
      assert (xs + ys)[1..] == xs[1..] + ys;
      FollowAppend(Link.Happen(s, xs[0]), xs[1..], ys);
    }
  }

  lemma FollowTwo(s: Link.Sys, x: Link.Event, y: Link.Event)
    requires Link.Possible(s, x) && Link.Possible(Link.Happen(s, x), y)
    ensures Follow(s, [x, y]) == Some(Link.Happen(Link.Happen(s, x), y))
  {
    var t := Link.Happen(s, x);
    assert [x, y][1..] == [y] && [y][1..] == [];
    assert Follow(t, [y]) == Some(Link.Happen(t, y));
  }

  /** Nothing is queued, on its way or half done. */
  predicate Calm(s: Link.Sys) {
    && Link.Resting(s.a) && Link.Resting(s.b)
    && s.a.inbox == [] && s.b.inbox == [] && s.ab == [] && s.ba == []
  }

  /** End a has one queued call and is otherwise calm. */
  predicate OneQueued(s: Link.Sys, w: Link.AckWaiter) {
    && s.a.phase.Idle? && s.a.conn == Link.Open(None) && s.a.commands == [w] && s.a.inbox == []
    && Link.Resting(s.b) && s.b.inbox == [] && s.ab == [] && s.ba == []
  }

  /** The message is numbered and written. */
  lemma Sending(s: Link.Sys, w: Link.AckWaiter) returns (t: Link.Sys, n: nat)
    requires OneQueued(s, w)
    ensures Follow(s, [Link.ByA(Link.TakeCommand), Link.ByA(Link.Write)]) == Some(t)
    ensures Link.Resting(t.a) && t.a.inbox == [] && n in t.a.waiting && t.a.waiting[n] == w
    ensures t.ab == [Link.Data(w.msg, n)] && t.ba == [] && t.b == s.b
  {
    n := Link.NextNumber(s.a.sequenceNumber);
    var s1 := Link.Happen(s, Link.ByA(Link.TakeCommand));
    t := Link.Happen(s1, Link.ByA(Link.Write));
    FollowTwo(s, Link.ByA(Link.TakeCommand), Link.ByA(Link.Write));
  }

  /** The frame at the front of the stream reaches the actor at end b. */
  lemma Arriving(s: Link.Sys, f: Link.Frame) returns (t: Link.Sys)
    requires Link.Resting(s.b) && s.b.inbox == [] && s.ab == [f]
    ensures Follow(s, [Link.ByB(Link.Read), Link.ByB(Link.Push)]) == Some(t)
    ensures t == s.(b := s.b.(inbox := [f]), ab := [])
  {
    var s1 := Link.Happen(s, Link.ByB(Link.Read));
    t := Link.Happen(s1, Link.ByB(Link.Push));
    FollowTwo(s, Link.ByB(Link.Read), Link.ByB(Link.Push));
    assert s.b.inbox + [f] == [f];
  }

  /** End b acknowledges and delivers it. */
  lemma Acknowledging(s: Link.Sys, m: Message, n: nat) returns (t: Link.Sys)
    requires Link.Resting(s.b) && s.b.inbox == [Link.Data(m, n)] && s.ba == [] && s.ab == []
    ensures Follow(s, [Link.ByB(Link.TakeFrame), Link.ByB(Link.Write)] + [Link.ByB(Link.Deliver)]) == Some(t)
    ensures Link.Resting(t.b) && t.b.inbox == [] && t.ba == [Link.Ack(n)] && t.ab == [] && t.a == s.a
  {
    var s1 := Link.Happen(s, Link.ByB(Link.TakeFrame));
    assert s1.b.inbox == [];
    var s2 := Link.Happen(s1, Link.ByB(Link.Write));
    FollowTwo(s, Link.ByB(Link.TakeFrame), Link.ByB(Link.Write));
    t := Link.Happen(s2, Link.ByB(Link.Deliver));
    FollowAppend(s, [Link.ByB(Link.TakeFrame), Link.ByB(Link.Write)], [Link.ByB(Link.Deliver)]);
    assert [Link.ByB(Link.Deliver)][1..] == [];
  }

  /** The acknowledgement answers the caller. */
  lemma Answering(s: Link.Sys, n: nat, w: Link.AckWaiter) returns (t: Link.Sys)
    requires Link.Resting(s.a) && s.a.inbox == [] && s.ba == [Link.Ack(n)] && s.ab == []
    requires Link.Resting(s.b) && s.b.inbox == [] && n in s.a.waiting && s.a.waiting[n] == w
    ensures Follow(s, [Link.ByA(Link.Read), Link.ByA(Link.Push)] + [Link.ByA(Link.TakeFrame)]) == Some(t)
    ensures Calm(t) && LinkAck.AnsweredCall(t.a, w.respondTo)
  {
    var s1 := Link.Happen(s, Link.ByA(Link.Read));
    var s2 := Link.Happen(s1, Link.ByA(Link.Push));
    assert s2.a.inbox == [Link.Ack(n)];
    FollowTwo(s, Link.ByA(Link.Read), Link.ByA(Link.Push));
    t := Link.Happen(s2, Link.ByA(Link.TakeFrame));
    FollowAppend(s, [Link.ByA(Link.Read), Link.ByA(Link.Push)], [Link.ByA(Link.TakeFrame)]);
    assert [Link.ByA(Link.TakeFrame)][1..] == [];
    assert t.a.answered[|s.a.answered|].waiter == w;
  }

  /** A queued call on a calm link can be carried through to its answer. */
  lemma Exchange(s: Link.Sys, w: Link.AckWaiter) returns (evs: seq<Link.Event>, t: Link.Sys)
    requires OneQueued(s, w)
    ensures Follow(s, evs) == Some(t) && Calm(t) && LinkAck.AnsweredCall(t.a, w.respondTo)
  {
    var s1, n := Sending(s, w);
    evs := [Link.ByA(Link.TakeCommand), Link.ByA(Link.Write)];
    var s2 := Arriving(s1, Link.Data(w.msg, n));
    FollowAppend(s, evs, [Link.ByB(Link.Read), Link.ByB(Link.Push)]);
    evs := evs + [Link.ByB(Link.Read), Link.ByB(Link.Push)];
    var s3 := Acknowledging(s2, w.msg, n);
    FollowAppend(s, evs, [Link.ByB(Link.TakeFrame), Link.ByB(Link.Write)] + [Link.ByB(Link.Deliver)]);
    evs := evs + ([Link.ByB(Link.TakeFrame), Link.ByB(Link.Write)] + [Link.ByB(Link.Deliver)]);
    t := Answering(s3, n, w);
    FollowAppend(s, evs, [Link.ByA(Link.Read), Link.ByA(Link.Push)] + [Link.ByA(Link.TakeFrame)]);
    evs := evs + ([Link.ByA(Link.Read), Link.ByA(Link.Push)] + [Link.ByA(Link.TakeFrame)]);
  }

  // ---------------------------------------------------------------- runs of the node

  lemma PerformSnoc(handles: set<Handle>, acts: seq<Action>, act: Action)
    requires Perform(handles, acts).Some? && Enabled(Perform(handles, acts).value, act)
    ensures Perform(handles, acts + [act]) == Some(Next(Perform(handles, acts).value, act))
  {
    assert (acts + [act])[..|acts|] == acts;
  }

  /** Events on one link are actions of the node. */
  lemma {:induction false} OnOneLink(handles: set<Handle>, acts: seq<Action>, h: Handle, evs: seq<Link.Event>)
    returns (all: seq<Action>)
    requires Perform(handles, acts).Some? && h in Perform(handles, acts).value.links
    requires Follow(Perform(handles, acts).value.links[h], evs).Some?
    ensures var n := Perform(handles, acts).value;
      Perform(handles, all) == Some(n.(links := n.links[h := Follow(n.links[h], evs).value]))
    decreases evs
  {
    var n := Perform(handles, acts).value;
    if evs == [] {
      all := acts;
      assert n.links[h := n.links[h]] == n.links;
    } else {
      PerformSnoc(handles, acts, OnLink(h, evs[0]));
      var n1 := Next(n, OnLink(h, evs[0]));
      all := OnOneLink(handles, acts + [OnLink(h, evs[0])], h, evs[1..]);
      var t := Follow(n1.links[h], evs[1..]).value;
      assert n1.links[h := t] == n.links[h := t];
    }
  }

  ghost predicate AllCalm(n: Node) {
    forall h :: h in n.links ==> Calm(n.links[h])
  }

  /** A node between two members of a loop, all links calm. */
  ghost predicate Ready(n: Node, l: Loop) {
    && n.loop == Some(l) && l.call.None? && AllCalm(n)
    && l.data.MessageId().Some? && l.done <= |l.order|
    && (forall j :: 0 <= j < |l.order| ==> l.order[j] in l.members && l.members[l.order[j]] in n.links)
  }

  lemma IssueQueues(n: Node, l: Loop)
    requires Ready(n, l) && l.done < |l.order|
    ensures Enabled(n, Issue)
    ensures var h := l.members[l.order[l.done]];
      var n' := Next(n, Issue);
      var call := |n.links[h].a.accepted|;
      && n' == n.(loop := Some(l.(call := Some(call))), links := n'.links)
      && n'.links == n.links[h := n'.links[h]]
      && OneQueued(n'.links[h], Link.AckWaiter(l.data, call))
  {
    assert CurrentHandle(l) == Some(l.members[l.order[l.done]]);
  }

  lemma AdvanceReady(n: Node, l: Loop, call: nat)
    requires Ready(n.(loop := Some(l)), l) && n.loop == Some(l.(call := Some(call))) && l.done < |l.order|
    requires LinkAck.AnsweredCall(n.links[l.members[l.order[l.done]]].a, call)
    ensures Enabled(n, Advance) && Ready(Next(n, Advance), l.(done := l.done + 1))
    ensures Next(n, Advance).history == n.history && Next(n, Advance).links == n.links
  {
    assert CurrentHandle(n.loop.value) == Some(l.members[l.order[l.done]]);
  }

  lemma CalmAgain(n: Node, n': Node, h: Handle, t: Link.Sys)
    requires AllCalm(n) && h in n.links && Calm(t) && n'.links == n.links[h := t]
    ensures AllCalm(n') && n'.links.Keys == n.links.Keys
  {
  }

  /** One member of the loop: the call is issued, carried through and answered. */
  lemma OneMember(handles: set<Handle>, acts: seq<Action>, l: Loop) returns (all: seq<Action>)
    requires Perform(handles, acts).Some? && Ready(Perform(handles, acts).value, l) && l.done < |l.order|
    ensures Perform(handles, all).Some?
    ensures var n, n' := Perform(handles, acts).value, Perform(handles, all).value;
      Ready(n', l.(done := l.done + 1)) && n'.history == n.history && n'.links.Keys == n.links.Keys
  {
    var n := Perform(handles, acts).value;
    var h := l.members[l.order[l.done]];
    IssueQueues(n, l);
    PerformSnoc(handles, acts, Issue);
    var n1 := Next(n, Issue);
    var call := n1.loop.value.call.value;
    var evs, t := Exchange(n1.links[h], Link.AckWaiter(l.data, call));
    var g := OnOneLink(handles, acts + [Issue], h, evs);
    var n2 := Perform(handles, g).value;
    assert n2.links == n.links[h := t];
    CalmAgain(n, n2, h, t);
    AdvanceReady(n2, l, call);
    PerformSnoc(handles, g, Advance);
    all := g + [Advance];
  }

  lemma {:induction false} SomeMembers(handles: set<Handle>, acts: seq<Action>, n: Node, l: Loop, k: nat)
    returns (all: seq<Action>, n': Node)
    requires Perform(handles, acts) == Some(n) && Ready(n, l) && l.done + k <= |l.order|
    ensures Perform(handles, all) == Some(n') && Ready(n', l.(done := l.done + k))
    ensures n'.history == n.history && n'.links.Keys == n.links.Keys
    decreases k
  {
    if k == 0 {
      all, n' := acts, n;
      assert l.(done := l.done + k) == l;
    } else {
      var g := OneMember(handles, acts, l);
      var next := l.(done := l.done + 1);
      all, n' := SomeMembers(handles, g, Perform(handles, g).value, next, k - 1);
      assert next.(done := next.done + (k - 1)) == l.(done := l.done + k);
    }
  }

  /** A send as the node logs it: nothing is recorded after the first failure, or without an id. */
  function Logged(c: Command): Command {
    if c.Echo? then c
    else c.(outcomes := Outcomes(if c.data.MessageId().Some? then Successes(c.outcomes) else 0, |c.order|))
  }

  function LoggedAll(h: seq<Command>): seq<Command> {
    seq(|h|, i requires 0 <= i < |h| => Logged(h[i]))
  }

  /** Only how far a send got matters. */
  lemma LoggedStep(s: Actor, c: Command)
    requires WellFormed(c)
    ensures Step(s, Logged(c)) == Step(s, c)
  {
    if c.Send? && c.data.MessageId().Some? {
      OutcomesSuccesses(Successes(c.outcomes), |c.order|);
      assert Reached(Logged(c)) == Reached(c);
    }
  }

  lemma {:induction false} LoggedRun(h: seq<Command>)
    requires forall i :: 0 <= i < |h| ==> WellFormed(h[i])
    ensures Run(LoggedAll(h)) == Run(h)
  {
    if h != [] {
      var g := h[..|h| - 1];
      LoggedRun(g);
      assert LoggedAll(h)[..|g|] == LoggedAll(g);
      LoggedStep(Run(g), h[|g|]);
    }
  }

  /** The node is between commands, all links calm, and has handled these commands. */
  ghost predicate Handled(n: Node, handles: set<Handle>, h: seq<Command>) {
    && n.loop.None? && AllCalm(n) && n.links.Keys == handles && n.history == LoggedAll(h)
  }

  ghost predicate Sendable(handles: set<Handle>, c: Command) {
    WellFormed(c) && (c.Send? ==> forall k :: k in c.members ==> c.members[k] in handles)
  }

  lemma LoggedSnoc(h: seq<Command>, c: Command)
    ensures LoggedAll(h + [c]) == LoggedAll(h) + [Logged(c)]
  {
  }

  /** A send with an id is a whole loop. */
  lemma OneSend(handles: set<Handle>, acts: seq<Action>, h: seq<Command>, c: Command) returns (all: seq<Action>)
    requires Perform(handles, acts).Some? && Handled(Perform(handles, acts).value, handles, h)
    requires Perform(handles, acts).value.echo.alive && Sendable(handles, c)
    requires c.Send? && c.data.MessageId().Some?
    ensures Perform(handles, all).Some? && Handled(Perform(handles, all).value, handles, h + [c])
  {
    var n := Perform(handles, acts).value;
    var act := Begin(c.data, c.members, c.respondTo, c.order);
    var l := Loop(c.data, c.members, c.respondTo, c.order, 0, None);
    assert Enabled(n, act);
    PerformSnoc(handles, acts, act);
    assert Ready(Next(n, act), l);
    var g, n' := SomeMembers(handles, acts + [act], Next(n, act), l, Successes(c.outcomes));
    var end := if Successes(c.outcomes) < |c.order| then Abort else Finish;
    PerformSnoc(handles, g, end);
    all := g + [end];
    LoggedSnoc(h, c);
  }

  lemma OneCommand(handles: set<Handle>, acts: seq<Action>, h: seq<Command>, c: Command) returns (all: seq<Action>)
    requires Perform(handles, acts).Some? && Handled(Perform(handles, acts).value, handles, h)
    requires Perform(handles, acts).value.echo.alive && Sendable(handles, c)
    ensures Perform(handles, all).Some? && Handled(Perform(handles, all).value, handles, h + [c])
  {
    if c.Send? && c.data.MessageId().Some? {
      all := OneSend(handles, acts, h, c);
    } else {
      var act := if c.Echo? then Hear(c.data) else Begin(c.data, c.members, c.respondTo, c.order);
      LoggedSnoc(h, c);
      PerformSnoc(handles, acts, act);
      all := acts + [act];
    }
  }

  /** Every history of the atomic actor, up to a failed lookup, happens over real links: for any walk
      orders and any outcomes of the sends there is a composed run that handles these commands and
      leaves the echo actor in the same state. */
  lemma {:induction false} AtomicRealised(handles: set<Handle>, h: seq<Command>) returns (acts: seq<Action>)
    requires forall i :: 0 <= i < |h| ==> Sendable(handles, h[i])
    requires h == [] || Run(h[..|h| - 1]).alive
    ensures Perform(handles, acts).Some? && Handled(Perform(handles, acts).value, handles, h)
    ensures Perform(handles, acts).value.echo == Run(h)
  {
    acts := [];
    if h != [] {
      var g := h[..|h| - 1];
      if g != [] {
        AlivePrefix(g, |g| - 1);
      }
      var before := AtomicRealised(handles, g);
      acts := OneCommand(handles, before, g, h[|g|]);
      assert g + [h[|g|]] == h;
      ComposedIsAtomic(handles, acts);
      LoggedRun(h);
    }
  }
}
