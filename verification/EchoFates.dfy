/** Properties of whole runs of the echo actor: where every waiter ends up, when a lookup
    fails, and what does not matter (order, repetition, other broadcasts). */
module EchoFates {
  import opened Protocol
  import opened EchoBroadcast
  import opened EchoHistory

  // ---------------------------------------------------------------- the fate of every waiter

  ghost predicate FailedSend(h: seq<Command>, i: nat) {
    i < |h| && h[i].Send? && !FullySent(h[i])
  }

  ghost predicate Pending(h: seq<Command>, i: nat) {
    exists id :: WaitingSince(h, i, id)
  }

  /** Some echo completed the broadcast while the i-th command's waiter was waiting. */
  ghost predicate Answered(h: seq<Command>, i: nat) {
    exists e: nat, id :: i < e < |h| && WaitingSince(h[..e], i, id) && CompletesAt(h, e, id)
  }

  /** A later full send of the same id replaced the i-th command's waiter. */
  ghost predicate Displaced(h: seq<Command>, i: nat) {
    exists j: nat, id :: i < j < |h| && WaitingSince(h[..j], i, id) && FullSendOf(h[j], id)
  }

  lemma AnsweredStep(h: seq<Command>, g: seq<Command>, i: nat, id: MessageId)
    requires h != [] && g == h[..|h| - 1] && i < |g| && FullSendOf(h[i], id)
    ensures Answered(h, i)
       <==> (Answered(g, i) || (WaitingSince(g, i, id) && CompletesAt(h, |g|, id)))
  {
    if Answered(h, i) {
      var e: nat, x :| i < e < |h| && WaitingSince(h[..e], i, x) && CompletesAt(h, e, x);
      assert h[..e][i] == h[i];
      if e < |g| {
        CompletesAtPrefix(h, |g|, e, x);
        assert g[..e] == h[..e];
        assert WaitingSince(g[..e], i, x) && CompletesAt(g, e, x);
      }
    }
    if Answered(g, i) {
      var e: nat, x :| i < e < |g| && WaitingSince(g[..e], i, x) && CompletesAt(g, e, x);
      CompletesAtPrefix(h, |g|, e, x);
      assert g[..e] == h[..e];
      assert WaitingSince(h[..e], i, x) && CompletesAt(h, e, x);
    }
  }

  lemma DisplacedBefore(h: seq<Command>, g: seq<Command>, i: nat, id: MessageId)
    requires h != [] && g == h[..|h| - 1] && i < |g| && FullSendOf(h[i], id) && Displaced(h, i)
    ensures Displaced(g, i) || (WaitingSince(g, i, id) && FullSendOf(h[|g|], id))
  {
    var j: nat, x :| i < j < |h| && WaitingSince(h[..j], i, x) && FullSendOf(h[j], x);
    assert h[..j][i] == h[i];
    if j < |g| {
      assert g[..j] == h[..j];
      assert WaitingSince(g[..j], i, x) && FullSendOf(g[j], x);
    }
  }

  lemma DisplacedStep(h: seq<Command>, g: seq<Command>, i: nat, id: MessageId)
    requires h != [] && g == h[..|h| - 1] && i < |g| && FullSendOf(h[i], id)
    ensures Displaced(h, i)
       <==> (Displaced(g, i) || (WaitingSince(g, i, id) && FullSendOf(h[|g|], id)))
  {
    if Displaced(h, i) {
      DisplacedBefore(h, g, i, id);
    }
    if Displaced(g, i) {
      var j: nat, x :| i < j < |g| && WaitingSince(g[..j], i, x) && FullSendOf(g[j], x);
      assert g[..j] == h[..j];
      assert WaitingSince(h[..j], i, x) && FullSendOf(h[j], x);
    }
  }

  /** Only a full send waits, and it waits for its own id. */
  lemma OnlyFullSendsWait(h: seq<Command>, i: nat)
    requires Pending(h, i) || Answered(h, i) || Displaced(h, i)
    ensures i < |h| && h[i].Send? && h[i].data.MessageId().Some?
    ensures FullSendOf(h[i], h[i].data.MessageId().value)
  {
  }

  /** Every send's waiter is in exactly one of four places: still pending, answered Ok, answered
      with an error because the send failed, or displaced by a later send of the same id. */
  lemma {:induction false} ExactlyOneFate(h: seq<Command>, i: nat)
    requires i < |h| && h[i].Send? && h[i].data.MessageId().Some?
    ensures FailedSend(h, i) || Pending(h, i) || Answered(h, i) || Displaced(h, i)
    ensures FailedSend(h, i) ==> !Pending(h, i) && !Answered(h, i) && !Displaced(h, i)
    ensures Pending(h, i) ==> !Answered(h, i) && !Displaced(h, i)
    ensures Answered(h, i) ==> !Displaced(h, i)
    decreases |h|
  {
    if FullySent(h[i]) {
      var id := h[i].data.MessageId().value;
      assert FullSendOf(h[i], id);
      if i < |h| - 1 {
        var g := h[..|h| - 1];
        assert g[i] == h[i];
        ExactlyOneFate(g, i);
        AnsweredStep(h, g, i, id);
        DisplacedStep(h, g, i, id);
        WaitingSinceStep(h, i, id);
      } else {
        assert WaitingSince(h, i, id);
      }
    } else if Pending(h, i) || Answered(h, i) || Displaced(h, i) {
      OnlyFullSendsWait(h, i);
    }
  }

  lemma WaitingUnique(h: seq<Command>, i: nat, j: nat, id: MessageId)
    requires WaitingSince(h, i, id) && WaitingSince(h, j, id)
    ensures i == j
  {
  }

  ghost function Sends(h: seq<Command>): set<nat> {
    set i: nat | i < |h| && h[i].Send?
  }

  ghost function DisplacedSends(h: seq<Command>): set<nat> {
    set i: nat | i < |h| && Displaced(h, i)
  }

  lemma SendsStep(h: seq<Command>)
    requires h != []
    ensures Sends(h) == Sends(h[..|h| - 1]) + (if h[|h| - 1].Send? then {|h| - 1} else {})
    ensures |Sends(h)| == |Sends(h[..|h| - 1])| + (if h[|h| - 1].Send? then 1 else 0)
  {
  }

  /** The command is a full send of an id some waiter is held for. */
  predicate Displaces(s: Actor, c: Command) {
    && c.Send? && FullySent(c) && c.data.MessageId().Some?
    && c.data.MessageId().value in s.txs
  }

  lemma NewlyDisplaced(h: seq<Command>, g: seq<Command>, i: nat, w: nat, id: MessageId)
    requires h != [] && g == h[..|h| - 1] && i < |g|
    requires WaitingSince(g, w, id) && FullSendOf(h[|g|], id)
    ensures Displaced(h, i) <==> (Displaced(g, i) || i == w)
  {
    assert forall j :: 0 <= j < |g| ==> g[j] == h[j];
    if Displaced(h, i) || Displaced(g, i) || i == w {
      var x := if Displaced(g, i) then (OnlyFullSendsWait(g, i); h[i].data.MessageId().value)
               else if i == w then id
               else (OnlyFullSendsWait(h, i); h[i].data.MessageId().value);
      DisplacedStep(h, g, i, x);
      if WaitingSince(g, i, x) && FullSendOf(h[|g|], x) {
        WaitingUnique(g, i, w, id);
      }
    }
  }

  lemma NotNewlyDisplaced(h: seq<Command>, g: seq<Command>, i: nat)
    requires h != [] && g == h[..|h| - 1] && i < |g|
    requires Run(g).alive && !Displaces(Run(g), h[|g|])
    ensures Displaced(h, i) <==> Displaced(g, i)
  {
    assert g[i] == h[i];
    if Displaced(h, i) || Displaced(g, i) {
      var x := if Displaced(g, i) then (OnlyFullSendsWait(g, i); h[i].data.MessageId().value)
               else (OnlyFullSendsWait(h, i); h[i].data.MessageId().value);
      DisplacedStep(h, g, i, x);
      WaitersExact(g, x);
    }
  }

  lemma DisplacedSetGrows(h: seq<Command>, g: seq<Command>, w: nat)
    requires |h| == |g| + 1 && w < |g| && !Displaced(g, w)
    requires forall i: nat :: i < |g| ==> (Displaced(h, i) <==> (Displaced(g, i) || i == w))
    ensures |DisplacedSends(h)| == |DisplacedSends(g)| + 1
  {
    assert !Displaced(h, |g|);
    assert DisplacedSends(h) == DisplacedSends(g) + {w};
  }

  lemma DisplacedSetStays(h: seq<Command>, g: seq<Command>)
    requires |h| == |g| + 1
    requires forall i: nat :: i < |g| ==> (Displaced(h, i) <==> Displaced(g, i))
    ensures DisplacedSends(h) == DisplacedSends(g)
  {
  }

  lemma DisplacedSendsStep(h: seq<Command>, g: seq<Command>)
    requires h != [] && g == h[..|h| - 1] && Run(g).alive
    ensures |DisplacedSends(h)| == |DisplacedSends(g)| + (if Displaces(Run(g), h[|g|]) then 1 else 0)
  {
    if Displaces(Run(g), h[|g|]) {
      var id := h[|g|].data.MessageId().value;
      WaitersExact(g, id);
      var w: nat :| WaitingSince(g, w, id);
      forall i: nat | i < |g| ensures Displaced(h, i) <==> (Displaced(g, i) || i == w) {
        NewlyDisplaced(h, g, i, w, id);
      }
      assert Pending(g, w);
      ExactlyOneFate(g, w);
      DisplacedSetGrows(h, g, w);
    } else {
      forall i: nat | i < |g| ensures Displaced(h, i) <==> Displaced(g, i) {
        NotNewlyDisplaced(h, g, i);
      }
      DisplacedSetStays(h, g);
    }
  }

  lemma SizeAfterInsert(m: map<MessageId, Waiter>, id: MessageId, w: Waiter)
    ensures |m[id := w]| == |m| + (if id in m then 0 else 1)
  {
    assert m[id := w].Keys == m.Keys + {id};
    assert |m| == |m.Keys| && |m[id := w]| == |m[id := w].Keys|;
  }

  lemma FinishCounts(s: Actor, id: MessageId, c: Command)
    requires c.Send? && FinishSend(s, id, c).alive
    ensures |FinishSend(s, id, c).txs| + |FinishSend(s, id, c).answers|
              + (if FullySent(c) && id in s.txs then 1 else 0)
         == |s.txs| + |s.answers| + 1
  {
    var t := FinishSend(s, id, c);
    if FullySent(c) {
      assert t.txs == s.txs[id := c.respondTo] && t.answers == s.answers;
      SizeAfterInsert(s.txs, id, c.respondTo);
    } else {
      assert t.txs == s.txs && |t.answers| == |s.answers| + 1;
    }
  }

  lemma SizeAfterRemove(m: map<MessageId, Waiter>, id: MessageId)
    ensures |m - {id}| == |m| - (if id in m then 1 else 0)
  {
    assert (m - {id}).Keys == m.Keys - {id};
    assert |m| == |m.Keys| && |m - {id}| == |(m - {id}).Keys|;
  }

  lemma StepCounts(s: Actor, c: Command)
    requires s.alive && Step(s, c).alive
    ensures |Step(s, c).txs| + |Step(s, c).answers| + (if Displaces(s, c) then 1 else 0)
         == |s.txs| + |s.answers| + (if c.Send? then 1 else 0)
  {
    var id := c.data.MessageId().value;
    if c.Send? {
      FinishCounts(s.(echos := ListMembers(s.echos, id, Reached(c))), id, c);
    } else {
      SizeAfterRemove(s.txs, id);
    }
  }

  /** Conservation: the sends handled are the waiters held, plus the answers given, plus the
      waiters displaced. */
  lemma {:induction false} WaitersConserved(h: seq<Command>)
    requires Run(h).alive
    ensures |Sends(h)| == |Run(h).txs| + |Run(h).answers| + |DisplacedSends(h)|
  {
    if h != [] {
      var n := |h| - 1;
      var g := h[..n];
      AlivePrefix(h, n);
      WaitersConserved(g);
      SendsStep(h);
      DisplacedSendsStep(h, g);
      StepCounts(Run(g), h[n]);
    } else {
      assert Sends(h) == {} && DisplacedSends(h) == {};
    }
  }

  /** The i-th command is the send whose fate the answer reports. */
  ghost predicate Explains(h: seq<Command>, i: nat, a: Answer) {
    && i < |h| && h[i].Send? && ForId(h[i], a.id) && h[i].respondTo == a.waiter
    && (if a.ok then Answered(h, i) else FailedSend(h, i))
  }

  lemma ExplainsStep(h: seq<Command>, g: seq<Command>, i: nat, a: Answer)
    requires h != [] && g == h[..|h| - 1] && i < |g|
    ensures Explains(h, i, a) <==> (Explains(g, i, a)
      || (a.ok && WaitingSince(g, i, a.id) && h[i].respondTo == a.waiter && CompletesAt(h, |g|, a.id)))
  {
    assert g[i] == h[i];
    if FullSendOf(h[i], a.id) {
      AnsweredStep(h, g, i, a.id);
    } else {
      if Answered(h, i) { OnlyFullSendsWait(h, i); }
      if Answered(g, i) { OnlyFullSendsWait(g, i); }
    }
  }

  lemma StepAnswersErr(s: Actor, c: Command, a: Answer)
    requires s.alive && Step(s, c).alive && !a.ok
    ensures Step(s, c).answers == s.answers + [a]
       <==> c.Send? && !FullySent(c) && ForId(c, a.id) && c.respondTo == a.waiter
  {
    if Step(s, c).answers == s.answers + [a] {
      assert Step(s, c).answers[|s.answers|] == a;
    }
  }

  /** An answer the last command logs is explained by the whole history. */
  lemma NewAnswerExplained(h: seq<Command>, g: seq<Command>, a: Answer) returns (i: nat)
    requires h != [] && g == h[..|h| - 1] && Run(h).alive && Run(g).alive
    requires Run(h).answers == Run(g).answers + [a]
    ensures Explains(h, i, a)
  {
    if a.ok {
      StepAnswersOk(Run(g), h[|g|], a.id, a.waiter);
      LastCompletes(h, a.id);
      WaitersExact(g, a.id);
      i :| WaitingSince(g, i, a.id);
      assert g[i] == h[i];
      ExplainsStep(h, g, i, a);
    } else {
      StepAnswersErr(Run(g), h[|g|], a);
      i := |g|;
    }
  }

  lemma CompletionLogged(h: seq<Command>, g: seq<Command>, i: nat, id: MessageId)
    requires h != [] && g == h[..|h| - 1] && Run(h).alive && Run(g).alive
    requires WaitingSince(g, i, id) && CompletesAt(h, |g|, id)
    ensures Run(h).answers == Run(g).answers + [Answer(id, g[i].respondTo, true)]
  {
    assert h[..|g| + 1] == h && h[..|g|] == g && g[i] == h[i];
    CompletionExact(h, |g|, id, g[i].respondTo);
  }

  /** An answer the last command makes explained is logged by it. */
  lemma NewlyExplainedLogged(h: seq<Command>, g: seq<Command>, i: nat, a: Answer)
    requires h != [] && g == h[..|h| - 1] && Run(h).alive && Run(g).alive
    requires Explains(h, i, a) && (i < |g| ==> !Explains(g, i, a))
    ensures Run(h).answers == Run(g).answers + [a]
  {
    if i < |g| {
      ExplainsStep(h, g, i, a);
      CompletionLogged(h, g, i, a.id);
      assert a == Answer(a.id, g[i].respondTo, true);
    } else {
      assert !a.ok by {
        assert !Answered(h, i);
      }
      StepAnswersErr(Run(g), h[|g|], a);
    }
  }

  lemma {:induction false} AnswerExplained(h: seq<Command>, a: Answer) returns (i: nat)
    requires Run(h).alive && a in Run(h).answers
    ensures Explains(h, i, a)
  {
    var g := h[..|h| - 1];
    AlivePrefix(h, |g|);
    if a in Run(g).answers {
      i := AnswerExplained(g, a);
      ExplainsStep(h, g, i, a);
    } else {
      NewAnswerLast(Run(g), h[|g|], a);
      i := NewAnswerExplained(h, g, a);
    }
  }

  lemma {:induction false} ExplainedAnswered(h: seq<Command>, i: nat, a: Answer)
    requires Run(h).alive && Explains(h, i, a)
    ensures a in Run(h).answers
    decreases |h|
  {
    var g := h[..|h| - 1];
    AlivePrefix(h, |g|);
    if i < |g| && Explains(g, i, a) {
      ExplainedAnswered(g, i, a);
      AnswersGrow(Run(g), h[|g|]);
    } else {
      NewlyExplainedLogged(h, g, i, a);
    }
  }

  /** An answer is in the log exactly when the fate of some send explains it. */
  lemma AnswersExact(h: seq<Command>, a: Answer)
    requires Run(h).alive
    ensures a in Run(h).answers <==> exists i: nat :: Explains(h, i, a)
  {
    if a in Run(h).answers {
      var i := AnswerExplained(h, a);
    }
    if i: nat :| Explains(h, i, a) {
      ExplainedAnswered(h, i, a);
    }
  }

  /** Each call has its own oneshot channel. */
  ghost predicate DistinctWaiters(h: seq<Command>) {
    forall i, j :: 0 <= i < j < |h| && h[i].Send? && h[j].Send? ==> h[i].respondTo != h[j].respondTo
  }

  /** A waiter that still waits was not answered before. */
  lemma PendingNotAnswered(g: seq<Command>, i: nat, j: nat, b: Answer)
    requires Explains(g, i, b) && Pending(g, j)
    ensures i != j
  {
    OnlyFullSendsWait(g, j);
    ExactlyOneFate(g, j);
  }

  lemma NewAnswerFrom(h: seq<Command>, g: seq<Command>, a: Answer) returns (j: nat)
    requires h != [] && g == h[..|h| - 1] && Run(h).alive && Run(g).alive
    requires Run(h).answers == Run(g).answers + [a]
    ensures j < |h| && h[j].Send? && h[j].respondTo == a.waiter
    ensures j == |g| || Pending(g, j)
  {
    if a.ok {
      StepAnswersOk(Run(g), h[|g|], a.id, a.waiter);
      WaitersExact(g, a.id);
      j :| WaitingSince(g, j, a.id);
    } else {
      StepAnswersErr(Run(g), h[|g|], a);
      j := |g|;
    }
  }

  lemma NewAnswerIsFresh(h: seq<Command>, g: seq<Command>, a: Answer, b: Answer)
    requires h != [] && g == h[..|h| - 1] && Run(h).alive && Run(g).alive && DistinctWaiters(h)
    requires Run(h).answers == Run(g).answers + [a]
    requires b in Run(g).answers
    ensures a.waiter != b.waiter
  {
    var i := AnswerExplained(g, b);
    var j := NewAnswerFrom(h, g, a);
    if j < |g| {
      PendingNotAnswered(g, i, j, b);
    }
  }

  /** No waiter is answered twice. */
  lemma {:induction false} NoSecondAnswer(h: seq<Command>)
    requires Run(h).alive && DistinctWaiters(h)
    ensures forall p, q :: 0 <= p < q < |Run(h).answers|
              ==> Run(h).answers[p].waiter != Run(h).answers[q].waiter
  {
    if h != [] {
      var n := |h| - 1;
      var g := h[..n];
      AlivePrefix(h, n);
      NoSecondAnswer(g);
      var s := Run(g);
      AnswersGrow(s, h[n]);
      if Run(h).answers != s.answers {
        var a := Run(h).answers[|Run(h).answers| - 1];
        assert Run(h).answers == s.answers + [a];
        forall p | 0 <= p < |s.answers| ensures s.answers[p].waiter != a.waiter {
          NewAnswerIsFresh(h, g, a, s.answers[p]);
        }
      }
    }
  }

  // ---------------------------------------------------------------- lookups that fail

  predicate Touches(c: Command, id: MessageId) {
    EchoOf(c, id) || (c.Send? && ForId(c, id) && Reached(c) != [])
  }

  /** The command carries an id, and a send to no members comes after something else put the id
      into the table. */
  ghost predicate LookupsSucceed(h: seq<Command>, i: nat) {
    && i < |h| && h[i].data.MessageId().Some?
    && (h[i].Send? && h[i].members == map[] ==>
          exists j :: 0 <= j < i && Touches(h[j], h[i].data.MessageId().value))
  }

  lemma NoMembersNoOrder(c: Command)
    requires c.Send? && WellFormed(c)
    ensures c.members == map[] <==> c.order == []
  {
    assert c.order != [] ==> c.order[0] in c.members;
    assert c.members != map[] ==> exists k :: k in c.members && k in c.order;
  }

  lemma ListedTouched(h: seq<Command>, id: MessageId, k: NodeId)
    requires forall i :: 0 <= i < |h| ==> WellFormed(h[i]) && LookupsSucceed(h, i)
    requires Listed(h, id, k)
    ensures exists j :: 0 <= j < |h| && Touches(h[j], id)
  {
  }

  lemma RowTouched(h: seq<Command>, id: MessageId)
    requires Run(h).alive
    requires forall i :: 0 <= i < |h| ==> WellFormed(h[i]) && LookupsSucceed(h, i)
    ensures id in Run(h).echos <==> exists j :: 0 <= j < |h| && Touches(h[j], id)
  {
    RowsExact(h, id);
    if id in Run(h).echos {
      var k :| Listed(h, id, k);
      ListedTouched(h, id, k);
    }
    if j :| 0 <= j < |h| && Touches(h[j], id) {
      var k := if h[j].Echo? then h[j].data.SenderId() else Reached(h[j])[0];
      assert Lists(h[j], id, k);
      assert Listed(h, id, k);
    }
  }

  lemma StepAlive(s: Actor, c: Command)
    requires s.alive
    ensures Step(s, c).alive <==>
      && c.data.MessageId().Some?
      && (c.Send? && c.order == [] ==> c.data.MessageId().value in s.echos)
  {
  }

  lemma LastLookup(h: seq<Command>, g: seq<Command>)
    requires h != [] && g == h[..|h| - 1] && WellFormed(h[|g|])
    requires Run(g).alive
    requires forall i :: 0 <= i < |g| ==> WellFormed(g[i]) && LookupsSucceed(g, i)
    ensures Run(h).alive <==> LookupsSucceed(h, |g|)
  {
    var c := h[|g|];
    StepAlive(Run(g), c);
    assert forall j :: 0 <= j < |g| ==> g[j] == h[j];
    if c.Send? && c.data.MessageId().Some? {
      NoMembersNoOrder(c);
      RowTouched(g, c.data.MessageId().value);
    }
  }

  /** No `unwrap` of the actor fails in a run if and only if every command carries an id and
      every send has a member, or an id that is already in the table. */
  lemma {:induction false} NoFailedLookupIff(h: seq<Command>)
    requires forall i :: 0 <= i < |h| ==> WellFormed(h[i])
    ensures Run(h).alive <==> forall i :: 0 <= i < |h| ==> LookupsSucceed(h, i)
  {
    if h != [] {
      var n := |h| - 1;
      var g := h[..n];
      NoFailedLookupIff(g);
      forall i: nat | i < n ensures LookupsSucceed(g, i) <==> LookupsSucceed(h, i) {
        assert g[i] == h[i];
        assert forall j :: 0 <= j < i ==> g[j] == h[j];
      }
      if Run(g).alive {
        assert forall i :: 0 <= i < n ==> LookupsSucceed(g, i) && WellFormed(g[i]);
        LastLookup(h, g);
      } else {
        assert !Run(h).alive;
        var i :| 0 <= i < n && !LookupsSucceed(g, i);
        assert !LookupsSucceed(h, i);
      }
    }
  }

  /** After a failed lookup nothing changes any more. */
  lemma {:induction false} DeadStaysDead(h: seq<Command>, more: seq<Command>)
    requires !Run(h).alive
    ensures Run(h + more) == Run(h)
  {
    if more == [] {
      assert h + more == h;
    } else {
      var n := |more| - 1;
      assert (h + more)[..|h + more| - 1] == h + more[..n];
      DeadStaysDead(h, more[..n]);
    }
  }

  /** The commands that had an effect: all of them, or those before the first failed lookup. */
  ghost function Effective(h: seq<Command>): seq<Command> {
    if Run(h).alive then h else Effective(h[..|h| - 1])
  }

  lemma FailingStep(s: Actor, c: Command)
    requires !Step(s, c).alive
    ensures Step(s, c).echos == s.echos && Step(s, c).txs == s.txs && Step(s, c).answers == s.answers
  {
    if s.alive && c.Send? && c.data.MessageId().Some? {
      ListMembersHas(s.echos, c.data.MessageId().value, Reached(c), c.data.MessageId().value);
    }
  }

  /** The failing command itself answers nobody, registers nobody and lists nobody: table, waiters
      and answers are those of the longest run before it, which nothing failed in. */
  lemma {:induction false} EffectiveIs(h: seq<Command>)
    ensures Effective(h) <= h && Run(Effective(h)).alive
    ensures Run(h).echos == Run(Effective(h)).echos
    ensures Run(h).txs == Run(Effective(h)).txs
    ensures Run(h).answers == Run(Effective(h)).answers
  {
    if !Run(h).alive {
      var g := h[..|h| - 1];
      EffectiveIs(g);
      FailingStep(Run(g), h[|g|]);
    }
  }

  /** The first command without effect is the one whose lookup fails. */
  lemma {:induction false} EffectiveLongest(h: seq<Command>)
    requires !Run(h).alive
    ensures |Effective(h)| < |h| && !Run(h[..|Effective(h)| + 1]).alive
  {
    var g := h[..|h| - 1];
    var e := Effective(g);
    assert Effective(h) == e;
    if Run(g).alive {
      assert h[..|e| + 1] == h;
    } else {
      EffectiveLongest(g);
      assert g[..|e| + 1] == h[..|e| + 1];
    }
  }

  lemma {:induction false} EffectiveAtFailure(h: seq<Command>, c: Command, more: seq<Command>)
    requires Run(h).alive && !Run(h + [c]).alive
    ensures Effective(h + [c] + more) == h
    decreases more
  {
    DeadStaysDead(h + [c], more);
    if more == [] {
      assert h + [c] + more == h + [c] && (h + [c])[..|h|] == h;
    } else {
      var n := |more| - 1;
      assert (h + [c] + more)[..|h + [c] + more| - 1] == h + [c] + more[..n];
      EffectiveAtFailure(h, c, more[..n]);
    }
  }

  /** The table after any history, failed lookups included. */
  lemma TableAlwaysExact(h: seq<Command>, id: MessageId, k: NodeId)
    ensures IsListed(Run(h), id, k) <==> Listed(Effective(h), id, k)
    ensures IsConfirmed(Run(h), id, k) <==> Confirmed(Effective(h), id, k)
  {
    EffectiveIs(h);
    TableExact(Effective(h), id, k);
  }

  // ---------------------------------------------------------------- what a caller gets

  /** The oneshot channel of a call: the actor holds its sender, used it, or dropped it. */
  datatype Channel = Held | Used(ok: bool) | Dropped

  /** What the handle's send returns, if it returns: the queue may be closed, and a dropped sender
      is an error. */
  function HandleSend(queued: bool, channel: Channel): Option<Result<()>> {
    if !queued then Some(Err)
    else match channel
      case Held => None
      case Used(ok) => Some(if ok then Ok(()) else Err)
      case Dropped => Some(Err)
  }

  predicate Replied(s: Actor, w: Waiter, ok: bool) {
    exists i :: 0 <= i < |s.answers| && s.answers[i].waiter == w && s.answers[i].ok == ok
  }

  ghost predicate Holds(s: Actor, w: Waiter) {
    exists id :: id in s.txs && s.txs[id] == w
  }

  /** An ended actor has dropped everything it held, and never sees a later command. */
  ghost function ChannelOf(h: seq<Command>, i: nat): Channel
    requires i < |h| && h[i].Send?
  {
    var s := Run(h);
    var w := h[i].respondTo;
    if Replied(s, w, true) then Used(true)
    else if Replied(s, w, false) then Used(false)
    else if s.alive && Holds(s, w) then Held
    else Dropped
  }

  lemma AliveHasIds(h: seq<Command>, i: nat)
    requires i < |h| && Run(h).alive
    ensures h[i].data.MessageId().Some?
  {
    AlivePrefix(h, i + 1);
    AlivePrefix(h, i);
    assert h[..i + 1][..i] == h[..i];
  }

  lemma RepliedExplains(h: seq<Command>, i: nat, a: Answer)
    requires i < |h| && h[i].Send? && Run(h).alive && DistinctWaiters(h)
    requires ForId(h[i], a.id) && h[i].respondTo == a.waiter
    ensures Replied(Run(h), a.waiter, a.ok) <==> Explains(h, i, a)
  {
    var s := Run(h);
    if Replied(s, a.waiter, a.ok) {
      var p :| 0 <= p < |s.answers| && s.answers[p].waiter == a.waiter && s.answers[p].ok == a.ok;
      var j := AnswerExplained(h, s.answers[p]);
      assert j == i;
    }
    if Explains(h, i, a) {
      ExplainedAnswered(h, i, a);
    }
  }

  lemma RepliedIff(h: seq<Command>, i: nat)
    requires i < |h| && h[i].Send? && Run(h).alive && DistinctWaiters(h)
    ensures Replied(Run(h), h[i].respondTo, true) <==> Answered(h, i)
    ensures Replied(Run(h), h[i].respondTo, false) <==> FailedSend(h, i)
  {
    if h[i].data.MessageId().Some? {
      RepliedExplains(h, i, Answer(h[i].data.MessageId().value, h[i].respondTo, true));
      RepliedExplains(h, i, Answer(h[i].data.MessageId().value, h[i].respondTo, false));
    } else {
      AliveHasIds(h, i);
    }
    if Answered(h, i) {
      OnlyFullSendsWait(h, i);
    }
  }

  lemma HoldsIff(h: seq<Command>, i: nat)
    requires i < |h| && h[i].Send? && Run(h).alive && DistinctWaiters(h)
    ensures Holds(Run(h), h[i].respondTo) <==> Pending(h, i)
  {
    var s := Run(h);
    if Holds(s, h[i].respondTo) {
      var id :| id in s.txs && s.txs[id] == h[i].respondTo;
      WaitersExact(h, id);
      var j: nat :| WaitingSince(h, j, id);
      assert j == i;
    }
    if Pending(h, i) {
      var id :| WaitingSince(h, i, id);
      WaitersExact(h, id);
    }
  }

  lemma Undecided(h: seq<Command>, i: nat)
    requires i < |h| && h[i].Send? && Run(h).alive && DistinctWaiters(h)
    ensures ChannelOf(h, i) == Held <==> Pending(h, i)
  {
    RepliedIff(h, i);
    HoldsIff(h, i);
    AliveHasIds(h, i);
    ExactlyOneFate(h, i);
  }

  /** A command the actor did not live to handle is not answered. */
  lemma UnseenNotReplied(h: seq<Command>, i: nat)
    requires |Effective(h)| <= i < |h| && h[i].Send? && DistinctWaiters(h)
    ensures !Replied(Run(h), h[i].respondTo, true) && !Answered(Effective(h), i)
    ensures !Run(h).alive
  {
    var g := Effective(h);
    EffectiveIs(h);
    if Replied(Run(h), h[i].respondTo, true) {
      var p :| 0 <= p < |Run(h).answers| && Run(h).answers[p].waiter == h[i].respondTo && Run(h).answers[p].ok;
      var j := AnswerExplained(g, Run(h).answers[p]);
      assert false;
    }
  }

  /** A call returns Ok exactly when it was queued and its own broadcast was completed while it
      waited; it goes on waiting exactly while the actor lives and nothing decided its fate;
      otherwise, with a closed queue, a failed or displaced send or an ended actor, it returns an
      error. */
  lemma HandleOkIff(h: seq<Command>, i: nat, queued: bool)
    requires i < |h| && h[i].Send? && DistinctWaiters(h)
    ensures HandleSend(queued, ChannelOf(h, i)) == Some(Ok(())) <==> queued && Answered(Effective(h), i)
    ensures HandleSend(queued, ChannelOf(h, i)) == None <==> queued && Run(h).alive && Pending(h, i)
  {
    var g := Effective(h);
    EffectiveIs(h);
    if i < |g| {
      assert h[i] == g[i];
      RepliedIff(g, i);
      if Run(h).alive {
        Undecided(h, i);
      }
    } else {
      UnseenNotReplied(h, i);
    }
  }

  // ---------------------------------------------------------------- what does not matter

  /** Same broadcast or echo, same set of members reached, same success. */
  ghost predicate SameEffect(c: Command, d: Command) {
    && c.data == d.data && (c.Send? <==> d.Send?)
    && (c.Send? ==> (FullySent(c) <==> FullySent(d)) && forall k :: k in Reached(c) <==> k in Reached(d))
  }

  ghost predicate HasMatch(c: Command, g: seq<Command>) {
    exists j :: 0 <= j < |g| && SameEffect(c, g[j])
  }

  ghost predicate Covers(h: seq<Command>, g: seq<Command>) {
    forall i {:trigger HasMatch(h[i], g)} :: 0 <= i < |h| ==> HasMatch(h[i], g)
  }

  lemma CoversLists(h: seq<Command>, g: seq<Command>, id: MessageId, k: NodeId)
    requires Covers(h, g)
    ensures Listed(h, id, k) ==> Listed(g, id, k)
    ensures Confirmed(h, id, k) ==> Confirmed(g, id, k)
  {
    if Listed(h, id, k) {
      var i :| 0 <= i < |h| && Lists(h[i], id, k);
      assert HasMatch(h[i], g);
      var j :| 0 <= j < |g| && SameEffect(h[i], g[j]);
      assert Lists(g[j], id, k);
    }
    if Confirmed(h, id, k) {
      var i :| 0 <= i < |h| && Confirms(h[i], id, k);
      assert HasMatch(h[i], g);
      var j :| 0 <= j < |g| && SameEffect(h[i], g[j]);
      assert Confirms(g[j], id, k);
    }
  }

  lemma SameEntry(h: seq<Command>, g: seq<Command>, id: MessageId, k: NodeId)
    requires Run(h).alive && Run(g).alive
    requires Covers(h, g) && Covers(g, h)
    ensures IsListed(Run(h), id, k) <==> IsListed(Run(g), id, k)
    ensures IsConfirmed(Run(h), id, k) <==> IsConfirmed(Run(g), id, k)
  {
    CoversLists(h, g, id, k);
    CoversLists(g, h, id, k);
    TableExact(h, id, k);
    TableExact(g, id, k);
  }

  lemma SameRow(h: seq<Command>, g: seq<Command>, id: MessageId)
    requires Run(h).alive && Run(g).alive
    requires Covers(h, g) && Covers(g, h)
    ensures Row(Run(h).echos, id) == Row(Run(g).echos, id)
    ensures id in Run(h).echos <==> id in Run(g).echos
  {
    var r, q := Row(Run(h).echos, id), Row(Run(g).echos, id);
    forall k ensures k in r <==> k in q ensures k in r ==> (r[k] <==> q[k]) {
      SameEntry(h, g, id, k);
    }
    RowsNonEmpty(h);
    RowsNonEmpty(g);
  }

  /** Two histories made of the same commands, in any order and with any repetition, leave the
      same echo table; the order in which a send reached its members does not matter either. */
  lemma TableIgnoresOrder(h: seq<Command>, g: seq<Command>)
    requires Run(h).alive && Run(g).alive
    requires Covers(h, g) && Covers(g, h)
    ensures Run(h).echos == Run(g).echos
  {
    var s, t := Run(h).echos, Run(g).echos;
    forall id ensures id in s <==> id in t ensures id in s ==> s[id] == t[id] {
      SameRow(h, g, id);
    }
  }

  lemma ListMembersIgnoresOrder(t: EchoTable, id: MessageId, ks: seq<NodeId>, ls: seq<NodeId>)
    requires forall k :: k in ks <==> k in ls
    ensures ListMembers(t, id, ks) == ListMembers(t, id, ls)
  {
    var u, v := ListMembers(t, id, ks), ListMembers(t, id, ls);
    assert ks != [] ==> ks[0] in ls;
    assert ls != [] ==> ls[0] in ks;
    forall k ensures k in Row(u, id) <==> k in Row(v, id)
             ensures k in Row(u, id) ==> Row(u, id)[k] == Row(v, id)[k]
    {
      ListMembersAt(t, id, ks, id, k);
      ListMembersAt(t, id, ls, id, k);
    }
    assert Row(u, id) == Row(v, id);
    forall x ensures x in u <==> x in v ensures x in u ==> u[x] == v[x] {
      ListMembersHas(t, id, ks, x);
      ListMembersHas(t, id, ls, x);
      assert Row(u, x) == Row(v, x);
    }
  }

  /** A fully successful send leaves the same state whatever order the member map is walked in. */
  lemma FullSendIgnoresWalk(s: Actor, c: Command, d: Command)
    requires c.Send? && d.Send? && WellFormed(c) && WellFormed(d) && FullySent(c) && FullySent(d)
    requires c.data == d.data && c.members == d.members && c.respondTo == d.respondTo
    ensures Step(s, c) == Step(s, d)
  {
    if c.data.MessageId().Some? {
      assert Reached(c) == c.order && Reached(d) == d.order;
      ListMembersIgnoresOrder(s.echos, c.data.MessageId().value, c.order, d.order);
    }
  }

  function Project(h: seq<Command>, id: MessageId): seq<Command> {
    if h == [] then []
    else Project(h[..|h| - 1], id) + (if ForId(h[|h| - 1], id) then [h[|h| - 1]] else [])
  }

  function AnswersFor(answers: seq<Answer>, id: MessageId): seq<Answer> {
    if answers == [] then []
    else
      AnswersFor(answers[..|answers| - 1], id)
      + (if answers[|answers| - 1].id == id then [answers[|answers| - 1]] else [])
  }

  lemma AnswersForAppend(answers: seq<Answer>, a: Answer, id: MessageId)
    ensures AnswersFor(answers + [a], id) == AnswersFor(answers, id) + (if a.id == id then [a] else [])
  {
  }

  ghost predicate SameAt<T>(m: map<MessageId, T>, n: map<MessageId, T>, id: MessageId) {
    (id in m <==> id in n) && (id in m ==> m[id] == n[id])
  }

  /** Two states agree on everything that concerns one broadcast. */
  ghost predicate AgreeOn(s: Actor, t: Actor, id: MessageId) {
    && SameAt(s.echos, t.echos, id)
    && SameAt(s.senders, t.senders, id)
    && SameAt(s.txs, t.txs, id)
    && AnswersFor(s.answers, id) == AnswersFor(t.answers, id)
  }

  lemma FinishOtherId(s: Actor, x: MessageId, c: Command, id: MessageId)
    requires c.Send? && x != id
    ensures AgreeOn(FinishSend(s, x, c), s, id)
  {
    if !FullySent(c) {
      AnswersForAppend(s.answers, Answer(x, c.respondTo, false), id);
    }
  }

  lemma EchoOtherId(s: Actor, data: Message, x: MessageId, id: MessageId)
    requires data.MessageId() == Some(x) && x != id
    ensures AgreeOn(StepEcho(s, data), s, id)
  {
  }

  lemma StepOtherId(s: Actor, c: Command, id: MessageId)
    requires s.alive && Step(s, c).alive && !ForId(c, id)
    ensures AgreeOn(Step(s, c), s, id)
  {
    var x := c.data.MessageId().value;
    if c.Send? {
      ListMembersHas(s.echos, x, Reached(c), id);
      assert SameAt(ListMembers(s.echos, x, Reached(c)), s.echos, id);
      FinishOtherId(s.(echos := ListMembers(s.echos, x, Reached(c))), x, c, id);
    } else {
      EchoOtherId(s, c.data, x, id);
    }
  }

  lemma {:induction false} ListMembersSameRow(t: EchoTable, u: EchoTable, id: MessageId, ks: seq<NodeId>)
    requires SameAt(t, u, id)
    ensures SameAt(ListMembers(t, id, ks), ListMembers(u, id, ks), id)
  {
    if ks != [] {
      ListMembersSameRow(t, u, id, ks[..|ks| - 1]);
    }
  }

  lemma FinishSameId(s: Actor, t: Actor, id: MessageId, c: Command)
    requires c.Send? && AgreeOn(s, t, id) && s.alive && t.alive
    ensures FinishSend(s, id, c).alive == FinishSend(t, id, c).alive
    ensures AgreeOn(FinishSend(s, id, c), FinishSend(t, id, c), id)
  {
    if !FullySent(c) {
      AnswersForAppend(s.answers, Answer(id, c.respondTo, false), id);
      AnswersForAppend(t.answers, Answer(id, c.respondTo, false), id);
    } else if id in s.echos {
      var k := c.data.SenderId();
      assert Row(Confirm(s.echos, id, k), id) == Row(Confirm(t.echos, id, k), id);
    }
  }

  lemma EchoSameId(s: Actor, t: Actor, data: Message, id: MessageId)
    requires AgreeOn(s, t, id) && s.alive && t.alive && data.MessageId() == Some(id)
    ensures StepEcho(s, data).alive && StepEcho(t, data).alive
    ensures AgreeOn(StepEcho(s, data), StepEcho(t, data), id)
  {
    var u, v := Confirm(s.echos, id, data.SenderId()), Confirm(t.echos, id, data.SenderId());
    assert Row(u, id) == Row(v, id);
    assert AllEchoed(u, id) == AllEchoed(v, id);
    if id in s.txs {
      AnswersForAppend(s.answers, Answer(id, s.txs[id], true), id);
      AnswersForAppend(t.answers, Answer(id, t.txs[id], true), id);
    }
  }

  lemma StepSameId(s: Actor, t: Actor, c: Command, id: MessageId)
    requires s.alive && t.alive && ForId(c, id) && AgreeOn(s, t, id)
    ensures Step(s, c).alive == Step(t, c).alive
    ensures AgreeOn(Step(s, c), Step(t, c), id)
  {
    if c.Send? {
      ListMembersSameRow(s.echos, t.echos, id, Reached(c));
      FinishSameId(s.(echos := ListMembers(s.echos, id, Reached(c))),
                   t.(echos := ListMembers(t.echos, id, Reached(c))), id, c);
    } else {
      EchoSameId(s, t, c.data, id);
    }
  }

  /** Broadcasts do not interfere: the row, snapshot, waiter and answers of one id are those of
      the run of that id's commands alone. */
  lemma {:induction false} BroadcastsIndependent(h: seq<Command>, id: MessageId)
    requires Run(h).alive
    ensures Run(Project(h, id)).alive
    ensures AgreeOn(Run(h), Run(Project(h, id)), id)
  {
    if h != [] {
      var n := |h| - 1;
      AlivePrefix(h, n);
      BroadcastsIndependent(h[..n], id);
      var p := Project(h[..n], id);
      if ForId(h[n], id) {
        assert (p + [h[n]])[..|p|] == p;
        StepSameId(Run(h[..n]), Run(p), h[n], id);
      } else {
        assert Project(h, id) == p;
        StepOtherId(Run(h[..n]), h[n], id);
      }
    }
  }
}
