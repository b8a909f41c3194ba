/** What the echo table, the waiting callers and the answers are after any command history.

    `Listed`, `Confirmed`, `CompletesAt` and `WaitingSince` speak of the commands alone; the
    theorems show that the maps of the actor hold exactly what they say. Ids may be reused,
    sends may fail part way, and echoes may come before, after or without their send. */
module EchoHistory {
  import opened Protocol
  import opened EchoBroadcast

  predicate HasId(m: Message, id: MessageId) {
    m.BroadcastMessage? && m.broadcast.id == Some(id)
  }

  predicate NamesSender(m: Message, k: NodeId) {
    m.BroadcastMessage? && m.broadcast.senderId == k
  }

  predicate ForId(c: Command, id: MessageId) {
    HasId(c.data, id)
  }

  predicate FullSendOf(c: Command, id: MessageId) {
    c.Send? && ForId(c, id) && FullySent(c)
  }

  predicate EchoOf(c: Command, id: MessageId) {
    c.Echo? && ForId(c, id)
  }

  /** The command is an echo of id from k, or a fully sent broadcast of id originated by k. */
  predicate Confirms(c: Command, id: MessageId, k: NodeId) {
    (EchoOf(c, id) || FullSendOf(c, id)) && NamesSender(c.data, k)
  }

  /** The command confirms k, or sends id and reaches k. */
  predicate Lists(c: Command, id: MessageId, k: NodeId) {
    Confirms(c, id, k) || (c.Send? && ForId(c, id) && k in Reached(c))
  }

  ghost predicate Confirmed(h: seq<Command>, id: MessageId, k: NodeId) {
    exists i :: 0 <= i < |h| && Confirms(h[i], id, k)
  }

  ghost predicate Listed(h: seq<Command>, id: MessageId, k: NodeId) {
    exists i :: 0 <= i < |h| && Lists(h[i], id, k)
  }

  /** Every node the history lists under id is confirmed. */
  ghost predicate Complete(h: seq<Command>, id: MessageId) {
    forall k :: Listed(h, id, k) ==> Confirmed(h, id, k)
  }

  /** The e-th command is an echo of id after which everything listed is confirmed. */
  ghost predicate CompletesAt(h: seq<Command>, e: nat, id: MessageId) {
    e < |h| && EchoOf(h[e], id) && Complete(h[..e + 1], id)
  }

  /** The i-th command fully sent id, and since then id was neither fully sent again nor
      completed. */
  ghost predicate WaitingSince(h: seq<Command>, i: nat, id: MessageId) {
    && i < |h| && FullSendOf(h[i], id)
    && forall j :: i < j < |h| ==> !FullSendOf(h[j], id) && !CompletesAt(h, j, id)
  }

  // ---------------------------------------------------------------- prefixes of histories

  lemma AlivePrefix(h: seq<Command>, n: nat)
    requires n <= |h| && Run(h).alive
    ensures Run(h[..n]).alive
    decreases |h|
  {
    if n < |h| {
      AlivePrefix(h[..|h| - 1], n);
      assert h[..|h| - 1][..n] == h[..n];
    } else {
      assert h[..n] == h;
    }
  }

  lemma CompletesAtPrefix(h: seq<Command>, n: nat, e: nat, id: MessageId)
    requires e < n <= |h|
    ensures CompletesAt(h[..n], e, id) <==> CompletesAt(h, e, id)
  {
    assert h[..n][..e + 1] == h[..e + 1];
  }

  /** Waiting after one more command: it goes on unless that command completes or resends. */
  lemma WaitingSinceStep(h: seq<Command>, i: nat, id: MessageId)
    requires h != []
    ensures i < |h| - 1 ==>
      (WaitingSince(h, i, id) <==>
         && WaitingSince(h[..|h| - 1], i, id)
         && !FullSendOf(h[|h| - 1], id) && !CompletesAt(h, |h| - 1, id))
    ensures i == |h| - 1 ==> (WaitingSince(h, i, id) <==> FullSendOf(h[i], id))
  {
    var n := |h| - 1;
    forall j | 0 <= j < n ensures CompletesAt(h[..n], j, id) <==> CompletesAt(h, j, id) {
      CompletesAtPrefix(h, n, j, id);
    }
    if i < n && WaitingSince(h, i, id) {
      assert WaitingSince(h[..n], i, id);
      assert !FullSendOf(h[n], id) && !CompletesAt(h, n, id);
    }
  }

  lemma ListedStep(h: seq<Command>, id: MessageId, k: NodeId)
    requires h != []
    ensures Listed(h, id, k) <==> Listed(h[..|h| - 1], id, k) || Lists(h[|h| - 1], id, k)
    ensures Confirmed(h, id, k) <==> Confirmed(h[..|h| - 1], id, k) || Confirms(h[|h| - 1], id, k)
  {
  }

  // ---------------------------------------------------------------- the echo table

  lemma {:induction false} ListMembersAt(t: EchoTable, id: MessageId, ks: seq<NodeId>, x: MessageId, k: NodeId)
    ensures k in Row(ListMembers(t, id, ks), x) <==> k in Row(t, x) || (x == id && k in ks)
    ensures k in Row(ListMembers(t, id, ks), x) ==>
              (Row(ListMembers(t, id, ks), x)[k] <==> k in Row(t, x) && Row(t, x)[k])
  {
    if ks != [] {
      var n := |ks| - 1;
      ListMembersAt(t, id, ks[..n], x, k);
      assert ks == ks[..n] + [ks[n]];
    }
  }

  lemma {:induction false} ListMembersHas(t: EchoTable, id: MessageId, ks: seq<NodeId>, x: MessageId)
    ensures x in ListMembers(t, id, ks) <==> x in t || (x == id && ks != [])
    ensures x != id ==> Row(ListMembers(t, id, ks), x) == Row(t, x)
  {
    if ks != [] {
      ListMembersHas(t, id, ks[..|ks| - 1], x);
    }
  }

  ghost predicate IsListed(s: Actor, id: MessageId, k: NodeId) {
    k in Row(s.echos, id)
  }

  ghost predicate IsConfirmed(s: Actor, id: MessageId, k: NodeId) {
    k in Row(s.echos, id) && Row(s.echos, id)[k]
  }

  lemma StepRows(s: Actor, c: Command)
    requires s.alive && Step(s, c).alive
    ensures c.data.MessageId().Some?
    ensures c.Echo? ==> Step(s, c).echos == Confirm(s.echos, c.data.MessageId().value, c.data.SenderId())
    ensures c.Send? ==>
      var t := ListMembers(s.echos, c.data.MessageId().value, Reached(c));
      Step(s, c).echos == if FullySent(c) then Confirm(t, c.data.MessageId().value, c.data.SenderId()) else t
  {
  }

  lemma ConfirmAt(t: EchoTable, x: MessageId, y: NodeId, id: MessageId, k: NodeId)
    ensures k in Row(Confirm(t, x, y), id) <==> k in Row(t, id) || (x == id && y == k)
    ensures k in Row(Confirm(t, x, y), id) ==>
              (Row(Confirm(t, x, y), id)[k] <==> (k in Row(t, id) && Row(t, id)[k]) || (x == id && y == k))
  {
  }

  lemma StepTable(s: Actor, c: Command, id: MessageId, k: NodeId)
    requires s.alive && Step(s, c).alive
    ensures IsListed(Step(s, c), id, k) <==> IsListed(s, id, k) || Lists(c, id, k)
    ensures IsConfirmed(Step(s, c), id, k) <==> IsConfirmed(s, id, k) || Confirms(c, id, k)
  {
    StepRows(s, c);
    if c.Send? {
      var x := c.data.MessageId().value;
      ListMembersAt(s.echos, x, Reached(c), id, k);
      ConfirmAt(ListMembers(s.echos, x, Reached(c)), x, c.data.SenderId(), id, k);
    } else {
      ConfirmAt(s.echos, c.data.MessageId().value, c.data.SenderId(), id, k);
    }
  }

  /** The table is exactly what the history says: k is listed under id iff it was reached by a
      send of id, echoed id, or originated a fully sent id; and it is true iff one of the last
      two holds. */
  lemma {:induction false} TableExact(h: seq<Command>, id: MessageId, k: NodeId)
    requires Run(h).alive
    ensures IsListed(Run(h), id, k) <==> Listed(h, id, k)
    ensures IsConfirmed(Run(h), id, k) <==> Confirmed(h, id, k)
  {
    if h != [] {
      var n := |h| - 1;
      AlivePrefix(h, n);
      TableExact(h[..n], id, k);
      StepTable(Run(h[..n]), h[n], id, k);
      ListedStep(h, id, k);
    }
  }

  /** An echo, or a fully sent broadcast, confirms the sender it names, under the id it carries. */
  lemma SenderConfirmed(h: seq<Command>, i: nat, k: NodeId, text: string, id: MessageId)
    requires Run(h).alive && i < |h| && h[i].data == BroadcastMessage(RoundOnePackage(k, text, Some(id)))
    requires h[i].Echo? || FullySent(h[i])
    ensures id in Run(h).echos && k in Run(h).echos[id] && Run(h).echos[id][k]
  {
    TableExact(h, id, k);
    assert Confirms(h[i], id, k);
    assert IsConfirmed(Run(h), id, k);
  }

  lemma AllEchoedExact(h: seq<Command>, id: MessageId)
    requires Run(h).alive
    ensures AllEchoed(Run(h).echos, id) <==> Complete(h, id)
  {
    forall k ensures IsListed(Run(h), id, k) <==> Listed(h, id, k)
             ensures IsConfirmed(Run(h), id, k) <==> Confirmed(h, id, k)
    {
      TableExact(h, id, k);
    }
    if AllEchoed(Run(h).echos, id) {
      forall k | Listed(h, id, k) ensures Confirmed(h, id, k) {
        assert IsListed(Run(h), id, k);
      }
    } else {
      var k :| k in Row(Run(h).echos, id) && !Row(Run(h).echos, id)[k];
      assert IsListed(Run(h), id, k) && !IsConfirmed(Run(h), id, k);
      assert Listed(h, id, k) && !Confirmed(h, id, k);
    }
  }

  lemma {:induction false} ListMembersNonEmpty(t: EchoTable, id: MessageId, ks: seq<NodeId>)
    requires forall x :: x in t ==> t[x] != map[]
    ensures forall x :: x in ListMembers(t, id, ks) ==> ListMembers(t, id, ks)[x] != map[]
  {
    if ks != [] {
      ListMembersNonEmpty(t, id, ks[..|ks| - 1]);
      assert ks[|ks| - 1] in ListMembers(t, id, ks)[id];
    }
  }

  lemma {:induction false} RowsNonEmpty(h: seq<Command>)
    ensures forall id :: id in Run(h).echos ==> Run(h).echos[id] != map[]
  {
    if h != [] {
      var n := |h| - 1;
      RowsNonEmpty(h[..n]);
      var s, c := Run(h[..n]), h[n];
      if c.data.MessageId().Some? {
        var id := c.data.MessageId().value;
        if c.Send? {
          ListMembersNonEmpty(s.echos, id, Reached(c));
        }
        assert c.data.SenderId() in Confirm(s.echos, id, c.data.SenderId())[id];
      }
    }
  }

  /** A row exists exactly for the ids under which something is listed. */
  lemma {:induction false} RowsExact(h: seq<Command>, id: MessageId)
    requires Run(h).alive
    ensures id in Run(h).echos <==> exists k :: Listed(h, id, k)
  {
    RowsNonEmpty(h);
    if id in Run(h).echos {
      var k :| k in Run(h).echos[id];
      TableExact(h, id, k);
      assert IsListed(Run(h), id, k);
    }
    if k :| Listed(h, id, k) {
      TableExact(h, id, k);
      assert IsListed(Run(h), id, k);
    }
  }

  // ---------------------------------------------------------------- waiting and answering

  lemma LastCompletes(h: seq<Command>, id: MessageId)
    requires h != [] && Run(h).alive
    ensures CompletesAt(h, |h| - 1, id) <==> EchoOf(h[|h| - 1], id) && AllEchoed(Run(h).echos, id)
  {
    assert h[..|h|] == h;
    AllEchoedExact(h, id);
  }

  lemma StepWaiter(s: Actor, c: Command, id: MessageId)
    requires s.alive && Step(s, c).alive
    ensures FullSendOf(c, id) ==> id in Step(s, c).txs && Step(s, c).txs[id] == c.respondTo
    ensures EchoOf(c, id) && AllEchoed(Step(s, c).echos, id) ==> id !in Step(s, c).txs
    ensures !FullSendOf(c, id) && !(EchoOf(c, id) && AllEchoed(Step(s, c).echos, id)) ==>
              (id in Step(s, c).txs <==> id in s.txs)
              && (id in s.txs ==> Step(s, c).txs[id] == s.txs[id])
  {
  }

  /** The waiter held for id is the one of the fully sent id that is still waiting, and there
      is one exactly when some send is waiting. */
  lemma {:induction false} WaitersExact(h: seq<Command>, id: MessageId)
    requires Run(h).alive
    ensures id in Run(h).txs <==> exists i: nat :: WaitingSince(h, i, id)
    ensures forall i: nat :: WaitingSince(h, i, id) ==> id in Run(h).txs && Run(h).txs[id] == h[i].respondTo
  {
    if h != [] {
      var n := |h| - 1;
      AlivePrefix(h, n);
      WaitersExact(h[..n], id);
      StepWaiter(Run(h[..n]), h[n], id);
      LastCompletes(h, id);
      forall i: nat | WaitingSince(h, i, id)
        ensures id in Run(h).txs && Run(h).txs[id] == h[i].respondTo
      {
        WaitingSinceStep(h, i, id);
      }
      if id in Run(h).txs {
        if FullSendOf(h[n], id) {
          WaitingSinceStep(h, n, id);
        } else {
          var i: nat :| WaitingSince(h[..n], i, id);
          WaitingSinceStep(h, i, id);
        }
      }
    }
  }

  lemma StepAnswersOk(s: Actor, c: Command, id: MessageId, w: Waiter)
    requires s.alive && Step(s, c).alive
    ensures Step(s, c).answers == s.answers + [Answer(id, w, true)]
       <==> EchoOf(c, id) && AllEchoed(Step(s, c).echos, id) && id in s.txs && s.txs[id] == w
  {
    var a := Answer(id, w, true);
    if Step(s, c).answers == s.answers + [a] {
      assert Step(s, c).answers[|s.answers|] == a;
    }
  }

  /** Exact completion: the e-th command answers waiter w of broadcast id with Ok if and only
      if it completes id while a send of id with that waiter is waiting. */
  lemma CompletionExact(h: seq<Command>, e: nat, id: MessageId, w: Waiter)
    requires e < |h| && Run(h).alive
    ensures Run(h[..e + 1]).answers == Run(h[..e]).answers + [Answer(id, w, true)]
       <==> CompletesAt(h, e, id) && exists i: nat :: WaitingSince(h[..e], i, id) && h[i].respondTo == w
  {
    AlivePrefix(h, e + 1);
    AlivePrefix(h, e);
    var g := h[..e + 1];
    assert g[..e] == h[..e] && g[e] == h[e];
    LastCompletes(g, id);
    CompletesAtPrefix(h, e + 1, e, id);
    WaitersExact(h[..e], id);
    StepAnswersOk(Run(h[..e]), h[e], id, w);
    if exists i: nat :: WaitingSince(h[..e], i, id) {
      var i: nat :| WaitingSince(h[..e], i, id);
      assert h[i] == h[..e][i];
    }
  }

  /** A command logs at most one answer. */
  lemma AnswersGrow(s: Actor, c: Command)
    ensures Step(s, c).answers == s.answers
         || (Step(s, c).answers != [] && Step(s, c).answers[..|Step(s, c).answers| - 1] == s.answers)
  {
  }

  lemma NewAnswerLast(s: Actor, c: Command, a: Answer)
    requires a in Step(s, c).answers && a !in s.answers
    ensures Step(s, c).answers == s.answers + [a]
  {
  }

  /** A node is left false by the i-th command: listed under id but not confirmed. */
  ghost predicate LeftFalse(h: seq<Command>, i: nat, id: MessageId, k: NodeId) {
    i < |h| && Listed(h[..i + 1], id, k) && !Confirmed(h[..i + 1], id, k)
  }

  ghost predicate EchoedSince(h: seq<Command>, i: nat, e: nat, id: MessageId, k: NodeId) {
    exists j :: i < j <= e < |h| && EchoOf(h[j], id) && NamesSender(h[j].data, k)
  }

  lemma BetweenSends(h: seq<Command>, i: nat, e: nat, id: MessageId, k: NodeId)
    requires i < e < |h|
    requires forall j :: i < j <= e ==> !(h[j].Send? && ForId(h[j], id))
    ensures Listed(h[..e + 1], id, k) <==> Listed(h[..i + 1], id, k) || EchoedSince(h, i, e, id, k)
    ensures Confirmed(h[..e + 1], id, k) <==> Confirmed(h[..i + 1], id, k) || EchoedSince(h, i, e, id, k)
  {
  }

  /** Until the next send of id, completion is decided by the nodes the send left false: an
      echo of id completes it exactly when each of them has echoed since the send. */
  lemma CompletionBetweenSends(h: seq<Command>, i: nat, e: nat, id: MessageId)
    requires i < e < |h| && FullSendOf(h[i], id) && EchoOf(h[e], id)
    requires forall j :: i < j <= e ==> !(h[j].Send? && ForId(h[j], id))
    ensures CompletesAt(h, e, id)
       <==> forall k :: LeftFalse(h, i, id, k) ==> EchoedSince(h, i, e, id, k)
  {
    var p, q := h[..i + 1], h[..e + 1];
    forall k ensures Listed(q, id, k) <==> Listed(p, id, k) || EchoedSince(h, i, e, id, k)
             ensures Confirmed(q, id, k) <==> Confirmed(p, id, k) || EchoedSince(h, i, e, id, k)
    {
      BetweenSends(h, i, e, id, k);
    }
    if CompletesAt(h, e, id) {
      forall k | LeftFalse(h, i, id, k) ensures EchoedSince(h, i, e, id, k) {
        assert Listed(q, id, k);
      }
    }
    if forall k :: LeftFalse(h, i, id, k) ==> EchoedSince(h, i, e, id, k) {
      forall k | Listed(q, id, k) ensures Confirmed(q, id, k) {
        if !EchoedSince(h, i, e, id, k) {
          assert !LeftFalse(h, i, id, k);
        }
      }
    }
  }

  /** The e-th command is an echo of id by which every node the i-th left false has echoed. */
  ghost predicate SettlesAt(h: seq<Command>, i: nat, e: nat, id: MessageId) {
    i < e < |h| && EchoOf(h[e], id)
    && forall k :: LeftFalse(h, i, id, k) ==> EchoedSince(h, i, e, id, k)
  }

  /** The exact completion point: between a full send of id and the next send of id, its waiter
      is answered Ok at the first echo of id that settles it, never earlier and never later. */
  lemma AnsweredAtFirstSettlingEcho(h: seq<Command>, i: nat, e: nat, id: MessageId)
    requires i < e < |h| && Run(h).alive && FullSendOf(h[i], id)
    requires forall j :: i < j <= e ==> !(h[j].Send? && ForId(h[j], id))
    ensures Run(h[..e + 1]).answers == Run(h[..e]).answers + [Answer(id, h[i].respondTo, true)]
       <==> SettlesAt(h, i, e, id) && forall j :: i < j < e ==> !SettlesAt(h, i, j, id)
  {
    CompletionExact(h, e, id, h[i].respondTo);
    forall j: nat | i < j <= e ensures CompletesAt(h, j, id) <==> SettlesAt(h, i, j, id) {
      if EchoOf(h[j], id) {
        CompletionBetweenSends(h, i, j, id);
      }
    }
    var g := h[..e];
    forall j: nat | j < e ensures CompletesAt(g, j, id) <==> CompletesAt(h, j, id) {
      CompletesAtPrefix(h, e, j, id);
    }
    forall j: nat | WaitingSince(g, j, id) ensures j == i {
      assert FullSendOf(g[i], id) && FullSendOf(g[j], id);
    }
    if forall j :: i < j < e ==> !SettlesAt(h, i, j, id) {
      assert WaitingSince(g, i, id);
    }
  }

  /** Soundness over whole runs: when a waiter is answered Ok, every member of its send has
      echoed the id or is named as originator of a fully sent broadcast of the id. */
  lemma OkMeansEveryMember(h: seq<Command>, e: nat, id: MessageId, w: Waiter)
    returns (i: nat)
    requires e < |h| && Run(h).alive
    requires forall j :: 0 <= j < |h| ==> WellFormed(h[j])
    requires Run(h[..e + 1]).answers == Run(h[..e]).answers + [Answer(id, w, true)]
    ensures i < e && FullSendOf(h[i], id) && h[i].respondTo == w
    ensures forall k :: k in h[i].members ==> Confirmed(h[..e + 1], id, k)
  {
    CompletionExact(h, e, id, w);
    i :| WaitingSince(h[..e], i, id) && h[i].respondTo == w;
    forall k | k in h[i].members ensures Confirmed(h[..e + 1], id, k) {
      assert k in h[i].order;
      assert Reached(h[i]) == h[i].order;
      assert Lists(h[..e + 1][i], id, k);
    }
  }

  /** The i-th command is the last full send of id. */
  ghost predicate LastFullSend(h: seq<Command>, i: nat, id: MessageId) {
    i < |h| && FullSendOf(h[i], id) && forall j :: i < j < |h| ==> !FullSendOf(h[j], id)
  }

  lemma LastFullSendStays(h: seq<Command>, g: seq<Command>, id: MessageId)
    requires h != [] && g == h[..|h| - 1] && !FullSendOf(h[|g|], id)
    ensures forall i: nat :: LastFullSend(h, i, id) <==> LastFullSend(g, i, id)
    ensures forall i: nat :: i < |g| ==> h[i] == g[i]
  {
  }

  lemma StepSnapshot(s: Actor, c: Command, id: MessageId)
    requires s.alive && Step(s, c).alive
    ensures FullSendOf(c, id) ==> id in Step(s, c).senders && Step(s, c).senders[id] == c.members
    ensures !FullSendOf(c, id) ==>
              (id in Step(s, c).senders <==> id in s.senders)
              && (id in s.senders ==> Step(s, c).senders[id] == s.senders[id])
  {
  }

  /** The snapshot kept for id is the member map of the last full send of id. */
  lemma {:induction false} SnapshotsExact(h: seq<Command>, id: MessageId, m: Members)
    requires Run(h).alive
    ensures id in Run(h).senders && Run(h).senders[id] == m
       <==> exists i: nat :: LastFullSend(h, i, id) && h[i].members == m
  {
    if h != [] {
      var n := |h| - 1;
      var g := h[..n];
      AlivePrefix(h, n);
      SnapshotsExact(g, id, m);
      StepSnapshot(Run(g), h[n], id);
      if FullSendOf(h[n], id) {
        assert LastFullSend(h, n, id);
      } else {
        LastFullSendStays(h, g, id);
      }
    }
  }
}
