/** What a member snapshot means for a broadcast.

    A broadcast made through the service reads the members once, and its command reaches the
    echo actor some time later; membership commands, echoes and other broadcasts may come in
    between. The results here speak of the events at the node alone. */
module Snapshots {
  import opened Protocol
  import opened EchoBroadcast
  import opened EchoHistory
  import opened Membership
  import EchoFates

  /** What happens at a node: `Sent` is a broadcast whose members were read after the first
      `readAt` of these events and whose command is handled now. */
  datatype NodeEvent =
    | Member(command: MemberCommand)
    | Sent(data: Message, readAt: nat, respondTo: Waiter, order: seq<NodeId>, outcomes: seq<bool>)
    | Echoed(data: Message)

  function MemberCommands(evs: seq<NodeEvent>): seq<MemberCommand> {
    if evs == [] then []
    else MemberCommands(evs[..|evs| - 1]) + (if evs[|evs| - 1].Member? then [evs[|evs| - 1].command] else [])
  }

  function UpTo(evs: seq<NodeEvent>, n: nat): seq<NodeEvent> {
    if n <= |evs| then evs[..n] else evs
  }

  /** The members as of the first n events. */
  function MembersAfter(evs: seq<NodeEvent>, n: nat): Members {
    Fold(MemberCommands(UpTo(evs, n)))
  }

  /** The commands the echo actor handles. */
  function History(evs: seq<NodeEvent>): seq<Command> {
    if evs == [] then []
    else
      var g := evs[..|evs| - 1];
      match evs[|evs| - 1]
      case Member(_) => History(g)
      case Sent(data, readAt, w, order, outcomes) =>
        History(g) + [Send(data, MembersAfter(g, readAt), w, order, outcomes)]
      case Echoed(data) => History(g) + [Echo(data)]
  }

  predicate SendsId(ev: NodeEvent, id: MessageId) {
    ev.Sent? && HasId(ev.data, id)
  }

  predicate EchoesId(ev: NodeEvent, id: MessageId) {
    ev.Echoed? && HasId(ev.data, id)
  }

  // ---------------------------------------------------------------- the members at an event

  predicate Concerns(ev: NodeEvent, k: NodeId) {
    ev.Member? && Names(ev.command, k)
  }

  /** The last membership event naming k added it with handle h. */
  ghost predicate JoinedLast(evs: seq<NodeEvent>, k: NodeId, h: Handle) {
    exists i :: 0 <= i < |evs| && evs[i] == Member(Add(k, h)) && forall j :: i < j < |evs| ==> !Concerns(evs[j], k)
  }

  lemma JoinedLastStep(evs: seq<NodeEvent>, g: seq<NodeEvent>, k: NodeId, h: Handle)
    requires evs != [] && g == evs[..|evs| - 1]
    ensures JoinedLast(evs, k, h)
       <==> if Concerns(evs[|g|], k) then evs[|g|] == Member(Add(k, h)) else JoinedLast(g, k, h)
  {
    if JoinedLast(g, k, h) && !Concerns(evs[|g|], k) {
      var i :| 0 <= i < |g| && g[i] == Member(Add(k, h)) && forall j :: i < j < |g| ==> !Concerns(g[j], k);
      assert evs[i] == g[i];
      assert forall j :: i < j < |evs| ==> !Concerns(evs[j], k);
    }
    if JoinedLast(evs, k, h) {
      var i :| 0 <= i < |evs| && evs[i] == Member(Add(k, h)) && forall j :: i < j < |evs| ==> !Concerns(evs[j], k);
      assert i < |g| ==> g[i] == evs[i];
    }
  }

  lemma FoldSnoc(cs: seq<MemberCommand>, c: MemberCommand)
    ensures Fold(cs + [c]) == Apply(Fold(cs), c)
  {
    assert (cs + [c])[..|cs|] == cs;
  }

  lemma {:induction false} MembersExact(evs: seq<NodeEvent>, k: NodeId, h: Handle)
    ensures Lookup(Fold(MemberCommands(evs)), k) == Some(h) <==> JoinedLast(evs, k, h)
  {
    if evs != [] {
      var g := evs[..|evs| - 1];
      MembersExact(g, k, h);
      JoinedLastStep(evs, g, k, h);
      if evs[|g|].Member? {
        FoldSnoc(MemberCommands(g), evs[|g|].command);
      } else {
        assert MemberCommands(evs) == MemberCommands(g);
      }
    }
  }

  /** The map holds the nodes whose last membership event before the snapshot was an Add, each with
      the handle of that Add. */
  ghost predicate SnapshotAt(evs: seq<NodeEvent>, readAt: nat, members: Members) {
    forall k, h: Handle :: (k in members && members[k] == h) <==> JoinedLast(UpTo(evs, readAt), k, h)
  }

  lemma SnapshotExact(evs: seq<NodeEvent>, readAt: nat)
    ensures SnapshotAt(evs, readAt, MembersAfter(evs, readAt))
  {
    forall k, h: Handle
      ensures Lookup(MembersAfter(evs, readAt), k) == Some(h) <==> JoinedLast(UpTo(evs, readAt), k, h)
    {
      MembersExact(UpTo(evs, readAt), k, h);
    }
  }

  // ---------------------------------------------------------------- commands and their events

  /** The command is the one the n-th event causes. */
  ghost predicate CausedBy(c: Command, evs: seq<NodeEvent>, n: nat)
    requires n < |evs|
  {
    match evs[n]
    case Member(_) => false
    case Sent(data, readAt, w, order, outcomes) =>
      c.Send? && c == Send(data, c.members, w, order, outcomes) && SnapshotAt(evs[..n], readAt, c.members)
    case Echoed(data) => c == Echo(data)
  }

  /** The commands are those of the events that are no membership commands, in order: the c-th is
      caused by the event at of[c], and the n-th event causes the command at[n]. */
  ghost predicate Aligned(evs: seq<NodeEvent>, h: seq<Command>, of: seq<nat>, at: seq<nat>) {
    && |of| == |h| && |at| == |evs|
    && (forall c :: 0 <= c < |h| ==> of[c] < |evs| && at[of[c]] == c && CausedBy(h[c], evs, of[c]))
    && (forall c, d :: 0 <= c < d < |h| ==> of[c] < of[d])
    && (forall n :: 0 <= n < |evs| && !evs[n].Member? ==> at[n] < |h| && of[at[n]] == n)
  }

  lemma CausedByPrefix(c: Command, evs: seq<NodeEvent>, g: seq<NodeEvent>, n: nat)
    requires n < |g| && g <= evs && CausedBy(c, g, n)
    ensures CausedBy(c, evs, n)
  {
    assert evs[..n] == g[..n];
  }

  lemma CausesStay(evs: seq<NodeEvent>, g: seq<NodeEvent>, h: seq<Command>, of: seq<nat>, at: seq<nat>)
    requires g <= evs && Aligned(g, h, of, at)
    ensures forall c :: 0 <= c < |h| ==> CausedBy(h[c], evs, of[c])
  {
    forall c | 0 <= c < |h| ensures CausedBy(h[c], evs, of[c]) {
      CausedByPrefix(h[c], evs, g, of[c]);
    }
  }

  lemma AlignedSkip(evs: seq<NodeEvent>, g: seq<NodeEvent>, h: seq<Command>, of: seq<nat>, at: seq<nat>)
    requires evs != [] && g == evs[..|evs| - 1] && Aligned(g, h, of, at) && evs[|g|].Member?
    ensures Aligned(evs, h, of, at + [0])
  {
    CausesStay(evs, g, h, of, at);
  }

  lemma AlignedSnoc(evs: seq<NodeEvent>, g: seq<NodeEvent>, h: seq<Command>, c: Command, of: seq<nat>, at: seq<nat>)
    requires evs != [] && g == evs[..|evs| - 1] && Aligned(g, h, of, at) && CausedBy(c, evs, |g|)
    ensures Aligned(evs, h + [c], of + [|g|], at + [|h|])
  {
    CausesStay(evs, g, h, of, at);
  }

  lemma LastCaused(evs: seq<NodeEvent>) returns (c: Command)
    requires evs != [] && !evs[|evs| - 1].Member?
    ensures History(evs) == History(evs[..|evs| - 1]) + [c] && CausedBy(c, evs, |evs| - 1)
  {
    var g, ev := evs[..|evs| - 1], evs[|evs| - 1];
    if ev.Sent? {
      c := Send(ev.data, MembersAfter(g, ev.readAt), ev.respondTo, ev.order, ev.outcomes);
      SnapshotExact(g, ev.readAt);
    } else {
      c := Echo(ev.data);
    }
  }

  lemma MemberAddsNothing(evs: seq<NodeEvent>)
    requires evs != [] && evs[|evs| - 1].Member?
    ensures History(evs) == History(evs[..|evs| - 1])
  {
  }

  lemma AlignStep(evs: seq<NodeEvent>, g: seq<NodeEvent>, h: seq<Command>, of: seq<nat>, at: seq<nat>)
    returns (of': seq<nat>, at': seq<nat>)
    requires evs != [] && g == evs[..|evs| - 1] && h == History(g) && Aligned(g, h, of, at)
    ensures Aligned(evs, History(evs), of', at')
  {
    if evs[|g|].Member? {
      MemberAddsNothing(evs);
      AlignedSkip(evs, g, h, of, at);
      of', at' := of, at + [0];
    } else {
      var c := LastCaused(evs);
      AlignedSnoc(evs, g, h, c, of, at);
      of', at' := of + [|g|], at + [|h|];
    }
  }

  /** The history is aligned with the events. */
  lemma {:induction false} HistoryExact(evs: seq<NodeEvent>) returns (of: seq<nat>, at: seq<nat>)
    ensures Aligned(evs, History(evs), of, at)
  {
    of, at := [], [];
    if evs != [] {
      var g := evs[..|evs| - 1];
      of, at := HistoryExact(g);
      of, at := AlignStep(evs, g, History(g), of, at);
    }
  }

  // ---------------------------------------------------------------- later events

  /** The echoes of one id among the events. */
  function EchoesOf(evs: seq<NodeEvent>, id: MessageId): seq<Command> {
    if evs == [] then []
    else
      var ev := evs[|evs| - 1];
      EchoesOf(evs[..|evs| - 1], id) + (if EchoesId(ev, id) then [Echo(ev.data)] else [])
  }

  lemma {:induction false} ProjectGrows(pre: seq<NodeEvent>, post: seq<NodeEvent>, id: MessageId)
    requires forall i :: 0 <= i < |post| ==> !SendsId(post[i], id)
    ensures EchoFates.Project(History(pre + post), id)
         == EchoFates.Project(History(pre), id) + EchoesOf(post, id)
  {
    if post == [] {
      assert pre + post == pre;
    } else {
      var n := |post| - 1;
      var g := post[..n];
      assert (pre + post)[..|pre + post| - 1] == pre + g;
      assert !SendsId(post[n], id);
      ProjectGrows(pre, g, id);
      if !post[n].Member? {
        assert History(pre + post)[..|History(pre + post)| - 1] == History(pre + g);
      }
    }
  }

  /** What happens to a broadcast afterwards depends on its echoes alone: two continuations of a
      run, with any membership commands and any other broadcasts, agree on everything that concerns
      id as soon as they have the same echoes of id and do not send it again. */
  lemma LaterMembersIrrelevant(pre: seq<NodeEvent>, post: seq<NodeEvent>, post': seq<NodeEvent>, id: MessageId)
    requires forall i :: 0 <= i < |post| ==> !SendsId(post[i], id)
    requires forall i :: 0 <= i < |post'| ==> !SendsId(post'[i], id)
    requires EchoesOf(post, id) == EchoesOf(post', id)
    requires Run(History(pre + post)).alive && Run(History(pre + post')).alive
    ensures EchoFates.AgreeOn(Run(History(pre + post)), Run(History(pre + post')), id)
  {
    ProjectGrows(pre, post, id);
    ProjectGrows(pre, post', id);
    EchoFates.BroadcastsIndependent(History(pre + post), id);
    EchoFates.BroadcastsIndependent(History(pre + post'), id);
  }

  // ---------------------------------------------------------------- completion

  /** Some event is an echo of id from k. */
  ghost predicate Heard(evs: seq<NodeEvent>, id: MessageId, k: NodeId) {
    exists i :: 0 <= i < |evs| && EchoesId(evs[i], id) && NamesSender(evs[i].data, k)
  }

  /** As of the snapshot of the n-th event, k's last membership event was an Add. */
  ghost predicate InSnapshot(evs: seq<NodeEvent>, n: nat, k: NodeId)
    requires n < |evs| && evs[n].Sent?
  {
    exists h: Handle :: JoinedLast(UpTo(evs[..n], evs[n].readAt), k, h)
  }

  /** The n-th event broadcasts id for the first time, walks the members of its snapshot once each
      and reaches them all. */
  ghost predicate FreshSend(evs: seq<NodeEvent>, n: nat, id: MessageId) {
    && n < |evs| && SendsId(evs[n], id)
    && (forall j :: 0 <= j < n ==> !SendsId(evs[j], id))
    && |evs[n].outcomes| == |evs[n].order|
    && (forall j :: 0 <= j < |evs[n].outcomes| ==> evs[n].outcomes[j])
    && (forall i, j :: 0 <= i < j < |evs[n].order| ==> evs[n].order[i] != evs[n].order[j])
    && (forall k :: k in evs[n].order <==> InSnapshot(evs, n, k))
  }

  /** The e-th event is an echo of id by which every member of the n-th event's snapshot, except the
      originator, has echoed id. */
  ghost predicate SettledAt(evs: seq<NodeEvent>, n: nat, e: nat, id: MessageId) {
    && n < e < |evs| && evs[n].Sent? && EchoesId(evs[e], id)
    && forall k :: InSnapshot(evs, n, k) && !NamesSender(evs[n].data, k) ==> Heard(evs[..e + 1], id, k)
  }

  /** And no earlier event is. */
  ghost predicate FirstSettledAt(evs: seq<NodeEvent>, n: nat, e: nat, id: MessageId) {
    SettledAt(evs, n, e, id) && forall j :: n < j < e ==> !SettledAt(evs, n, j, id)
  }

  ghost predicate EchoedBy(h: seq<Command>, c: nat, id: MessageId, k: NodeId) {
    exists i :: 0 <= i <= c < |h| && EchoOf(h[i], id) && NamesSender(h[i].data, k)
  }

  lemma HeardIff(evs: seq<NodeEvent>, h: seq<Command>, of: seq<nat>, at: seq<nat>, c: nat, id: MessageId, k: NodeId)
    requires Aligned(evs, h, of, at) && c < |h|
    ensures Heard(evs[..of[c] + 1], id, k) <==> EchoedBy(h, c, id, k)
  {
    var g := evs[..of[c] + 1];
    if Heard(g, id, k) {
      var i :| 0 <= i < |g| && EchoesId(g[i], id) && NamesSender(g[i].data, k);
      assert CausedBy(h[at[i]], evs, of[at[i]]);
      assert at[i] <= c;
    }
    if EchoedBy(h, c, id, k) {
      var i :| 0 <= i <= c < |h| && EchoOf(h[i], id) && NamesSender(h[i].data, k);
      assert CausedBy(h[i], evs, of[i]);
      assert of[i] <= of[c] && g[of[i]] == evs[of[i]];
    }
  }

  /** The command of a fresh send. */
  lemma SendCommand(evs: seq<NodeEvent>, h: seq<Command>, of: seq<nat>, at: seq<nat>, n: nat, id: MessageId)
    requires Aligned(evs, h, of, at) && FreshSend(evs, n, id)
    ensures var i := at[n];
      && i < |h| && FullSendOf(h[i], id) && h[i].respondTo == evs[n].respondTo && h[i].data == evs[n].data
      && (forall k :: k in Reached(h[i]) <==> InSnapshot(evs, n, k))
      && forall j :: 0 <= j < i ==> !(h[j].Send? && ForId(h[j], id))
  {
    var i := at[n];
    assert CausedBy(h[i], evs, of[i]);
    SuccessesIs(h[i].outcomes, |h[i].outcomes|);
    assert Reached(h[i]) == h[i].order;
    forall j | 0 <= j < i ensures !(h[j].Send? && ForId(h[j], id)) {
      assert of[j] < of[i] && CausedBy(h[j], evs, of[j]);
    }
  }

  lemma EarlierEchoes(h: seq<Command>, i: nat, id: MessageId, k: NodeId)
    requires i < |h| && FullSendOf(h[i], id) && forall j :: 0 <= j < i ==> !(h[j].Send? && ForId(h[j], id))
    ensures LeftFalse(h, i, id, k)
       <==> k in Reached(h[i]) && !NamesSender(h[i].data, k) && !EchoedBy(h, i, id, k)
  {
    var g := h[..i + 1];
    assert g[..i] == h[..i];
    ListedStep(g, id, k);
    assert Listed(h[..i], id, k) <==> EchoedBy(h, i, id, k);
    assert Confirmed(h[..i], id, k) <==> EchoedBy(h, i, id, k);
  }

  /** Right after a fully sent broadcast with a fresh id, the nodes it waits for are exactly the
      members of its snapshot, less the originator and the nodes that echoed already. */
  lemma WaitsForSnapshot(evs: seq<NodeEvent>, h: seq<Command>, of: seq<nat>, at: seq<nat>,
                         n: nat, id: MessageId, k: NodeId)
    requires Aligned(evs, h, of, at) && FreshSend(evs, n, id)
    ensures LeftFalse(h, at[n], id, k)
       <==> InSnapshot(evs, n, k) && !NamesSender(evs[n].data, k) && !Heard(evs[..n], id, k)
  {
    SendCommand(evs, h, of, at, n, id);
    EarlierEchoes(h, at[n], id, k);
    HeardIff(evs, h, of, at, at[n], id, k);
    assert evs[..n + 1] == evs[..n] + [evs[n]];
  }

  lemma SettlesIff(h: seq<Command>, i: nat, c: nat, id: MessageId)
    requires i < c < |h| && FullSendOf(h[i], id) && forall j :: 0 <= j < i ==> !(h[j].Send? && ForId(h[j], id))
    ensures SettlesAt(h, i, c, id)
       <==> EchoOf(h[c], id)
            && forall k :: k in Reached(h[i]) && !NamesSender(h[i].data, k) ==> EchoedBy(h, c, id, k)
  {
    forall k
      ensures LeftFalse(h, i, id, k) <==> k in Reached(h[i]) && !NamesSender(h[i].data, k) && !EchoedBy(h, i, id, k)
      ensures EchoedBy(h, c, id, k) <==> EchoedBy(h, i, id, k) || EchoedSince(h, i, c, id, k)
    {
      EarlierEchoes(h, i, id, k);
    }
  }

  /** Being settled is the same for an event and for its command. */
  lemma SettledAgrees(evs: seq<NodeEvent>, h: seq<Command>, of: seq<nat>, at: seq<nat>, n: nat, c: nat, id: MessageId)
    requires Aligned(evs, h, of, at) && FreshSend(evs, n, id) && at[n] < c < |h|
    ensures SettlesAt(h, at[n], c, id) <==> SettledAt(evs, n, of[c], id)
  {
    SendCommand(evs, h, of, at, n, id);
    SettlesIff(h, at[n], c, id);
    assert of[at[n]] < of[c] && CausedBy(h[c], evs, of[c]);
    forall k ensures Heard(evs[..of[c] + 1], id, k) <==> EchoedBy(h, c, id, k) {
      HeardIff(evs, h, of, at, c, id, k);
    }
  }

  lemma FirstSettledAgrees(evs: seq<NodeEvent>, h: seq<Command>, of: seq<nat>, at: seq<nat>,
                           n: nat, c: nat, id: MessageId)
    requires Aligned(evs, h, of, at) && FreshSend(evs, n, id) && at[n] < c < |h|
    ensures (forall d :: at[n] < d < c ==> !SettlesAt(h, at[n], d, id))
       <==> (forall e :: n < e < of[c] ==> !SettledAt(evs, n, e, id))
  {
    SendCommand(evs, h, of, at, n, id);
    forall d: nat | at[n] < d < c ensures SettlesAt(h, at[n], d, id) <==> SettledAt(evs, n, of[d], id) {
      SettledAgrees(evs, h, of, at, n, d, id);
    }
    if e :| n < e < of[c] && SettledAt(evs, n, e, id) {
      assert of[at[e]] == e && at[n] < at[e] < c;
    }
    if d :| at[n] < d < c && SettlesAt(h, at[n], d, id) {
      assert n < of[d] < of[c];
    }
  }

  lemma LastCommand(evs: seq<NodeEvent>, h: seq<Command>, of: seq<nat>, at: seq<nat>)
    requires Aligned(evs, h, of, at) && evs != [] && !evs[|evs| - 1].Member?
    ensures h != [] && of[|h| - 1] == |evs| - 1
    ensures forall n :: 0 <= n < |evs| - 1 && !evs[n].Member? ==> at[n] < |h| - 1
  {
    assert at[|evs| - 1] < |h|;
  }

  lemma NoSendAfter(evs: seq<NodeEvent>, h: seq<Command>, of: seq<nat>, at: seq<nat>, n: nat, id: MessageId)
    requires Aligned(evs, h, of, at) && n < |evs| && evs[n].Sent?
    requires forall j :: n < j < |evs| ==> !SendsId(evs[j], id)
    ensures forall c :: at[n] < c < |h| ==> !(h[c].Send? && ForId(h[c], id))
  {
    forall c | at[n] < c < |h| ensures !(h[c].Send? && ForId(h[c], id)) {
      assert of[at[n]] < of[c] && CausedBy(h[c], evs, of[c]);
    }
  }

  lemma LastCommandAnswers(h: seq<Command>, g: seq<Command>, i: nat, id: MessageId)
    requires h != [] && g == h[..|h| - 1] && i < |g| && Run(h).alive && FullSendOf(h[i], id)
    requires forall c :: i < c < |h| ==> !(h[c].Send? && ForId(h[c], id))
    ensures Run(h).answers == Run(g).answers + [Answer(id, h[i].respondTo, true)]
       <==> SettlesAt(h, i, |g|, id) && forall d :: i < d < |g| ==> !SettlesAt(h, i, d, id)
  {
    assert h[..|g| + 1] == h && h[..|g|] == g;
    AnsweredAtFirstSettlingEcho(h, i, |g|, id);
  }

  /** The command of a fresh send, and whether the last command is the first to settle it. */
  lemma LastSettled(evs: seq<NodeEvent>, h: seq<Command>, of: seq<nat>, at: seq<nat>, n: nat, id: MessageId)
    returns (i: nat)
    requires Aligned(evs, h, of, at) && n + 1 < |evs| && FreshSend(evs, n, id) && !evs[|evs| - 1].Member?
    requires forall j :: n < j < |evs| ==> !SendsId(evs[j], id)
    ensures i + 1 < |h| && FullSendOf(h[i], id) && h[i].respondTo == evs[n].respondTo
    ensures forall c :: i < c < |h| ==> !(h[c].Send? && ForId(h[c], id))
    ensures (SettlesAt(h, i, |h| - 1, id) && forall d :: i < d < |h| - 1 ==> !SettlesAt(h, i, d, id))
       <==> FirstSettledAt(evs, n, |evs| - 1, id)
  {
    i := at[n];
    LastCommand(evs, h, of, at);
    SendCommand(evs, h, of, at, n, id);
    NoSendAfter(evs, h, of, at, n, id);
    SettledAgrees(evs, h, of, at, n, |h| - 1, id);
    FirstSettledAgrees(evs, h, of, at, n, |h| - 1, id);
  }

  lemma LastEventAnswers(evs: seq<NodeEvent>, n: nat, id: MessageId)
    requires n + 1 < |evs| && FreshSend(evs, n, id) && !evs[|evs| - 1].Member?
    requires forall j :: n < j < |evs| ==> !SendsId(evs[j], id)
    requires Run(History(evs)).alive
    ensures Run(History(evs)).answers
         == Run(History(evs[..|evs| - 1])).answers + [Answer(id, evs[n].respondTo, true)]
       <==> FirstSettledAt(evs, n, |evs| - 1, id)
  {
    var of, at := HistoryExact(evs);
    var c := LastCaused(evs);
    assert History(evs)[..|History(evs)| - 1] == History(evs[..|evs| - 1]);
    var i := LastSettled(evs, History(evs), of, at, n, id);
    LastCommandAnswers(History(evs), History(evs[..|evs| - 1]), i, id);
  }

  lemma SettledPrefix(evs: seq<NodeEvent>, g: seq<NodeEvent>, n: nat, e: nat, id: MessageId)
    requires n < e < |g| && g <= evs
    ensures SettledAt(g, n, e, id) <==> SettledAt(evs, n, e, id)
  {
    assert g[..n] == evs[..n] && g[..e + 1] == evs[..e + 1];
    if evs[n].Sent? {
      forall k ensures InSnapshot(g, n, k) <==> InSnapshot(evs, n, k) {
      }
    }
  }

  lemma FreshPrefix(evs: seq<NodeEvent>, g: seq<NodeEvent>, n: nat, id: MessageId)
    requires FreshSend(evs, n, id) && g <= evs && n < |g|
    ensures FreshSend(g, n, id)
  {
    assert g[..n] == evs[..n];
    forall k ensures InSnapshot(g, n, k) <==> InSnapshot(evs, n, k) {
    }
  }

  lemma FirstSettledPrefix(evs: seq<NodeEvent>, g: seq<NodeEvent>, n: nat, e: nat, id: MessageId)
    requires n < e < |g| && g <= evs
    ensures FirstSettledAt(g, n, e, id) <==> FirstSettledAt(evs, n, e, id)
  {
    forall j: nat | n < j <= e ensures SettledAt(g, n, j, id) <==> SettledAt(evs, n, j, id) {
      SettledPrefix(evs, g, n, j, id);
    }
  }

  /** Snapshot semantics: whatever membership commands come after the snapshot and whatever else the
      node broadcasts, the broadcast is answered Ok at the first echo by which every node that was a
      member at the snapshot has echoed, and at no other event. */
  lemma SnapshotDecidesCompletion(evs: seq<NodeEvent>, n: nat, e: nat, id: MessageId)
    requires n < e < |evs| && FreshSend(evs, n, id)
    requires forall j :: n < j <= e ==> !SendsId(evs[j], id)
    requires Run(History(evs[..e + 1])).alive
    ensures Run(History(evs[..e + 1])).answers
         == Run(History(evs[..e])).answers + [Answer(id, evs[n].respondTo, true)]
       <==> FirstSettledAt(evs, n, e, id)
  {
    var g := evs[..e + 1];
    assert g[..e] == evs[..e];
    FirstSettledPrefix(evs, g, n, e, id);
    if !evs[e].Member? {
      FreshPrefix(evs, g, n, id);
      LastEventAnswers(g, n, id);
    } else {
      MemberAddsNothing(g);
    }
  }
}
