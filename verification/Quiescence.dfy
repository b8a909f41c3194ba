/** Unicast conversations among any number of nodes.

    A packet travels on a connection between two endpoints. The event loop of the receiving
    endpoint hands it to the protocol dispatcher and sends the reply, if there is one, back
    on the same connection. Any packet in flight may be handled next, and any reply may be
    lost (the reliable sender may fail or time out). */
module Quiescence {
  import opened Protocol

  /** An endpoint; `ids` gives the node id each endpoint's node was configured with. */
  type Endpoint = nat

  datatype Packet = Packet(src: Endpoint, dst: Endpoint, body: Unicast)

  /** One handler step: which packet, what the services read, whether the reply got through. */
  datatype Choice = Choice(index: nat, env: Env, replySent: bool)

  function Replies(ids: Endpoint -> NodeId, p: Packet, c: Choice): seq<Packet> {
    match ReliableSendCall(ids(p.dst), c.env, UnicastMessage(p.body), if c.replySent then Ok(()) else Err).0
    case Some(UnicastMessage(u)) => if c.replySent then [Packet(p.dst, p.src, u)] else []
    case _ => []
  }

  function Handle(ids: Endpoint -> NodeId, pool: seq<Packet>, c: Choice): seq<Packet>
    requires c.index < |pool|
  {
    pool[..c.index] + pool[c.index + 1..] + Replies(ids, pool[c.index], c)
  }

  /** Runs the choices in order; `None` when a choice points outside the pool. */
  function Run(ids: Endpoint -> NodeId, pool: seq<Packet>, cs: seq<Choice>): Option<seq<Packet>>
    decreases cs
  {
    if cs == [] then Some(pool)
    else if cs[0].index < |pool| then Run(ids, Handle(ids, pool, cs[0]), cs[1..])
    else None
  }

  /** A heartbeat with an empty sender between two nodes whose ids are both empty. */
  predicate Endless(ids: Endpoint -> NodeId, p: Packet) {
    p.body.Heartbeat? && p.body.senderId == "" && ids(p.src) == "" && ids(p.dst) == ""
  }

  ghost predicate NoEndless(ids: Endpoint -> NodeId, pool: seq<Packet>) {
    forall i :: 0 <= i < |pool| ==> !Endless(ids, pool[i])
  }

  /** How many handler steps a packet causes when no reply is lost. */
  function Cost(ids: Endpoint -> NodeId, p: Packet): nat {
    match p.body
    case Handshake(_, text, _) => if text == "oleh" then 1 else if text == "helo" then 2 else 3
    case Ping(_, text) => if text == "" then 3 else if text == "ping" then 2 else 1
    case Heartbeat(sender, _) => if sender != "" then 1 else if ids(p.dst) != "" then 2 else 3
    case Membership(_, members) => if members.None? then 2 else 1
  }

  function TotalCost(ids: Endpoint -> NodeId, pool: seq<Packet>): nat {
    if pool == [] then 0 else Cost(ids, pool[0]) + TotalCost(ids, pool[1..])
  }

  /** A reply costs exactly one step less than what it answers, and is never endless; a reply that is
      not sent leaves nothing. */
  lemma ReplyCost(ids: Endpoint -> NodeId, p: Packet, c: Choice)
    requires !Endless(ids, p)
    ensures NoEndless(ids, Replies(ids, p, c))
    ensures 1 <= Cost(ids, p) <= 3
    ensures TotalCost(ids, Replies(ids, p, c)) + 1 <= Cost(ids, p)
    ensures c.replySent ==> TotalCost(ids, Replies(ids, p, c)) + 1 == Cost(ids, p)
    ensures !c.replySent ==> Replies(ids, p, c) == []
  {
  }

  lemma {:induction false} TotalCostAppend(ids: Endpoint -> NodeId, xs: seq<Packet>, ys: seq<Packet>)
    ensures TotalCost(ids, xs + ys) == TotalCost(ids, xs) + TotalCost(ids, ys)
  {
    if xs == [] {
      assert xs + ys == ys;
    } else {
      assert (xs + ys)[1..] == xs[1..] + ys;
      TotalCostAppend(ids, xs[1..], ys);
    }
  }

  lemma {:induction false} TotalCostBound(ids: Endpoint -> NodeId, pool: seq<Packet>)
    ensures |pool| <= TotalCost(ids, pool) <= 3 * |pool|
  {
    if pool != [] {
      TotalCostBound(ids, pool[1..]);
    }
  }

  lemma HandleNeverEndless(ids: Endpoint -> NodeId, pool: seq<Packet>, c: Choice)
    requires c.index < |pool| && NoEndless(ids, pool)
    ensures NoEndless(ids, Handle(ids, pool, c))
  {
  }

  lemma TotalCostWithout(ids: Endpoint -> NodeId, before: seq<Packet>, p: Packet, after: seq<Packet>)
    ensures TotalCost(ids, before + [p] + after) == TotalCost(ids, before) + Cost(ids, p) + TotalCost(ids, after)
  {
    TotalCostAppend(ids, before + [p], after);
    TotalCostAppend(ids, before, [p]);
    assert [p][1..] == [];
  }

  /** Taking one packet out and adding others changes the total by the difference. */
  lemma ExchangeCost(ids: Endpoint -> NodeId, before: seq<Packet>, p: Packet, after: seq<Packet>, replies: seq<Packet>)
    ensures TotalCost(ids, before + after + replies) + Cost(ids, p)
         == TotalCost(ids, before + [p] + after) + TotalCost(ids, replies)
  {
    TotalCostAppend(ids, before, after);
    TotalCostAppend(ids, before + after, replies);
    TotalCostWithout(ids, before, p, after);
  }

  lemma ReplaceCost(ids: Endpoint -> NodeId, pool: seq<Packet>, i: nat, replies: seq<Packet>)
    requires i < |pool|
    ensures TotalCost(ids, pool[..i] + pool[i + 1..] + replies) + Cost(ids, pool[i])
         == TotalCost(ids, pool) + TotalCost(ids, replies)
  {
    var whole := pool[..i] + [pool[i]] + pool[i + 1..];
    assert whole == pool;
    ExchangeCost(ids, pool[..i], pool[i], pool[i + 1..], replies);
  }

  lemma HandleCost(ids: Endpoint -> NodeId, pool: seq<Packet>, c: Choice)
    requires c.index < |pool| && !Endless(ids, pool[c.index])
    ensures TotalCost(ids, Handle(ids, pool, c)) + 1 <= TotalCost(ids, pool)
    ensures c.replySent ==> TotalCost(ids, Handle(ids, pool, c)) + 1 == TotalCost(ids, pool)
  {
    ReplyCost(ids, pool[c.index], c);
    ReplaceCost(ids, pool, c.index, Replies(ids, pool[c.index], c));
  }

  /** Every run, over any number of nodes: each step uses up at least one unit of the cost of
      what was in flight at the start, and exactly one when no reply is lost. */
  lemma {:induction false} RunCost(ids: Endpoint -> NodeId, pool: seq<Packet>, cs: seq<Choice>)
    requires NoEndless(ids, pool)
    requires Run(ids, pool, cs).Some?
    ensures |cs| + TotalCost(ids, Run(ids, pool, cs).value) <= TotalCost(ids, pool) <= 3 * |pool|
    ensures (forall i :: 0 <= i < |cs| ==> cs[i].replySent)
            ==> |cs| + TotalCost(ids, Run(ids, pool, cs).value) == TotalCost(ids, pool)
    decreases cs
  {
    TotalCostBound(ids, pool);
    if cs != [] {
      HandleCost(ids, pool, cs[0]);
      HandleNeverEndless(ids, pool, cs[0]);
      RunCost(ids, Handle(ids, pool, cs[0]), cs[1..]);
    }
  }

  /** A run in which no reply is lost falls silent after exactly the cost of its start. */
  lemma SilenceExactlyAtCost(ids: Endpoint -> NodeId, pool: seq<Packet>, cs: seq<Choice>)
    requires NoEndless(ids, pool)
    requires Run(ids, pool, cs).Some?
    requires forall i :: 0 <= i < |cs| ==> cs[i].replySent
    ensures Run(ids, pool, cs).value == [] <==> |cs| == TotalCost(ids, pool)
  {
    RunCost(ids, pool, cs);
    TotalCostBound(ids, Run(ids, pool, cs).value);
  }

  /** From a pool that holds an endless packet there are runs of every length. */
  lemma {:induction false} EndlessRuns(ids: Endpoint -> NodeId, pool: seq<Packet>, at: nat, n: nat)
    returns (cs: seq<Choice>)
    requires at < |pool| && Endless(ids, pool[at])
    ensures |cs| == n && Run(ids, pool, cs).Some?
    decreases n
  {
    if n == 0 {
      cs := [];
    } else {
      var c := Choice(at, Env(0, [], 0), true);
      var next := Handle(ids, pool, c);
      var p := Packet(pool[at].dst, pool[at].src, Heartbeat("", 0));
      assert Replies(ids, pool[at], c) == [p];
      assert next[|next| - 1] == p;
      var rest := EndlessRuns(ids, next, |next| - 1, n - 1);
      cs := [c] + rest;
      assert cs[1..] == rest;
    }
  }

  /** The packets travel between the same two endpoints, in the same direction or opposite ones, and
      carry messages of the same kind. */
  predicate SameConversation(p: Packet, q: Packet) {
    && ((p.src == q.src && p.dst == q.dst) || (p.src == q.dst && p.dst == q.src))
    && (p.body.Handshake? <==> q.body.Handshake?) && (p.body.Ping? <==> q.body.Ping?)
    && (p.body.Heartbeat? <==> q.body.Heartbeat?) && (p.body.Membership? <==> q.body.Membership?)
  }

  lemma HandledConversation(ids: Endpoint -> NodeId, pool: seq<Packet>, c: Choice, p: Packet)
    requires c.index < |pool| && p in Handle(ids, pool, c)
    ensures p in pool || (SameConversation(p, pool[c.index]) && p.src == pool[c.index].dst)
  {
  }

  /** Every packet of a run belongs to a conversation that was in flight at the start. */
  lemma {:induction false} ConversationsStay(ids: Endpoint -> NodeId, pool: seq<Packet>, cs: seq<Choice>, p: Packet)
    returns (q: Packet)
    requires Run(ids, pool, cs).Some? && p in Run(ids, pool, cs).value
    ensures q in pool && SameConversation(p, q)
    decreases cs
  {
    if cs == [] {
      q := p;
    } else {
      var r := ConversationsStay(ids, Handle(ids, pool, cs[0]), cs[1..], p);
      HandledConversation(ids, pool, cs[0], r);
      q := if r in pool then r else pool[cs[0].index];
    }
  }

  ghost predicate BoundedBy(ids: Endpoint -> NodeId, pool: seq<Packet>, bound: nat) {
    forall cs :: Run(ids, pool, cs).Some? ==> |cs| <= bound
  }

  /** k packets cause at most 3k handler steps if and only if no empty-sender heartbeat is in
      flight between two nodes with empty ids. */
  lemma QuiescenceIff(ids: Endpoint -> NodeId, pool: seq<Packet>)
    ensures BoundedBy(ids, pool, 3 * |pool|) <==> NoEndless(ids, pool)
  {
    if NoEndless(ids, pool) {
      forall cs | Run(ids, pool, cs).Some? ensures |cs| <= 3 * |pool| {
        RunCost(ids, pool, cs);
      }
    } else {
      var at :| 0 <= at < |pool| && Endless(ids, pool[at]);
      var cs := EndlessRuns(ids, pool, at, 3 * |pool| + 1);
      assert !BoundedBy(ids, pool, 3 * |pool|);
    }
  }

  /** The case the program runs in: node ids are bind addresses, so none is empty. */
  lemma NamedNodesFallSilent(ids: Endpoint -> NodeId, pool: seq<Packet>)
    requires forall p: Packet :: p in pool ==> ids(p.dst) != ""
    ensures BoundedBy(ids, pool, 3 * |pool|)
  {
    QuiescenceIff(ids, pool);
  }
}
