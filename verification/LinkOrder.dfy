/** What an ordered stream guarantees.

    Everything on its way from x to y forms one sequence: the frame y is acknowledging, y's
    subscription queue, the frame y's connection holds, the stream, and the frame x is waiting
    to have written. Most steps only move the boundaries between these five. */
module LinkOrder {
  import opened ReliableLink

  function Head(y: End): seq<Frame> {
    if y.phase.Acking? then [Data(y.phase.msg, y.phase.number)] else []
  }

  function Held(y: End): seq<Frame> {
    if y.conn.Open? && y.conn.holding.Some? then [y.conn.holding.value] else []
  }

  function Tail(x: End): seq<Frame> {
    if x.conn.Open? && x.phase.Sending? then [x.phase.frame] else []
  }

  /** What x has sent and y has not yet read. */
  function Leaving(x: End, stream: seq<Frame>): seq<Frame> {
    stream + Tail(x)
  }

  /** What y has read or is handling. */
  function Arrived(y: End): seq<Frame> {
    Head(y) + y.inbox + Held(y)
  }

  function Transit(x: End, y: End, stream: seq<Frame>): seq<Frame> {
    Arrived(y) + Leaving(x, stream)
  }

  function Datas(fs: seq<Frame>): seq<Frame> {
    if fs == [] then []
    else (if fs[0].Data? then [fs[0]] else []) + Datas(fs[1..])
  }

  function Acks(fs: seq<Frame>): seq<nat> {
    if fs == [] then []
    else (if fs[0].Ack? then [fs[0].number] else []) + Acks(fs[1..])
  }

  lemma {:induction false} DatasAppend(fs: seq<Frame>, gs: seq<Frame>)
    ensures Datas(fs + gs) == Datas(fs) + Datas(gs)
  {
    if fs == [] {
      assert fs + gs == gs;
    } else {
      DatasAppend(fs[1..], gs);
      assert (fs + gs)[0] == fs[0] && (fs + gs)[1..] == fs[1..] + gs;
    }
  }

  lemma {:induction false} AcksAppend(fs: seq<Frame>, gs: seq<Frame>)
    ensures Acks(fs + gs) == Acks(fs) + Acks(gs)
  {
    if fs == [] {
      assert fs + gs == gs;
    } else {
      AcksAppend(fs[1..], gs);
      assert (fs + gs)[0] == fs[0] && (fs + gs)[1..] == fs[1..] + gs;
    }
  }

  lemma FilterOne(f: Frame)
    ensures Datas([f]) == if f.Data? then [f] else []
    ensures Acks([f]) == if f.Ack? then [f.number] else []
  {
  }

  lemma FilterSnoc(fs: seq<Frame>, f: Frame)
    ensures Datas(fs + [f]) == Datas(fs) + (if f.Data? then [f] else [])
    ensures Acks(fs + [f]) == Acks(fs) + (if f.Ack? then [f.number] else [])
  {
    DatasAppend(fs, [f]);
    AcksAppend(fs, [f]);
    FilterOne(f);
  }

  lemma FilterCons(f: Frame, fs: seq<Frame>)
    ensures Datas([f] + fs) == (if f.Data? then [f] else []) + Datas(fs)
    ensures Acks([f] + fs) == (if f.Ack? then [f.number] else []) + Acks(fs)
  {
  }

  /** Frames a step of an end adds to what is leaving it. */
  function Added(e: End, act: Act): seq<Frame> {
    if act.TakeCommand? && e.commands != [] then [Data(e.commands[0].msg, NextNumber(e.sequenceNumber))]
    else if act.Write? && e.phase.Acking? then [Ack(e.phase.number)]
    else []
  }

  /** Frames a step of an end takes off what is arriving at it. */
  function Removed(e: End, act: Act): seq<Frame> {
    if act.Write? then Head(e)
    else if act.TakeFrame? && e.inbox != [] && e.inbox[0].Ack? then [e.inbox[0]]
    else []
  }

  lemma LeavingStep(l: Local, act: Act)
    requires Enabled(l, act) && !act.Close? && l.end.conn.Open?
    ensures Leaving(Next(l, act).end, Next(l, act).out) == Leaving(l.end, l.out) + Added(l.end, act)
  {
  }

  lemma ArrivedTakeFrame(e: End)
    requires e.phase.Idle? && e.inbox != []
    ensures Arrived(e) == (if e.inbox[0].Ack? then [e.inbox[0]] else []) + Arrived(TakeFrameOf(e))
  {
  }

  lemma ArrivedPush(l: Local)
    requires Enabled(l, Push)
    ensures Arrived(Next(l, Push).end) == Arrived(l.end)
  {
  }

  lemma ArrivedStep(l: Local, act: Act)
    requires Enabled(l, act) && !act.Close? && l.end.conn.Open? && !act.Read?
    ensures Arrived(l.end) == Removed(l.end, act) + Arrived(Next(l, act).end)
    ensures Next(l, act).inc == l.inc
  {
    var e, e' := l.end, Next(l, act).end;
    if act.TakeFrame? {
      ArrivedTakeFrame(e);
    } else if act.Push? {
      ArrivedPush(l);
    } else {
      assert Head(e) == Removed(e, act) + Head(e') && e'.inbox == e.inbox && Held(e') == Held(e);
    }
  }

  lemma Assoc<T>(xs: seq<T>, ys: seq<T>, zs: seq<T>)
    ensures (xs + ys) + zs == xs + (ys + zs)
  {
  }

  /** A step of x while its connection is open: what is on its way out gains `Added` at its
      end. */
  lemma TransitOut(l: Local, act: Act, y: End)
    requires Enabled(l, act) && !act.Close? && l.end.conn.Open?
    ensures Transit(Next(l, act).end, y, Next(l, act).out) == Transit(l.end, y, l.out) + Added(l.end, act)
  {
    LeavingStep(l, act);
    Assoc(Arrived(y), Leaving(l.end, l.out), Added(l.end, act));
  }

  lemma TransitRead(l: Local, rest: seq<Frame>)
    requires Enabled(l, Read)
    ensures Arrived(l.end) + (l.inc + rest) == Arrived(Next(l, Read).end) + (Next(l, Read).inc + rest)
  {
  }

  /** A step of x while its connection is open: what is on its way in loses `Removed` at its
      front. */
  lemma TransitIn(l: Local, act: Act, y: End)
    requires Enabled(l, act) && !act.Close? && l.end.conn.Open?
    ensures Transit(y, l.end, l.inc) == Removed(l.end, act) + Transit(y, Next(l, act).end, Next(l, act).inc)
  {
    var e, e', inc' := l.end, Next(l, act).end, Next(l, act).inc;
    if act.Read? {
      TransitRead(l, Tail(y));
    } else {
      ArrivedStep(l, act);
      Assoc(Removed(e, act), Arrived(e'), Leaving(y, inc'));
    }
  }
}
