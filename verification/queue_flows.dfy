/** Both queues as FIFOs over whole runs. */
module QueueFlows {
  import opened Bytes
  import opened LinkModel
  import opened LinkInvariants
  import opened LinkSides
  import opened RxQueue

  /** The payloads that an operation passes to the application: to its callback, or as what `receive` returns. */
  function Surfaced(l: Link, op: Op): seq<bytes> {
    match op
    case Taking(n) => (match l.Receive(n).1 case None => [] case Some(p) => [p])
    case _ => Added(l.handed, Apply(l, op).handed)
  }

  function SurfacedAll(l: Link, ops: seq<Op>): seq<bytes>
    decreases |ops|
  {
    if ops == [] then [] else Surfaced(l, ops[0]) + SurfacedAll(Apply(l, ops[0]), ops[1..])
  }

  /** A log has been extended, and what was added to it contains `some`, in order. */
  predicate Grew(before: seq<bytes>, after: seq<bytes>, some: seq<bytes>) {
    before <= after && Within(some, after[|before|..])
  }

  lemma GrewTwice(x: seq<bytes>, y: seq<bytes>, z: seq<bytes>, a: seq<bytes>, b: seq<bytes>)
    requires Grew(x, y, a) && Grew(y, z, b)
    ensures Grew(x, z, a + b)
  {
    WithinConcat(a, y[|x|..], b, z[|y|..]);
    assert z[|x|..] == y[|x|..] + z[|y|..];
  }

  // ---------------------------------------------------------------------------------------------
  // Flows

  /** Operations that empty neither queue by force and leave the counters running. */
  predicate Running(op: Op) {
    !op.ResettingStats? && !op.Configuring? && !op.Resetting?
  }

  /** What went into and came out of the two queues. */
  datatype Flow = Flow(txIn: seq<bytes>, txOut: seq<bytes>, rxIn: seq<bytes>, rxOut: seq<bytes>)

  /**
   What was pending in each queue, and then what was added at its end, is what was removed at its front,
   and then what is pending now; the counters have grown by what was added. What left the TX queue has
   been transmitted, and what entered the receive queue has come out of the receiver.
   */
  ghost predicate Flows(l: Link, m: Link, f: Flow) {
    && (l.txQueue + f.txIn, l.rxQueue + f.rxIn) == (f.txOut + m.txQueue, f.rxOut + m.rxQueue)
    && (m.stats.txQueued, m.stats.rxQueued) == (l.stats.txQueued + |f.txIn|, l.stats.rxQueued + |f.rxIn|)
    && Grew(l.sent, m.sent, f.txOut) && Grew(l.delivered, m.delivered, f.rxIn)
  }

  const NO_FLOW := Flow([], [], [], [])

  lemma FlowNone(l: Link, m: Link)
    requires (m.txQueue, m.rxQueue, m.sent, m.delivered) == (l.txQueue, l.rxQueue, l.sent, l.delivered)
    requires (m.stats.txQueued, m.stats.rxQueued) == (l.stats.txQueued, l.stats.rxQueued)
    ensures Flows(l, m, NO_FLOW)
  {
    assert l.txQueue + [] == [] + l.txQueue && l.rxQueue + [] == [] + l.rxQueue;
  }

  lemma QueueFlows(q0: seq<bytes>, q1: seq<bytes>, q2: seq<bytes>, in1: seq<bytes>, out1: seq<bytes>, in2: seq<bytes>, out2: seq<bytes>)
    requires q0 + in1 == out1 + q1 && q1 + in2 == out2 + q2
    ensures q0 + (in1 + in2) == (out1 + out2) + q2
  {
    calc {
      q0 + (in1 + in2);
      (q0 + in1) + in2;
      (out1 + q1) + in2;
      out1 + (q1 + in2);
      out1 + (out2 + q2);
      (out1 + out2) + q2;
    }
  }

  function FlowSum(f: Flow, g: Flow): Flow {
    Flow(f.txIn + g.txIn, f.txOut + g.txOut, f.rxIn + g.rxIn, f.rxOut + g.rxOut)
  }

  lemma FlowChain(l: Link, m: Link, n: Link, f: Flow, g: Flow)
    requires Flows(l, m, f) && Flows(m, n, g)
    ensures Flows(l, n, FlowSum(f, g))
  {
    QueueFlows(l.txQueue, m.txQueue, n.txQueue, f.txIn, f.txOut, g.txIn, g.txOut);
    QueueFlows(l.rxQueue, m.rxQueue, n.rxQueue, f.rxIn, f.rxOut, g.rxIn, g.rxOut);
    GrewTwice(l.sent, m.sent, n.sent, f.txOut, g.txOut);
    GrewTwice(l.delivered, m.delivered, n.delivered, f.rxIn, g.rxIn);
  }

  lemma ReceivingFlows(l: Link, bs: bytes) returns (f: Flow)
    requires Good(l)
    ensures Flows(l, l.OnBytes(bs), f) && f.rxOut == [] && l.handed <= l.OnBytes(bs).handed
  {
    hide Good, Link.OnRawByte, Dropped;
    var d := BytesTook(l, bs);
    BytesKeepSender(l, bs);
    var m, queued := l.OnBytes(bs), if Queues(l) then FirstOf(Fitting(d, l.max), Room(l)) else [];
    f := Flow([], [], queued, []);
    KeptWithin(d, l.max, Room(l));
    assert (l.delivered + d)[|l.delivered|..] == d && m.rxQueue == l.rxQueue + queued;
    assert l.txQueue + [] == [] + m.txQueue && l.rxQueue + queued == [] + m.rxQueue;
  }

  /** What is kept of some payloads is among them, in order. */
  lemma {:induction false} KeptWithin(d: seq<bytes>, max: nat, n: nat)
    ensures Within(FirstOf(Fitting(d, max), n), d)
  {
    if n == 0 {
      assert FirstOf(Fitting(d, max), 0) == [];
    } else if d != [] {
      var kept := FirstOf(Fitting(d, max), n);
      if |d[0]| <= max {
        KeptWithin(d[1..], max, n - 1);
        assert kept == [d[0]] + FirstOf(Fitting(d[1..], max), n - 1);
      } else {
        KeptWithin(d[1..], max, n);
        assert kept == FirstOf(Fitting(d[1..], max), n);
      }
    }
  }

  lemma SendingFlows(l: Link, p: bytes) returns (f: Flow)
    requires |l.txQueue| <= QUEUE_DEPTH
    ensures Flows(l, l.Send(p).link, f) && f.rxOut == []
  {
    hide Link.Send;
    var queued := SendEmitsQueued(l, p);
    f := Flow(queued, [], [], []);
    assert l.rxQueue + [] == [] + l.rxQueue && l.txQueue + queued == [] + (l.txQueue + queued);
  }

  lemma FlushingFlows(l: Link) returns (f: Flow)
    ensures Flows(l, l.FlushTx().link, f) && f.rxOut == [] && l.FlushTx().link.handed == l.handed
  {
    hide Link.FlushTx, Taken;
    var k := FlushTakesPrefix(l);
    f := Flow([], l.txQueue[..k], [], []);
    WithinSelf(l.txQueue[..k]);
    assert l.rxQueue + [] == [] + l.rxQueue && l.txQueue + [] == l.txQueue[..k] + l.txQueue[k..];
  }

  lemma DrainingFlows(l: Link) returns (f: Flow)
    ensures Flows(l, l.DrainRx(), f) && l.DrainRx().handed == l.handed + f.rxOut
  {
    assert l.handed + [] == l.handed;
    f := if l.DrainRx().rxQueue == l.rxQueue then NO_FLOW else Flow([], [], [], l.rxQueue);
    FlowNone(l, l);
    assert l.rxQueue + [] == l.rxQueue + [];
  }

  lemma TakingFlows(l: Link, n: nat) returns (f: Flow)
    ensures Flows(l, l.Receive(n).0, f) && f.rxOut == Surfaced(l, Taking(n))
  {
    FlowNone(l, l);
    f := match l.Receive(n).1 case None => NO_FLOW case Some(p) => Flow([], [], [], [p]);
    if l.Receive(n).1.Some? {
      assert l.rxQueue + [] == [l.rxQueue[0]] + l.rxQueue[1..];
      assert l.txQueue + [] == [] + l.txQueue;
    }
  }

  lemma TurnFlows(l: Link, bs: bytes) returns (f: Flow)
    requires Good(l)
    ensures Flows(l, l.Process(bs), f) && Within(f.rxOut, Surfaced(l, Processing(bs)))
  {
    hide Good, Flows, Link.OnBytes, Link.FlushTx, Link.DrainRx;
    FlowNone(l, l);
    var m, a := l, NO_FLOW;
    if l.hasAdapter {
      m := l.OnBytes(bs);
      a := ReceivingFlows(l, bs);
    }
    var n := m.FlushTx().link;
    var b := FlushingFlows(m);
    var c := DrainingFlows(n);
    FlowChain(l, m, n, a, b);
    FlowChain(l, n, n.DrainRx(), FlowSum(a, b), c);
    f := FlowSum(FlowSum(a, b), c);
    assert f.rxOut == [] + c.rxOut == c.rxOut;
    assert Surfaced(l, Processing(bs)) == n.handed[|l.handed|..] + c.rxOut;
    WithinSelf(c.rxOut);
    WithinConcat([], n.handed[|l.handed|..], c.rxOut, c.rxOut);
  }

  /** What an operation moves through the queues; what it removes from the receive queue, it passes on. */
  lemma StepFlows(l: Link, op: Op) returns (f: Flow)
    requires Good(l) && Running(op)
    ensures Flows(l, Apply(l, op), f) && Within(f.rxOut, Surfaced(l, op))
  {
    hide Flows, Link.OnBytes, Link.Send, Link.FlushTx, Link.Process, Link.Receive, GoodAssembly, GoodReceiver;
    f := NO_FLOW;
    match op {
      case Receiving(bs) => f := ReceivingFlows(l, bs);
      case Sending(p) => f := SendingFlows(l, p);
      case SendingAsync(p) =>
        var m := l.(cfg := l.cfg.(enableTxQueue := true));
        f := SendingFlows(m, p);
        SameFlows(m, m.Send(p).link, l, l.SendAsync(p).link, f);
      case Flushing => f := FlushingFlows(l);
      case Taking(n) =>
        f := TakingFlows(l, n);
        WithinSelf(f.rxOut);
      case Processing(bs) => f := TurnFlows(l, bs);
      case EnablingQueues(tx, rx) => FlowNone(l, Apply(l, op));
      case _ => assert false;
    }
  }

  /** A flow does not depend on the configuration. */
  lemma SameFlows(l: Link, m: Link, j: Link, k: Link, f: Flow)
    requires Flows(l, m, f) && j == l.(cfg := j.cfg) && k == m.(cfg := k.cfg)
    ensures Flows(j, k, f)
  {
  }

  /**
   Over any run of operations both queues are FIFOs: what was pending, followed by everything that was
   queued, is everything that was removed, followed by what is pending now; and the two counters have
   grown by what was queued. Nothing gets lost on either side: frames that were removed have been
   transmitted, and payloads that were removed have been passed to the application, in that order.
   */
  lemma {:induction false} QueuesConserved(l: Link, ops: seq<Op>) returns (f: Flow)
    requires Good(l) && forall op :: op in ops ==> Running(op)
    ensures Flows(l, Run(l, ops), f) && Within(f.rxOut, SurfacedAll(l, ops))
    decreases |ops|
  {
    hide Good, Flows, Apply, Surfaced;
    if ops == [] {
      f := NO_FLOW;
      FlowNone(l, l);
    } else {
      var a := StepFlows(l, ops[0]);
      StepGood(l, ops[0]);
      var b := QueuesConserved(Apply(l, ops[0]), ops[1..]);
      f := FlowSum(a, b);
      FlowChain(l, Apply(l, ops[0]), Run(l, ops), a, b);
      WithinConcat(a.rxOut, Surfaced(l, ops[0]), b.rxOut, SurfacedAll(Apply(l, ops[0]), ops[1..]));
    }
  }
}
