/** The TX queue over whole runs: what a queued send puts on the wire, and which frames block the queue. */
module TxQueue {
  import opened Bytes
  import opened LinkModel
  import opened LinkFrames
  import opened LinkInvariants
  import opened LinkSides
  import opened LinkSender

  // ---------------------------------------------------------------------------------------------
  // Queueing and flushing one send

  /** As much of the plan as an empty queue has room for. */
  function Queueable(plan: seq<bytes>): seq<bytes> {
    if |plan| <= 8 then plan else plan[..8]
  }

  /** Queueing never looks at the frame limit: a send succeeds exactly if the queue has room for its frames. */
  lemma QueuedSend(l: Link, p: bytes)
    requires l.hasAdapter && l.cfg.enableTxQueue && l.txQueue == []
    requires l.cfg.Framed() && 0 < |p| <= l.max && HasRoom(l.cfg, p)
    ensures var a, plan := l.Send(p), Plan(l.cfg, l.fragmentSeq, p);
      && (a.ok <==> |plan| <= 8)
      && a.link.txQueue == Frames(l.cfg, Queueable(plan))
      && a.link == l.(stats := a.link.stats, fragmentSeq := a.link.fragmentSeq, txQueue := a.link.txQueue)
  {
    hide Link.Send, Plan, Frame, HasRoom, Taken;
    var k := SendEmits(l, p);
    var plan := Plan(l.cfg, l.fragmentSeq, p);
    assert plan[..|plan|] == plan;
  }

  /** The first queued frame is longer than the physical limit. */
  predicate Blocked(l: Link) {
    l.txQueue != [] && |l.txQueue[0]| > l.cfg.physicalFrameLimit > 0
  }

  /** A flush sends the frames up to the first one that exceeds the limit, which is left at the front. */
  lemma FlushPassing(l: Link, raws: seq<bytes>)
    requires l.hasAdapter && l.cfg.Framed() && (forall i: nat :: l.accepts(i))
    requires l.txQueue == Frames(l.cfg, raws) && forall raw :: raw in raws ==> raw != []
    ensures var a, passing := l.FlushTx(), Passing(l.cfg, raws);
      && (a.ok <==> AllPass(l.cfg, raws)) && (!a.ok ==> Blocked(a.link))
      && a.link.sent == l.sent + Frames(l.cfg, passing)
      && |passing| <= |raws| && a.link.txQueue == Frames(l.cfg, raws[|passing|..])
  {
    hide Link.FlushTx, Taken, Passes, Frame;
    var k := FlushTakesPrefix(l);
    forall i | 0 <= i < |raws| ensures Taken(l, l.txQueue[i], l.attempts + i) <==> Passes(l.cfg, raws[i]) {
      assert raws[i] in raws;
      TakenIffPasses(l, raws[i], l.attempts + i);
    }
    PassingPrefix(l.cfg, raws, k);
    assert Frames(l.cfg, raws)[k..] == Frames(l.cfg, raws[k..]);
    if k < |raws| {
      FailsByLength(l.cfg, raws[k]);
    }
  }

  lemma FailsByLength(cfg: Config, raw: bytes)
    requires cfg.Framed() && !Passes(cfg, raw)
    ensures |Frame(cfg, raw)| > cfg.physicalFrameLimit > 0
  {
    FrameSize(cfg, raw);
  }

  /**
   A send of no more than eight frames that goes through the queue puts the same frames on the wire as a
   direct one. Flushing it succeeds exactly if each of its frames, full blocks counted, keeps to the
   limit; otherwise the first that does not blocks the queue.
   */
  lemma QueuedSendFlushes(l: Link, p: bytes)
    requires l.hasAdapter && l.cfg.enableTxQueue && l.txQueue == [] && (forall k: nat :: l.accepts(k))
    requires l.cfg.Framed() && 0 < |p| <= l.max && HasRoom(l.cfg, p)
    requires |Plan(l.cfg, l.fragmentSeq, p)| <= 8
    ensures var plan := Plan(l.cfg, l.fragmentSeq, p);
      var queued := l.Send(p);
      var flushed := queued.link.FlushTx();
      && queued.ok && queued.link.sent == l.sent
      && (flushed.ok <==> forall raw :: raw in plan ==>
           l.cfg.physicalFrameLimit > 0 ==> WireSize(l.cfg, raw) <= l.cfg.physicalFrameLimit)
      && flushed.link.sent == l.sent + Frames(l.cfg, Wire(l.cfg, l.fragmentSeq, p))
      && (if flushed.ok then flushed.link.txQueue == [] else Blocked(flushed.link))
  {
    hide Link.Send, Link.FlushTx, Plan, Frame, WireSize, HasRoom;
    QueuedSend(l, p);
    PlanFits(l.max, l.cfg, l.fragmentSeq, p);
    FlushPassing(l.Send(p).link, Plan(l.cfg, l.fragmentSeq, p));
    var k := PassingIsPrefix(l.cfg, Plan(l.cfg, l.fragmentSeq, p));
  }

  // ---------------------------------------------------------------------------------------------
  // A blocked queue

  /** Operations that empty the queues. */
  predicate Clears(op: Op) {
    op.Configuring? || op.Resetting?
  }

  lemma FlushOfBlocked(l: Link)
    requires Blocked(l)
    ensures var a := l.FlushTx(); !a.ok && a.link.txQueue == l.txQueue && a.link.sent == l.sent && a.link.cfg == l.cfg
  {
    hide Link.FlushTx;
    var k := FlushTakesPrefix(l);
    assert k == 0;
    assert l.txQueue[0..] == l.txQueue && l.sent + l.txQueue[..0] == l.sent;
  }

  /** The queue of `l` is the front part of the queue of `m`, under the same limit. */
  predicate Extends(l: Link, m: Link) {
    l.txQueue <= m.txQueue && m.cfg.physicalFrameLimit == l.cfg.physicalFrameLimit
  }

  lemma SendExtends(l: Link, p: bytes)
    requires Good(l)
    ensures Extends(l, l.Send(p).link)
  {
    hide Link.Send;
    var queued := SendEmitsQueued(l, p);
  }

  /** A blocked queue stays as it is, but for frames added at its end, until it is emptied by force. */
  lemma BlockedStep(l: Link, op: Op)
    requires Good(l) && Blocked(l)
    ensures if Clears(op) then Apply(l, op).txQueue == [] else Extends(l, Apply(l, op)) && Blocked(Apply(l, op))
  {
    hide Link.OnBytes, Link.Send, Link.FlushTx, Link.Process, Good;
    match op {
      case Receiving(bs) => BytesKeepSender(l, bs);
      case Sending(p) => SendExtends(l, p);
      case SendingAsync(p) =>
        QueueFlagsGood(l, true, l.cfg.enableRxQueue);
        SendExtends(l.(cfg := l.cfg.(enableTxQueue := true)), p);
      case Flushing => FlushOfBlocked(l);
      case Processing(bs) =>
        TurnIs(l, bs);
        FlushOfBlocked(l);
      case _ =>
    }
  }

  /**
   A frame beyond the limit at the front of the queue blocks it for good: over any run of operations
   that do not empty the queue by force it stays at the front, and no flush sends anything.
   */
  lemma {:induction false} OversizedFrameBlocks(l: Link, ops: seq<Op>)
    requires Good(l) && Blocked(l) && forall op :: op in ops ==> !Clears(op)
    ensures var m := Run(l, ops);
      && Blocked(m) && l.txQueue <= m.txQueue
      && !m.FlushTx().ok && m.FlushTx().link.txQueue == m.txQueue && m.FlushTx().link.sent == m.sent
    decreases |ops|
  {
    hide Apply, Good, Link.FlushTx, Blocked;
    if ops == [] {
      FlushOfBlocked(l);
    } else {
      BlockedStep(l, ops[0]);
      StepGood(l, ops[0]);
      OversizedFrameBlocks(Apply(l, ops[0]), ops[1..]);
    }
  }

  /**
   So one queued send with a frame beyond the limit is enough: once flushed as far as that frame, the
   link never sends a queued frame again, whatever else is sent, queued or received, until it is reset
   or configured anew.
   */
  lemma OversizedSendBlocks(l: Link, p: bytes, ops: seq<Op>)
    requires l.hasAdapter && l.cfg.enableTxQueue && l.txQueue == [] && (forall k: nat :: l.accepts(k)) && Good(l)
    requires l.cfg.Framed() && 0 < |p| <= l.max && HasRoom(l.cfg, p)
    requires !AllPass(l.cfg, Queueable(Plan(l.cfg, l.fragmentSeq, p)))
    requires forall op :: op in ops ==> !Clears(op)
    ensures l.Send(p).ok <==> |Plan(l.cfg, l.fragmentSeq, p)| <= 8
    ensures var queued := Queueable(Plan(l.cfg, l.fragmentSeq, p));
      var passing := Passing(l.cfg, queued);
      var m := Run(l, [Sending(p), Flushing] + ops);
      && |passing| < |queued| && m.txQueue != [] && m.txQueue[0] == Frame(l.cfg, queued[|passing|])
      && !m.FlushTx().ok && m.FlushTx().link.txQueue == m.txQueue && m.FlushTx().link.sent == m.sent
  {
    hide Link.Send, Link.FlushTx, Plan, Frame, HasRoom, Good, Blocked, Passes, FitsRaw;
    QueuedSend(l, p);
    PlanFits(l.max, l.cfg, l.fragmentSeq, p);
    var m, queued := l.Send(p).link, Queueable(Plan(l.cfg, l.fragmentSeq, p));
    forall raw | raw in queued ensures raw != [] {
      NotEmpty(l.max, raw);
    }
    FlushPassing(m, queued);
    var k := PassingIsPrefix(l.cfg, queued);
    StepGood(l, Sending(p));
    StepGood(m, Flushing);
    assert ([Sending(p), Flushing] + ops)[1..] == [Flushing] + ops && ([Flushing] + ops)[1..] == ops;
    OversizedFrameBlocks(m.FlushTx().link, ops);
  }

  lemma NotEmpty(max: nat, raw: bytes)
    ensures FitsRaw(max, raw) ==> raw != []
  {
  }

  // ---------------------------------------------------------------------------------------------
  // Under valid limits

  predicate WithinLimit(cfg: Config, frame: bytes) {
    frame != [] && (cfg.physicalFrameLimit > 0 ==> |frame| <= cfg.physicalFrameLimit)
  }

  /** Every queued frame keeps to the limit. */
  ghost predicate Unblocked(l: Link) {
    forall f :: f in l.txQueue ==> WithinLimit(l.cfg, f)
  }

  lemma SendRefused(l: Link, p: bytes)
    requires !l.hasAdapter || !(0 < |p| <= l.max)
    ensures l.Send(p) == Attempt(l, false)
  {
  }

  lemma SendUnblocked(l: Link, p: bytes)
    requires Sendable(l.max, l.cfg) && Unblocked(l)
    ensures Unblocked(l.Send(p).link) && (l.Send(p).link.max, l.Send(p).link.cfg) == (l.max, l.cfg)
  {
    hide Link.Send, Plan, Frame, HasRoom, Taken;
    if l.hasAdapter && 0 < |p| <= l.max {
      ValidHasRoom(l.max, l.cfg, p);
      PlanFramesFit(l.max, l.cfg, l.fragmentSeq, p);
      var k := SendEmits(l, p);
      var frames, m := Frames(l.cfg, Plan(l.cfg, l.fragmentSeq, p)), l.Send(p).link;
      assert forall f :: f in frames[..k] ==> f in frames;
      assert m.txQueue == l.txQueue || m.txQueue == l.txQueue + frames[..k];
    } else {
      SendRefused(l, p);
    }
  }

  lemma StepUnblocked(l: Link, op: Op)
    requires Sendable(l.max, l.cfg) && Unblocked(l) && (op.Configuring? ==> Sendable(l.max, op.cfg))
    ensures Unblocked(Apply(l, op)) && Sendable(Apply(l, op).max, Apply(l, op).cfg) && Apply(l, op).max == l.max
  {
    hide Link.OnBytes, Link.Send, Link.FlushTx, Link.Process;
    match op {
      case Receiving(bs) => BytesKeepSender(l, bs);
      case Sending(p) => SendUnblocked(l, p);
      case SendingAsync(p) => SendUnblocked(l.(cfg := l.cfg.(enableTxQueue := true)), p);
      case Flushing => var k := FlushTakesPrefix(l);
      case Processing(bs) =>
        var k := FlushTakesPrefix(l);
        TurnIs(l, bs);
        TurnKeepsMax(l, bs);
      case _ =>
    }
  }

  lemma TurnKeepsMax(l: Link, bs: bytes)
    ensures l.Process(bs).max == l.max
  {
    hide Link.OnBytes, Link.FlushTx;
    BytesKeepSender(l, bs);
    var k := FlushTakesPrefix(if l.hasAdapter then l.OnBytes(bs) else l);
  }

  /** The adapter takes its next `n` frames. */
  ghost predicate AcceptsNext(l: Link, n: nat) {
    forall k: nat :: l.attempts <= k < l.attempts + n ==> l.accepts(k)
  }

  lemma FlushSucceeds(l: Link)
    requires Unblocked(l)
    ensures !Blocked(l)
    ensures l.FlushTx().ok <==> l.txQueue == [] || (l.hasAdapter && AcceptsNext(l, |l.txQueue|))
  {
    hide Link.FlushTx;
    var k := FlushTakesPrefix(l);
    assert forall i :: 0 <= i < |l.txQueue| ==> WithinLimit(l.cfg, l.txQueue[i]);
    if k == |l.txQueue| {
      forall n: nat | l.attempts <= n < l.attempts + |l.txQueue| ensures l.accepts(n) {
        assert Taken(l, l.txQueue[n - l.attempts], l.attempts + (n - l.attempts));
      }
    }
  }

  /**
   Under valid limits the queue never blocks: over any run whose configurations have one, a flush fails
   only if the adapter is missing or refuses a frame.
   */
  lemma {:induction false} NeverBlocked(l: Link, ops: seq<Op>)
    requires Sendable(l.max, l.cfg) && Unblocked(l)
    requires forall op :: op in ops && op.Configuring? ==> Sendable(l.max, op.cfg)
    ensures var m := Run(l, ops);
      && Unblocked(m) && !Blocked(m)
      && (m.FlushTx().ok <==> m.txQueue == [] || (m.hasAdapter && AcceptsNext(m, |m.txQueue|)))
    decreases |ops|
  {
    hide Apply, Link.FlushTx, Sendable;
    if ops == [] {
      FlushSucceeds(l);
    } else {
      StepUnblocked(l, ops[0]);
      NeverBlocked(Apply(l, ops[0]), ops[1..]);
    }
  }

  // ---------------------------------------------------------------------------------------------
  // A turn of the main loop

  /**
   Whatever it receives, a turn transmits the longest prefix of the queue that the adapter takes, in
   order, and removes exactly those frames.
   */
  lemma TurnTransmits(l: Link, bs: bytes) returns (k: nat)
    ensures var m := l.Process(bs);
      && k <= |l.txQueue| && m.txQueue == l.txQueue[k..] && m.sent == l.sent + l.txQueue[..k]
      && (forall i :: 0 <= i < k ==> Taken(l, l.txQueue[i], l.attempts + i))
      && (k < |l.txQueue| ==> !Taken(l, l.txQueue[k], l.attempts + k))
    ensures Unblocked(l) && l.hasAdapter && AcceptsNext(l, |l.txQueue|) ==>
      l.Process(bs).txQueue == [] && l.Process(bs).sent == l.sent + l.txQueue
  {
    hide Link.Process, Link.FlushTx, Unblocked, AcceptsNext, Taken;
    TurnIs(l, bs);
    k := FlushTakesPrefix(l);
    if Unblocked(l) && l.hasAdapter && AcceptsNext(l, |l.txQueue|) {
      FlushSucceeds(l);
      assert l.txQueue[..|l.txQueue|] == l.txQueue;
    }
  }

  /** So one turn after a queued send, what the limit lets pass of it is on the wire. */
  lemma QueuedSendTurn(l: Link, p: bytes, bs: bytes)
    requires l.hasAdapter && l.cfg.enableTxQueue && l.txQueue == [] && (forall k: nat :: l.accepts(k))
    requires l.cfg.Framed() && 0 < |p| <= l.max && HasRoom(l.cfg, p)
    requires |Plan(l.cfg, l.fragmentSeq, p)| <= 8
    ensures var m := l.Send(p).link.Process(bs);
      && m.sent == l.sent + Frames(l.cfg, Wire(l.cfg, l.fragmentSeq, p))
      && (m.txQueue == [] <==> AllPass(l.cfg, Plan(l.cfg, l.fragmentSeq, p)))
  {
    hide Link.Send, Link.Process, Link.FlushTx, Plan, Frame, WireSize, HasRoom;
    TurnIs(l.Send(p).link, bs);
    QueuedSendFlushes(l, p);
  }

  /** `send_async` queues, whatever the configuration says, and leaves the configuration as it was. */
  lemma AsyncQueues(l: Link, p: bytes)
    requires l.hasAdapter && l.txQueue == [] && l.cfg.Framed() && 0 < |p| <= l.max && HasRoom(l.cfg, p)
    ensures var a, plan := l.SendAsync(p), Plan(l.cfg, l.fragmentSeq, p);
      && (a.ok <==> |plan| <= 8)
      && a.link.txQueue == Frames(l.cfg, Queueable(plan))
      && a.link == l.(stats := a.link.stats, fragmentSeq := a.link.fragmentSeq, txQueue := a.link.txQueue)
  {
    hide Link.Send, Frame;
    var queueing := l.(cfg := l.cfg.(enableTxQueue := true));
    QueuedSend(queueing, p);
    FramesIgnoreQueue(l.cfg, Queueable(Plan(l.cfg, l.fragmentSeq, p)));
  }

  lemma FramesIgnoreQueue(cfg: Config, raws: seq<bytes>)
    ensures Frames(cfg.(enableTxQueue := true), raws) == Frames(cfg, raws)
  {
  }
}
