/** What every operation of a link keeps, over whole runs: the bounds of its buffers, indices and queues. */
module LinkInvariants {
  import opened Bytes
  import opened Cobs
  import opened CobsCodec
  import opened LinkModel
  import opened LinkFrames

  /** The public operations of a link. */
  datatype Op =
    | Receiving(bs: bytes)
    | Sending(payload: bytes)
    | SendingAsync(payload: bytes)
    | Flushing
    | Taking(capacity: nat)
    | Processing(polled: bytes)
    | EnablingQueues(tx: bool, rx: bool)
    | ResettingStats
    | Configuring(cfg: Config)
    | Resetting

  function Apply(l: Link, op: Op): Link {
    match op
    case Receiving(bs) => l.OnBytes(bs)
    case Sending(p) => l.Send(p).link
    case SendingAsync(p) => l.SendAsync(p).link
    case Flushing => l.FlushTx().link
    case Taking(n) => l.Receive(n).0
    case Processing(bs) => l.Process(bs)
    case EnablingQueues(tx, rx) => l.(cfg := l.cfg.(enableTxQueue := tx, enableRxQueue := rx))
    case ResettingStats => l.(stats := NO_STATS)
    case Configuring(cfg) => l.SetConfig(cfg)
    case Resetting => l.Reset()
  }

  function Run(l: Link, ops: seq<Op>): Link
    decreases |ops|
  {
    if ops == [] then l else Run(Apply(l, ops[0]), ops[1..])
  }

  // ---------------------------------------------------------------------------------------------
  // Logs that grow

  function Added(before: seq<bytes>, after: seq<bytes>): seq<bytes> {
    if |before| <= |after| then after[|before|..] else []
  }

  // ---------------------------------------------------------------------------------------------
  // Bounds

  /** The reassembly buffer never runs over, and is reset whenever it is not in use. */
  predicate GoodAssembly(max: nat, asm: Assembly) {
    if asm.active then 0 < |asm.data| <= asm.total <= RawCapacity(max) else asm == IDLE
  }

  /**
   The byte receiver is where its mode allows. With a length prefix, a complete prefix means that
   at least one byte of the frame is still to come.
   */
  predicate GoodReceiver(l: Link) {
    if l.cfg.useCobs then (l.prefix, l.expected) == ([], 0) && |l.rx| <= EncodedCapacity(l.max)
    else if !l.cfg.useLengthPrefix then (l.prefix, l.expected, l.rx) == ([], 0, [])
    else if |l.prefix| < LENGTH_PREFIX_SIZE then (l.rx, l.expected) == ([], 0)
    else |l.prefix| == LENGTH_PREFIX_SIZE && |l.rx| < l.expected <= RawCapacity(l.max)
  }

  predicate GoodQueues(l: Link) {
    && |l.txQueue| <= QUEUE_DEPTH && (forall f :: f in l.txQueue ==> 0 < |f| <= FrameCapacity(l.max))
    && |l.rxQueue| <= QUEUE_DEPTH && (forall p :: p in l.rxQueue ==> |p| <= l.max)
  }

  predicate Good(l: Link) {
    GoodAssembly(l.max, l.asm) && GoodReceiver(l) && GoodQueues(l)
  }

  lemma {:induction false} AcceptGood(max: nat, cfg: Config, asm: Assembly, stats: Stats, raw: bytes)
    requires GoodAssembly(max, asm)
    ensures var a := Accept(max, cfg, asm, stats, raw);
      && GoodAssembly(max, a.asm)
      && (a.payload.Some? ==> |a.payload.value| <= max)
      && a.stats == stats.(framingErrors := a.stats.framingErrors, crcErrors := a.stats.crcErrors,
                           fragmentsReceived := a.stats.fragmentsReceived, reassemblyErrors := a.stats.reassemblyErrors)
    decreases asm.active, |raw|
  {
    if IsFragment(raw) {
      var v := Judge(RawCapacity(max), asm, raw);
      if v.Completed? {
        AcceptGood(max, cfg, IDLE, stats.(fragmentsReceived := stats.fragmentsReceived + 1), v.raw);
      }
    }
  }

  lemma DeliverGood(l: Link, raw: bytes)
    requires GoodAssembly(l.max, l.asm) && GoodQueues(l)
    ensures GoodAssembly(l.max, l.DeliverRaw(raw).asm) && GoodQueues(l.DeliverRaw(raw))
  {
    hide Accept;
    AcceptGood(l.max, l.cfg, l.asm, l.stats, raw);
  }

  lemma ReceiverGood(l: Link, b: byte)
    requires GoodReceiver(l)
    ensures GoodReceiver(l.OnRawByte(b))
  {
    hide Link.DeliverRaw, Decode, Word, RawCapacity, EncodedCapacity;
    if FrameOf(l, b).Some? {
      DeliverRawFrame(l, FrameOf(l, b).value);
    }
  }

  lemma ByteGood(l: Link, b: byte)
    requires Good(l)
    ensures Good(l.OnRawByte(b))
  {
    hide Link.CobsByte, Link.PrefixedByte, Link.DeliverRaw, FrameOf, GoodReceiver;
    ReceiverGood(l, b);
    if l.cfg.Framed() {
      ByteIs(l, b);
      if FrameOf(l, b).Some? {
        DeliverGood(l, FrameOf(l, b).value);
        DeliverRawFrame(l, FrameOf(l, b).value);
      }
    }
  }

  /** Any bytes keep the bounds. */
  lemma {:induction false} BytesGood(l: Link, s: bytes)
    requires Good(l)
    ensures Good(l.OnBytes(s))
    decreases |s|
  {
    hide Good, Link.OnRawByte;
    if s != [] {
      ByteGood(l, s[0]);
      BytesGood(l.OnRawByte(s[0]), s[1..]);
    }
  }

  /** The branch that counts an overrun behind a complete length prefix is never taken. */
  lemma PrefixOverrunIsDead(l: Link, b: byte)
    requires Good(l) && !l.cfg.useCobs && l.cfg.useLengthPrefix
    ensures l.OnRawByte(b).stats.rxOverruns > l.stats.rxOverruns ==>
      |l.rxQueue| == QUEUE_DEPTH && l.OnRawByte(b).delivered != l.delivered
  {
    hide Accept;
    AcceptGood(l.max, l.cfg, l.asm, l.stats, l.rx + [b]);
  }

  // ---------------------------------------------------------------------------------------------
  // Queues

  /** What a send may change: frames are added to the TX queue or go to the adapter. */
  ghost predicate Emits(l: Link, m: Link, queued: seq<bytes>) {
    && m == l.(stats := m.stats, fragmentSeq := m.fragmentSeq, txQueue := l.txQueue + queued, sent := m.sent, attempts := m.attempts)
    && (m.stats.txQueued, m.stats.rxQueued) == (l.stats.txQueued + |queued|, l.stats.rxQueued)
    && l.sent <= m.sent
    && |m.txQueue| <= QUEUE_DEPTH && (forall f :: f in queued ==> 0 < |f| <= FrameCapacity(l.max))
  }

  lemma SendOrEnqueueEmits(l: Link, frame: bytes) returns (queued: seq<bytes>)
    requires |l.txQueue| <= QUEUE_DEPTH
    ensures Emits(l, l.SendOrEnqueue(frame).link, queued)
    ensures queued != [] ==> l.cfg.enableTxQueue
    ensures l.cfg.enableTxQueue ==> l.SendOrEnqueue(frame).link.sent == l.sent
  {
    queued := if l.cfg.enableTxQueue && l.SendOrEnqueue(frame).ok then [frame] else [];
  }

  lemma SendRawEmits(l: Link, raw: bytes) returns (queued: seq<bytes>)
    requires |l.txQueue| <= QUEUE_DEPTH
    ensures Emits(l, l.SendRaw(raw).link, queued)
    ensures l.cfg.enableTxQueue ==> l.SendRaw(raw).link.sent == l.sent
    ensures queued != [] ==> l.cfg.enableTxQueue
  {
    hide Link.SendOrEnqueue, Encode, EncodedLength;
    var direct := SendOrEnqueueEmits(l, raw);
    var cobs := SendOrEnqueueEmits(l, Encode(raw) + [0]);
    var prefixed := SendOrEnqueueEmits(l, [HiByte(|raw|), LoByte(|raw|)] + raw);
    queued :=
      if l.SendRaw(raw).link.stats.txQueued == l.stats.txQueued then []
      else if l.cfg.useCobs then cobs
      else if l.cfg.useLengthPrefix then prefixed
      else direct;
  }

  lemma {:induction false} FragmentsEmit(l: Link, raw: bytes, seqNo: byte, chunkMax: nat, offset: nat)
    returns (queued: seq<bytes>)
    requires |l.txQueue| <= QUEUE_DEPTH && chunkMax > 0
    ensures Emits(l, l.SendFragmentsFrom(raw, seqNo, chunkMax, offset).link, queued)
    ensures l.cfg.enableTxQueue ==> l.SendFragmentsFrom(raw, seqNo, chunkMax, offset).link.sent == l.sent
    ensures queued != [] ==> l.cfg.enableTxQueue
    decreases |raw| - offset
  {
    hide Link.SendRaw, MakeFragment;
    queued := [];
    if offset < |raw| {
      var f := MakeFragment(raw, seqNo, chunkMax, offset);
      queued := SendRawEmits(l, f);
      var a := l.SendRaw(f);
      if a.ok {
        var m := a.link.(stats := a.link.stats.(fragmentsSent := a.link.stats.fragmentsSent + 1));
        var rest := FragmentsEmit(m, raw, seqNo, chunkMax, offset + ChunkLength(|raw|, chunkMax, offset));
        assert l.txQueue + queued + rest == l.txQueue + (queued + rest);
        queued := queued + rest;
      }
    }
  }

  lemma SendEmitsQueued(l: Link, p: bytes) returns (queued: seq<bytes>)
    requires |l.txQueue| <= QUEUE_DEPTH
    ensures Emits(l, l.Send(p).link, queued) && (queued != [] ==> l.cfg.enableTxQueue)
  {
    hide Link.SendRaw, Link.SendFragmentsFrom, RawFrame, Config.ShouldFragment;
    queued := [];
    if l.hasAdapter && p != [] && |p| <= l.max {
      var raw := RawFrame(l.cfg, p);
      if !l.cfg.ShouldFragment(|raw|) {
        queued := SendRawEmits(l, raw);
      } else if raw != [] && l.cfg.ChunkMax() > 0 && |raw| <= RawCapacity(l.max) {
        var seqNo := (l.fragmentSeq + 1) % 256;
        queued := FragmentsEmit(l.(fragmentSeq := seqNo), raw, seqNo, l.cfg.ChunkMax(), 0);
      }
    }
  }

  /** Whether the adapter takes the frame at its k-th transmission. */
  predicate Taken(l: Link, frame: bytes, k: nat) {
    && l.hasAdapter && frame != []
    && (l.cfg.physicalFrameLimit == 0 || |frame| <= l.cfg.physicalFrameLimit)
    && l.accepts(k)
  }

  lemma SendPhysicalTakes(l: Link, frame: bytes)
    ensures var a := l.SendPhysical(frame);
      && (a.ok <==> Taken(l, frame, l.attempts))
      && a.link == l.(stats := a.link.stats, attempts := a.link.attempts, sent := if a.ok then l.sent + [frame] else l.sent)
      && (a.ok ==> a.link.attempts == l.attempts + 1)
      && a.link.stats.txQueued == l.stats.txQueued && a.link.stats.rxQueued == l.stats.rxQueued
  {
  }

  /** `m` is `l` after transmitting the first `k` queued frames and no more. */
  ghost predicate Flushed(l: Link, m: Link, ok: bool, k: nat) {
    && k <= |l.txQueue| && (ok <==> k == |l.txQueue|)
    && (forall i :: 0 <= i < k ==> Taken(l, l.txQueue[i], l.attempts + i))
    && (k < |l.txQueue| ==> !Taken(l, l.txQueue[k], l.attempts + k))
    && m == l.(stats := m.stats, attempts := m.attempts, txQueue := l.txQueue[k..], sent := l.sent + l.txQueue[..k])
    && m.stats.txQueued == l.stats.txQueued && m.stats.rxQueued == l.stats.rxQueued
  }

  lemma FlushedStep(l: Link, m: Link, n: Link, ok: bool, k: nat)
    requires l.txQueue != [] && Taken(l, l.txQueue[0], l.attempts)
    requires m == l.(stats := m.stats, attempts := l.attempts + 1, txQueue := l.txQueue[1..], sent := l.sent + [l.txQueue[0]])
    requires m.stats.txQueued == l.stats.txQueued && m.stats.rxQueued == l.stats.rxQueued
    requires Flushed(m, n, ok, k)
    ensures Flushed(l, n, ok, k + 1)
  {
    assert m.txQueue[k..] == l.txQueue[k+1..];
    assert [l.txQueue[0]] + m.txQueue[..k] == l.txQueue[..k+1];
    assert l.sent + [l.txQueue[0]] + m.txQueue[..k] == l.sent + l.txQueue[..k+1];
    forall i | 0 <= i < k + 1 ensures Taken(l, l.txQueue[i], l.attempts + i) {
      if i > 0 {
        assert Taken(m, m.txQueue[i-1], m.attempts + (i - 1));
      }
    }
  }

  /**
   A flush transmits the longest prefix of the queue that the adapter takes, in order, and removes
   exactly those frames.
   */
  lemma {:induction false} FlushTakesPrefix(l: Link) returns (k: nat)
    ensures Flushed(l, l.FlushTx().link, l.FlushTx().ok, k)
    decreases |l.txQueue|
  {
    hide Link.SendPhysical, Taken;
    assert l.txQueue[0..] == l.txQueue && l.sent + [] == l.sent;
    if l.txQueue == [] {
      k := 0;
    } else {
      var a := l.SendPhysical(l.txQueue[0]);
      SendPhysicalTakes(l, l.txQueue[0]);
      if a.ok {
        var m := a.link.(txQueue := l.txQueue[1..]);
        var j := FlushTakesPrefix(m);
        k := j + 1;
        FlushedStep(l, m, m.FlushTx().link, m.FlushTx().ok, j);
      } else {
        k := 0;
      }
    }
  }

  // ---------------------------------------------------------------------------------------------
  // Whole runs

  lemma SendGood(l: Link, p: bytes)
    requires Good(l)
    ensures Good(l.Send(p).link)
  {
    hide Link.Send;
    var queued := SendEmitsQueued(l, p);
  }

  lemma FlushGood(l: Link)
    requires Good(l)
    ensures Good(l.FlushTx().link)
  {
    hide Link.FlushTx, Taken;
    var k := FlushTakesPrefix(l);
  }

  lemma QueueFlagsGood(l: Link, tx: bool, rx: bool)
    requires Good(l)
    ensures Good(l.(cfg := l.cfg.(enableTxQueue := tx, enableRxQueue := rx)))
  {
  }

  /** Handing over the receive queue, whole or by its oldest payload. */
  lemma DrainGood(l: Link, capacity: nat)
    requires Good(l)
    ensures Good(l.DrainRx()) && Good(l.Receive(capacity).0)
  {
    hide GoodAssembly;
  }

  lemma ResetGood(l: Link, cfg: Config)
    requires Good(l)
    ensures Good(l.SetConfig(cfg)) && Good(l.Reset()) && Good(l.(stats := NO_STATS))
  {
  }

  lemma StepGood(l: Link, op: Op)
    requires Good(l)
    ensures Good(Apply(l, op))
  {
    hide Link.OnBytes, Link.Send, Link.FlushTx, Link.DrainRx, Good;
    match op {
      case Receiving(bs) => BytesGood(l, bs);
      case Sending(p) => SendGood(l, p);
      case SendingAsync(p) =>
        QueueFlagsGood(l, true, l.cfg.enableRxQueue);
        var m := l.(cfg := l.cfg.(enableTxQueue := true));
        SendGood(m, p);
        SendKeepsConfig(m, p);
        QueueFlagsGood(m.Send(p).link, l.cfg.enableTxQueue, l.cfg.enableRxQueue);
      case Flushing => FlushGood(l);
      case Processing(bs) =>
        BytesGood(l, bs);
        var m := if l.hasAdapter then l.OnBytes(bs) else l;
        FlushGood(m);
        DrainGood(m.FlushTx().link, 0);
      case EnablingQueues(tx, rx) => QueueFlagsGood(l, tx, rx);
      case Taking(n) => DrainGood(l, n);
      case Configuring(cfg) => ResetGood(l, cfg);
      case _ => ResetGood(l, l.cfg);
    }
  }

  lemma SendKeepsConfig(l: Link, p: bytes)
    requires Good(l)
    ensures l.Send(p).link.cfg == l.cfg
  {
    hide Link.Send;
    var queued := SendEmitsQueued(l, p);
  }

  lemma {:induction false} StaysGood(l: Link, ops: seq<Op>)
    requires Good(l)
    ensures Good(Run(l, ops))
    decreases |ops|
  {
    hide Good, Apply;
    if ops != [] {
      StepGood(l, ops[0]);
      StaysGood(Apply(l, ops[0]), ops[1..]);
    }
  }

  /** From its construction on, whatever is done to it and whatever it receives, a link stays good. */
  lemma AlwaysGood(max: nat, hasAdapter: bool, hasCallback: bool, accepts: nat -> bool, cfg: Config, ops: seq<Op>)
    ensures Good(Run(Fresh(max, hasAdapter, hasCallback, accepts, cfg), ops))
  {
    StaysGood(Fresh(max, hasAdapter, hasCallback, accepts, cfg), ops);
  }
}
