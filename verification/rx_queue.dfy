/** The receive queue: what enters it, what leaves it, and that nothing is lost in between. */
module RxQueue {
  import opened Bytes
  import Cobs
  import CobsCodec
  import opened LinkModel
  import opened LinkFrames
  import opened LinkInvariants
  import opened LinkSides
  import opened Reassembly
  import opened LinkSender
  import opened LinkTheorems

  /** Payloads are queued: there is no callback, or queueing is enabled. */
  predicate Queues(l: Link) {
    l.cfg.enableRxQueue || !l.hasCallback
  }

  /** As many more payloads as the queue has room for. */
  function Room(l: Link): nat {
    if |l.rxQueue| >= 8 then 0 else 8 - |l.rxQueue|
  }

  function FirstOf(ps: seq<bytes>, n: nat): seq<bytes> {
    if |ps| <= n then ps else ps[..n]
  }

  /** The payloads that a link of this size can queue: those that it can receive, in fact. */
  function Fitting(ps: seq<bytes>, max: nat): seq<bytes> {
    if ps == [] then [] else (if |ps[0]| <= max then [ps[0]] else []) + Fitting(ps[1..], max)
  }

  lemma {:induction false} FittingConcat(a: seq<bytes>, b: seq<bytes>, max: nat)
    ensures Fitting(a + b, max) == Fitting(a, max) + Fitting(b, max)
  {
    if a == [] {
      assert a + b == b;
    } else {
      assert (a + b)[1..] == a[1..] + b;
      FittingConcat(a[1..], b, max);
    }
  }

  lemma {:induction false} AllFitting(ps: seq<bytes>, max: nat)
    requires forall p :: p in ps ==> |p| <= max
    ensures Fitting(ps, max) == ps
  {
    if ps != [] {
      AllFitting(ps[1..], max);
    }
  }

  // ---------------------------------------------------------------------------------------------
  // What enters the queue

  /**
   `m` is `l` after the payloads `d` came out of the receiver. Queued in order as far as they fit and there
   is room, the others are counted as overruns, along with `dropped` overruns of the byte buffer; or all
   of them went to the callback.
   */
  ghost predicate Took(l: Link, m: Link, d: seq<bytes>, dropped: nat) {
    var kept := FirstOf(Fitting(d, l.max), Room(l));
    && (m.delivered, m.cfg, m.hasCallback, m.max, m.stats.txQueued)
       == (l.delivered + d, l.cfg, l.hasCallback, l.max, l.stats.txQueued)
    && (m.rxQueue, m.handed, m.stats.rxQueued, m.stats.rxOverruns) ==
       if Queues(l) then
         (l.rxQueue + kept, l.handed, l.stats.rxQueued + |kept|, l.stats.rxOverruns + (|d| - |kept|) + dropped)
       else (l.rxQueue, l.handed + d, l.stats.rxQueued, l.stats.rxOverruns + dropped)
  }

  lemma TookNone(l: Link, m: Link, dropped: nat)
    requires m.delivered == l.delivered && m.cfg == l.cfg && m.hasCallback == l.hasCallback && m.max == l.max
    requires m.rxQueue == l.rxQueue && m.handed == l.handed
    requires m.stats.rxQueued == l.stats.rxQueued && m.stats.rxOverruns == l.stats.rxOverruns + dropped
    requires m.stats.txQueued == l.stats.txQueued
    ensures Took(l, m, [], dropped)
  {
    assert l.delivered + [] == l.delivered && l.rxQueue + [] == l.rxQueue && l.handed + [] == l.handed;
  }

  lemma TookTwice(l: Link, m: Link, n: Link, d: seq<bytes>, e: seq<bytes>, x: nat, y: nat)
    requires Took(l, m, d, x) && Took(m, n, e, y) && |l.rxQueue| <= QUEUE_DEPTH
    ensures Took(l, n, d + e, x + y)
  {
    assert l.delivered + d + e == l.delivered + (d + e) && l.handed + d + e == l.handed + (d + e);
    FittingConcat(d, e, l.max);
    if Queues(l) {
      var x, y := Fitting(d, l.max), Fitting(e, l.max);
      assert FirstOf(x + y, Room(l)) == FirstOf(x, Room(l)) + FirstOf(y, Room(m));
      assert l.rxQueue + FirstOf(x, Room(l)) + FirstOf(y, Room(m)) == l.rxQueue + FirstOf(x + y, Room(l));
    }
  }

  lemma PayloadTook(l: Link, p: bytes)
    requires |l.rxQueue| <= QUEUE_DEPTH
    ensures Took(l, l.DeliverPayload(p), [p], 0)
  {
    assert l.rxQueue + [] == l.rxQueue;
    assert [p][1..] == [] && [p][..0] == [];
    assert Fitting([p], l.max) == if |p| <= l.max then [p] else [];
  }

  lemma RawTook(l: Link, raw: bytes) returns (d: seq<bytes>)
    requires GoodAssembly(l.max, l.asm) && |l.rxQueue| <= QUEUE_DEPTH
    ensures Took(l, l.DeliverRaw(raw), d, 0)
  {
    hide Link.DeliverPayload, Accept;
    AcceptGood(l.max, l.cfg, l.asm, l.stats, raw);
    var a := Accept(l.max, l.cfg, l.asm, l.stats, raw);
    var m := l.(asm := a.asm, stats := a.stats);
    TookNone(l, m, 0);
    d := [];
    if a.payload.Some? {
      var p := a.payload.value;
      d := [p];
      PayloadTook(m, p);
      TookTwice(l, m, m.DeliverPayload(p), [], [p], 0, 0);
      assert [] + [p] == [p];
    }
  }

  /** The byte buffer is full: the next byte is dropped along with it. */
  predicate BufferFull(l: Link) {
    l.cfg.useCobs && |l.rx| == EncodedCapacity(l.max)
  }

  lemma OverrunsOf(l: Link, b: byte)
    requires GoodReceiver(l) && l.cfg.Framed() && FrameOf(l, b).None?
    ensures l.OnRawByte(b).stats.rxOverruns == l.stats.rxOverruns + if BufferFull(l) then 1 else 0
  {
    hide Link.DeliverRaw, Cobs.Decode, Word, RawCapacity, EncodedCapacity;
  }

  lemma CompletedNotFull(l: Link, b: byte)
    ensures FrameOf(l, b).Some? ==> !BufferFull(l)
  {
  }

  lemma ByteTook(l: Link, b: byte) returns (d: seq<bytes>)
    requires Good(l)
    ensures Took(l, l.OnRawByte(b), d, if BufferFull(l) then 1 else 0)
  {
    hide Link.CobsByte, Link.PrefixedByte, Link.DeliverPayload, Link.DeliverRaw, FrameOf, BufferFull;
    if l.cfg.Framed() {
      ByteIs(l, b);
      CompletedNotFull(l, b);
      d := [];
      if FrameOf(l, b).Some? {
        d := RawTook(l, FrameOf(l, b).value);
      } else {
        OverrunsOf(l, b);
        TookNone(l, l.OnRawByte(b), if BufferFull(l) then 1 else 0);
      }
    } else {
      d := [[b]];
      PayloadTook(l, [b]);
      NotFull(l);
    }
  }

  lemma NotFull(l: Link)
    ensures !l.cfg.useCobs ==> !BufferFull(l)
  {
  }

  /** How many of the bytes find the byte buffer full. */
  function Dropped(l: Link, bs: bytes): nat
    decreases |bs|
  {
    if bs == [] then 0 else (if BufferFull(l) then 1 else 0) + Dropped(l.OnRawByte(bs[0]), bs[1..])
  }

  lemma {:induction false} BytesTook(l: Link, bs: bytes) returns (d: seq<bytes>)
    requires Good(l)
    ensures Took(l, l.OnBytes(bs), d, Dropped(l, bs))
    decreases |bs|
  {
    hide Link.OnRawByte, Took, BufferFull;
    if bs == [] {
      d := [];
      TookNone(l, l, 0);
    } else {
      var m := l.OnRawByte(bs[0]);
      var first := ByteTook(l, bs[0]);
      ByteGood(l, bs[0]);
      TookKeeps(l, m, first, if BufferFull(l) then 1 else 0);
      var rest := BytesTook(m, bs[1..]);
      d := first + rest;
      TookTwice(l, m, l.OnBytes(bs), first, rest, if BufferFull(l) then 1 else 0, Dropped(m, bs[1..]));
    }
  }

  lemma TookKeeps(l: Link, m: Link, d: seq<bytes>, dropped: nat)
    requires Took(l, m, d, dropped)
    ensures m.cfg == l.cfg && m.max == l.max && m.hasCallback == l.hasCallback
  {
  }

  /**
   Of whatever comes out of the receiver, the queue takes in order as much as fits and it has room for,
   counting it; every other payload, and every byte that found the byte buffer full, is counted as an overrun.
   Without queueing, all of it goes to the callback.
   */
  lemma EveryPayloadTaken(l: Link, bs: bytes)
    requires Good(l)
    ensures var m := l.OnBytes(bs);
      var d := Added(l.delivered, m.delivered);
      l.delivered <= m.delivered && Took(l, m, d, Dropped(l, bs)) && (l.cfg.Framed() ==> Fitting(d, l.max) == d)
  {
    hide Link.OnBytes, Dropped;
    var d := BytesTook(l, bs);
    assert (l.delivered + d)[|l.delivered|..] == d;
    if l.cfg.Framed() {
      var e := DeliveredFit(l, bs);
      assert (l.delivered + e)[|l.delivered|..] == e;
    }
  }

  /** In a framed mode, nothing comes out that would not fit. */
  lemma {:induction false} DeliveredFit(l: Link, bs: bytes) returns (d: seq<bytes>)
    requires Good(l) && l.cfg.Framed()
    ensures l.OnBytes(bs).delivered == l.delivered + d && Fitting(d, l.max) == d
    decreases |bs|
  {
    hide Link.OnRawByte, Good;
    if bs == [] {
      d := [];
      assert l.delivered + [] == l.delivered;
    } else {
      var m := l.OnRawByte(bs[0]);
      ByteGood(l, bs[0]);
      ByteKeepsSender(l, bs[0]);
      var first := ByteFits(l, bs[0]);
      var rest := DeliveredFit(m, bs[1..]);
      d := first + rest;
      FittingConcat(first, rest, l.max);
      assert l.delivered + first + rest == l.delivered + (first + rest);
    }
  }

  lemma ByteFits(l: Link, b: byte) returns (d: seq<bytes>)
    requires Good(l) && l.cfg.Framed()
    ensures l.OnRawByte(b).delivered == l.delivered + d && Fitting(d, l.max) == d
  {
    hide Link.CobsByte, Link.PrefixedByte, Link.DeliverRaw, FrameOf, Accept;
    ByteIs(l, b);
    d := [];
    assert l.delivered + [] == l.delivered;
    if FrameOf(l, b).Some? {
      var raw := FrameOf(l, b).value;
      AcceptGood(l.max, l.cfg, l.asm, l.stats, raw);
      Delivers(l, raw);
      d := match Accept(l.max, l.cfg, l.asm, l.stats, raw).payload case None => [] case Some(p) => [p];
      AllFitting(d, l.max);
    }
  }

  /** Only a COBS receiver can find its byte buffer full. */
  lemma {:induction false} NothingDropped(l: Link, bs: bytes)
    requires !l.cfg.useCobs
    ensures Dropped(l, bs) == 0
    decreases |bs|
  {
    hide Link.OnRawByte;
    if bs != [] {
      ByteKeepsSender(l, bs[0]);
      NothingDropped(l.OnRawByte(bs[0]), bs[1..]);
    }
  }

  lemma {:induction false} FramesTook(l: Link, raws: seq<bytes>) returns (d: seq<bytes>)
    requires GoodAssembly(l.max, l.asm) && GoodQueues(l)
    ensures Took(l, DeliverAll(l, raws), d, 0)
    decreases |raws|
  {
    hide Link.DeliverRaw, Took;
    if raws == [] {
      d := [];
      TookNone(l, l, 0);
    } else {
      var m := l.DeliverRaw(raws[0]);
      var first := RawTook(l, raws[0]);
      DeliverGood(l, raws[0]);
      TookKeeps(l, m, first, 0);
      var rest := FramesTook(m, raws[1..]);
      d := first + rest;
      TookTwice(l, m, DeliverAll(l, raws), first, rest, 0, 0);
    }
  }

  // ---------------------------------------------------------------------------------------------
  // What leaves it

  /** `receive` returns the oldest payload exactly if there is one and it fits; otherwise it stays queued. */
  lemma ReceiveIff(l: Link, capacity: nat)
    ensures var (m, p) := l.Receive(capacity);
      && (p.Some? <==> l.rxQueue != [] && |l.rxQueue[0]| <= capacity)
      && (p.Some? ==> l.rxQueue == [p.value] + m.rxQueue && m.stats == l.stats)
      && (p.None? ==> m.rxQueue == l.rxQueue)
      && (p.None? && l.rxQueue != [] ==> m.stats == l.stats.(framingErrors := l.stats.framingErrors + 1))
      && m == l.(rxQueue := m.rxQueue, stats := m.stats)
  {
  }

  /** What `n` calls of `receive` return. */
  function Receives(l: Link, n: nat, capacity: nat): (Link, seq<bytes>)
    decreases n
  {
    if n == 0 then (l, [])
    else
      var (m, p) := l.Receive(capacity);
      var (k, rest) := Receives(m, n - 1, capacity);
      (k, (match p case None => [] case Some(q) => [q]) + rest)
  }

  /** With room for every payload, they return what is queued, in order, and remove just that. */
  lemma {:induction false} ReceivesInOrder(l: Link, n: nat, capacity: nat)
    requires n <= |l.rxQueue| && forall p :: p in l.rxQueue ==> |p| <= capacity
    ensures Receives(l, n, capacity) == (l.(rxQueue := l.rxQueue[n..]), l.rxQueue[..n])
    decreases n
  {
    hide Link.Receive;
    ReceiveIff(l, capacity);
    if n == 0 {
      assert l.rxQueue[0..] == l.rxQueue;
    } else {
      assert l.rxQueue[0] in l.rxQueue;
      var m := l.Receive(capacity).0;
      assert l.rxQueue == [l.rxQueue[0]] + m.rxQueue;
      assert m.rxQueue == l.rxQueue[1..];
      ReceivesInOrder(m, n - 1, capacity);
      assert m.rxQueue[n-1..] == l.rxQueue[n..];
      assert [l.rxQueue[0]] + m.rxQueue[..n-1] == l.rxQueue[..n];
    }
  }

  lemma QueuedFit(l: Link)
    requires GoodQueues(l)
    ensures forall p :: p in l.rxQueue ==> |p| <= l.max
  {
  }

  /**
   From send to `receive`: of the payloads sent, as many as the queue has room for are returned by that
   many calls, in order behind those that were queued before; each of the others counts as an overrun.
   */
  lemma SentIsReceived(s: Link, r: Link, payloads: seq<bytes>, capacity: nat)
    requires Lossless(s) && Sendable(s.max, s.cfg) && AllAcceptable(s.max, s.cfg, payloads)
    requires r.max == s.max <= capacity && SameWire(s.cfg, r.cfg) && Between(r) && Good(r) && Queues(r)
    ensures var m, kept := r.OnBytes(Flatten(Output(s, payloads))), FirstOf(payloads, Room(r));
      && Receives(m, |r.rxQueue| + |kept|, capacity).1 == r.rxQueue + kept
      && Receives(m, |r.rxQueue| + |kept|, capacity).0.rxQueue == []
      && m.stats.rxOverruns == r.stats.rxOverruns + (|payloads| - |kept|)
  {
    hide Link.OnBytes, Output, Sendable, Lossless, Receives, Took, Link.DeliverRaw, Wire;
    var bs := Flatten(Output(s, payloads));
    var m, kept := r.OnBytes(bs), FirstOf(payloads, Room(r));
    AcceptableFit(s.max, s.cfg, payloads);
    SendableFramed(s.max, s.cfg);
    OutputReceived(s, r, payloads);
    StreamRoundTrip(s, r, payloads);
    GoodParts(r);
    var d := FramesTook(r, WireAll(s.cfg, s.fragmentSeq, payloads));
    TookDelivered(r, m, d, payloads);
    BytesGood(r, bs);
    AllFitting(payloads, r.max);
    GoodParts(m);
    TookQueue(r, m, payloads, 0);
    QueuedFit(m);
    ReceivesInOrder(m, |m.rxQueue|, capacity);
    assert m.rxQueue[..|m.rxQueue|] == m.rxQueue;
  }

  lemma SendableFramed(max: nat, cfg: Config)
    requires Sendable(max, cfg)
    ensures cfg.Framed() && Sized(max)
  {
  }

  lemma GoodParts(l: Link)
    requires Good(l)
    ensures GoodAssembly(l.max, l.asm) && GoodQueues(l) && |l.rxQueue| <= QUEUE_DEPTH
  {
  }

  lemma TookDelivered(l: Link, m: Link, d: seq<bytes>, e: seq<bytes>)
    requires Took(l, m, d, 0) && m.delivered == l.delivered + e
    ensures d == e
  {
    assert (l.delivered + d)[|l.delivered|..] == d && (l.delivered + e)[|l.delivered|..] == e;
  }

  lemma TookQueue(l: Link, m: Link, d: seq<bytes>, dropped: nat)
    requires Took(l, m, d, dropped) && Queues(l)
    ensures m.max == l.max
    ensures var kept := FirstOf(Fitting(d, l.max), Room(l));
      m.rxQueue == l.rxQueue + kept && m.stats.rxOverruns == l.stats.rxOverruns + (|d| - |kept|) + dropped
  {
  }

  // ---------------------------------------------------------------------------------------------
  // A turn of the main loop

  /**
   A turn leaves nothing queued that has a callback: what was pending is handed over in order, behind
   what came out of the receiver. Without one, or with queueing enabled, the queue is filled further.
   */
  lemma TurnReceives(l: Link, bs: bytes)
    requires Good(l)
    ensures var m := l.Process(bs);
      var d := Added(l.delivered, m.delivered);
      && l.delivered <= m.delivered
      && (l.hasAdapter ==> m.delivered == l.OnBytes(bs).delivered) && (!l.hasAdapter ==> d == [])
      && (if Queues(l) then m.rxQueue == l.rxQueue + FirstOf(Fitting(d, l.max), Room(l)) && m.handed == l.handed
          else m.rxQueue == [] && m.handed == l.handed + d + l.rxQueue)
  {
    hide Link.OnBytes, Link.Process, Dropped, Good;
    TurnIs(l, bs);
    EveryPayloadTaken(l, bs);
    assert l.delivered[|l.delivered|..] == [];
    assert l.rxQueue + [] == l.rxQueue && l.handed + [] == l.handed;
    assert FirstOf(Fitting([], l.max), Room(l)) == [];
  }
}
