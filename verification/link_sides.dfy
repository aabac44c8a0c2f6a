/** The two sides of a link: receiving and sending share nothing but counters. */
module LinkSides {
  import opened Bytes
  import Cobs
  import CobsCodec
  import opened LinkModel
  import opened LinkFrames
  import opened LinkInvariants

  // ---------------------------------------------------------------------------------------------
  // Receiving does not depend on what was sent or received before

  /** The two links differ at most in what sending reads and writes. */
  ghost predicate SameReceiver(l: Link, m: Link) {
    m == l.(stats := m.stats, txQueue := m.txQueue, fragmentSeq := m.fragmentSeq, attempts := m.attempts, sent := m.sent)
  }

  /** Besides, the second link has these payloads in front of its logs. */
  ghost predicate SameReceiverAfter(l: Link, m: Link, d: seq<bytes>, h: seq<bytes>) {
    m == l.(stats := m.stats, txQueue := m.txQueue, fragmentSeq := m.fragmentSeq, attempts := m.attempts, sent := m.sent,
            delivered := d + l.delivered, handed := h + l.handed)
  }

  lemma {:induction false} AcceptIgnoresStats(max: nat, cfg: Config, asm: Assembly, a: Stats, b: Stats, raw: bytes)
    ensures var x, y := Accept(max, cfg, asm, a, raw), Accept(max, cfg, asm, b, raw);
      x.asm == y.asm && x.payload == y.payload
    decreases asm.active, |raw|
  {
    if IsFragment(raw) && Judge(RawCapacity(max), asm, raw).Completed? {
      AcceptIgnoresStats(max, cfg, IDLE, a.(fragmentsReceived := a.fragmentsReceived + 1),
                         b.(fragmentsReceived := b.fragmentsReceived + 1), Judge(RawCapacity(max), asm, raw).raw);
    }
  }

  lemma PayloadAlike(l: Link, m: Link, p: bytes, d: seq<bytes>, h: seq<bytes>)
    requires SameReceiverAfter(l, m, d, h)
    ensures SameReceiverAfter(l.DeliverPayload(p), m.DeliverPayload(p), d, h)
  {
    assert d + l.delivered + [p] == d + (l.delivered + [p]) && h + l.handed + [p] == h + (l.handed + [p]);
  }

  lemma RawAlike(l: Link, m: Link, raw: bytes, d: seq<bytes>, h: seq<bytes>)
    requires SameReceiverAfter(l, m, d, h)
    ensures SameReceiverAfter(l.DeliverRaw(raw), m.DeliverRaw(raw), d, h)
  {
    hide Accept, Link.DeliverPayload;
    AcceptIgnoresStats(l.max, l.cfg, l.asm, l.stats, m.stats, raw);
    var a, b := Accept(l.max, l.cfg, l.asm, l.stats, raw), Accept(l.max, l.cfg, l.asm, m.stats, raw);
    if a.payload.Some? {
      PayloadAlike(l.(asm := a.asm, stats := a.stats), m.(asm := b.asm, stats := b.stats), a.payload.value, d, h);
    }
  }

  lemma CobsAlike(l: Link, m: Link, b: byte, d: seq<bytes>, h: seq<bytes>)
    requires SameReceiverAfter(l, m, d, h)
    ensures SameReceiverAfter(l.CobsByte(b), m.CobsByte(b), d, h)
  {
    hide Link.DeliverRaw, Cobs.Decode;
    if CobsCodec.DecodedLength(l.rx, RawCapacity(l.max)) != 0 {
      RawAlike(l, m, Cobs.Decode(l.rx).value, d, h);
    }
  }

  lemma PrefixedAlike(l: Link, m: Link, b: byte, d: seq<bytes>, h: seq<bytes>)
    requires SameReceiverAfter(l, m, d, h)
    ensures SameReceiverAfter(l.PrefixedByte(b), m.PrefixedByte(b), d, h)
  {
    hide Link.DeliverRaw, Word, RawCapacity;
    RawAlike(l, m, l.rx + [b], d, h);
  }

  lemma ByteAlike(l: Link, m: Link, b: byte, d: seq<bytes>, h: seq<bytes>)
    requires SameReceiverAfter(l, m, d, h)
    ensures SameReceiverAfter(l.OnRawByte(b), m.OnRawByte(b), d, h)
  {
    hide Link.CobsByte, Link.PrefixedByte, Link.DeliverPayload;
    CobsAlike(l, m, b, d, h);
    PrefixedAlike(l, m, b, d, h);
    PayloadAlike(l, m, [b], d, h);
  }

  lemma {:induction false} BytesAlikeAfter(l: Link, m: Link, bs: bytes, d: seq<bytes>, h: seq<bytes>)
    requires SameReceiverAfter(l, m, d, h)
    ensures SameReceiverAfter(l.OnBytes(bs), m.OnBytes(bs), d, h)
    decreases |bs|
  {
    hide Link.OnRawByte, SameReceiverAfter;
    if bs != [] {
      ByteAlike(l, m, bs[0], d, h);
      BytesAlikeAfter(l.OnRawByte(bs[0]), m.OnRawByte(bs[0]), bs[1..], d, h);
    }
  }

  /** Links that differ only on the sending side receive the same bytes alike. */
  lemma BytesAlike(l: Link, m: Link, bs: bytes)
    requires SameReceiver(l, m)
    ensures SameReceiver(l.OnBytes(bs), m.OnBytes(bs))
  {
    hide Link.OnBytes;
    assert [] + l.delivered == l.delivered && [] + l.handed == l.handed;
    BytesAlikeAfter(l, m, bs, [], []);
    var k := l.OnBytes(bs);
    assert [] + k.delivered == k.delivered && [] + k.handed == k.handed;
  }

  /**
   A reset link starts afresh: with nothing queued, it delivers and hands over just what a new one would,
   whatever was half received, half reassembled or queued before. Statistics and numbering go on.
   */
  lemma ResetForgets(l: Link, bs: bytes)
    ensures var m, k := l.Reset().OnBytes(bs), Fresh(l.max, l.hasAdapter, l.hasCallback, l.accepts, l.cfg).OnBytes(bs);
      && m.delivered == l.delivered + k.delivered && m.handed == l.handed + k.handed && m.rxQueue == k.rxQueue
      && l.Reset().txQueue == [] && l.Reset().rxQueue == []
      && l.Reset().stats == l.stats && l.Reset().fragmentSeq == l.fragmentSeq && l.Reset().cfg == l.cfg
  {
    hide Link.OnBytes;
    var begin := Fresh(l.max, l.hasAdapter, l.hasCallback, l.accepts, l.cfg);
    assert l.delivered + [] == l.delivered && l.handed + [] == l.handed;
    BytesAlikeAfter(begin, l.Reset(), bs, l.delivered, l.handed);
  }

  /** So does a link under a new configuration, which it has from then on. */
  lemma ConfigurationForgets(l: Link, cfg: Config, bs: bytes)
    ensures var m, k := l.SetConfig(cfg).OnBytes(bs), Fresh(l.max, l.hasAdapter, l.hasCallback, l.accepts, cfg).OnBytes(bs);
      && m.delivered == l.delivered + k.delivered && m.handed == l.handed + k.handed && m.rxQueue == k.rxQueue
      && l.SetConfig(cfg).txQueue == [] && l.SetConfig(cfg).rxQueue == [] && l.SetConfig(cfg).cfg == cfg
  {
    hide Link.OnBytes;
    ResetForgets(l.(cfg := cfg), bs);
  }

  // ---------------------------------------------------------------------------------------------
  // Sending does not depend on what was received

  /** The two links differ at most in what receiving reads and writes. */
  ghost predicate SameSender(l: Link, m: Link) {
    m == l.(stats := m.stats, rx := m.rx, prefix := m.prefix, expected := m.expected, asm := m.asm,
            rxQueue := m.rxQueue, delivered := m.delivered, handed := m.handed)
  }

  lemma ByteKeepsSender(l: Link, b: byte)
    ensures SameSender(l, l.OnRawByte(b))
  {
    hide Link.CobsByte, Link.PrefixedByte, Link.DeliverRaw, FrameOf, Link.DeliverPayload;
    PayloadKeepsSender(l, [b]);
    if l.cfg.Framed() {
      ByteIs(l, b);
      if FrameOf(l, b).Some? {
        DeliverRawFrame(l, FrameOf(l, b).value);
      }
    }
  }

  lemma PayloadKeepsSender(l: Link, p: bytes)
    ensures SameSender(l, l.DeliverPayload(p))
  {
  }

  /** Receiving leaves the sending side alone. */
  lemma {:induction false} BytesKeepSender(l: Link, bs: bytes)
    ensures SameSender(l, l.OnBytes(bs))
    decreases |bs|
  {
    hide Link.OnRawByte;
    if bs != [] {
      ByteKeepsSender(l, bs[0]);
      BytesKeepSender(l.OnRawByte(bs[0]), bs[1..]);
    }
  }

  lemma FrameSendsAlike(l: Link, m: Link, frame: bytes)
    requires SameSender(l, m)
    ensures var a, b := l.SendOrEnqueue(frame), m.SendOrEnqueue(frame);
      a.ok == b.ok && SameSender(a.link, b.link) && SameReceiver(l, a.link)
  {
  }

  lemma RawSendsAlike(l: Link, m: Link, raw: bytes)
    requires SameSender(l, m)
    ensures var a, b := l.SendRaw(raw), m.SendRaw(raw);
      a.ok == b.ok && SameSender(a.link, b.link) && SameReceiver(l, a.link)
  {
    hide Cobs.Encode, CobsCodec.EncodedLength, Link.SendOrEnqueue;
    if l.cfg.useCobs {
      FrameSendsAlike(l, m, Cobs.Encode(raw) + [0]);
    } else if l.cfg.useLengthPrefix {
      FrameSendsAlike(l, m, [HiByte(|raw|), LoByte(|raw|)] + raw);
    } else {
      FrameSendsAlike(l, m, raw);
    }
  }

  lemma {:induction false} FragmentsSendAlike(l: Link, m: Link, raw: bytes, seqNo: byte, chunkMax: nat, offset: nat)
    requires SameSender(l, m) && chunkMax > 0
    ensures var a, b := l.SendFragmentsFrom(raw, seqNo, chunkMax, offset), m.SendFragmentsFrom(raw, seqNo, chunkMax, offset);
      a.ok == b.ok && SameSender(a.link, b.link) && SameReceiver(l, a.link)
    decreases |raw| - offset
  {
    hide Link.SendRaw, MakeFragment;
    if offset < |raw| {
      var f := MakeFragment(raw, seqNo, chunkMax, offset);
      RawSendsAlike(l, m, f);
      var a, b := l.SendRaw(f), m.SendRaw(f);
      if a.ok {
        FragmentsSendAlike(a.link.(stats := a.link.stats.(fragmentsSent := a.link.stats.fragmentsSent + 1)),
                           b.link.(stats := b.link.stats.(fragmentsSent := b.link.stats.fragmentsSent + 1)),
                           raw, seqNo, chunkMax, offset + ChunkLength(|raw|, chunkMax, offset));
      }
    }
  }

  /** Links that differ only on the receiving side send alike, and sending leaves that side alone. */
  lemma SendsAlike(l: Link, m: Link, p: bytes)
    requires SameSender(l, m)
    ensures var a, b := l.Send(p), m.Send(p);
      a.ok == b.ok && SameSender(a.link, b.link) && SameReceiver(l, a.link)
  {
    hide Link.SendRaw, Link.SendFragmentsFrom, RawFrame;
    if l.hasAdapter && 0 < |p| <= l.max {
      var raw := RawFrame(l.cfg, p);
      RawSendsAlike(l, m, raw);
      if l.cfg.ChunkMax() > 0 {
        var seqNo := (l.fragmentSeq + 1) % 256;
        FragmentsSendAlike(l.(fragmentSeq := seqNo), m.(fragmentSeq := seqNo), raw, seqNo, l.cfg.ChunkMax(), 0);
      }
    }
  }

  lemma PhysicalAlike(l: Link, m: Link, frame: bytes)
    requires SameSender(l, m)
    ensures var a, b := l.SendPhysical(frame), m.SendPhysical(frame);
      a.ok == b.ok && SameSender(a.link, b.link) && SameReceiver(l, a.link)
  {
  }

  /** The same holds of a flush. */
  lemma {:induction false} FlushesAlike(l: Link, m: Link)
    requires SameSender(l, m)
    ensures var a, b := l.FlushTx(), m.FlushTx();
      a.ok == b.ok && SameSender(a.link, b.link) && SameReceiver(l, a.link)
    decreases |l.txQueue|
  {
    hide Link.SendPhysical;
    if l.txQueue != [] {
      PhysicalAlike(l, m, l.txQueue[0]);
      var a, b := l.SendPhysical(l.txQueue[0]), m.SendPhysical(l.txQueue[0]);
      if a.ok {
        FlushesAlike(a.link.(txQueue := l.txQueue[1..]), b.link.(txQueue := l.txQueue[1..]));
      }
    }
  }

  // ---------------------------------------------------------------------------------------------
  // A turn of the main loop

  /**
   A turn does on the sending side what a flush does, and on the receiving side what the bytes do, which
   it takes only from an adapter; then queued payloads are handed over, if there is a callback for them.
   */
  lemma TurnIs(l: Link, bs: bytes)
    ensures var m, f := l.Process(bs), l.FlushTx().link;
      && m.txQueue == f.txQueue && m.sent == f.sent && m.attempts == f.attempts
      && m.fragmentSeq == l.fragmentSeq && m.cfg == l.cfg
    ensures var m, r := l.Process(bs), if l.hasAdapter then l.OnBytes(bs) else l;
      && m.delivered == r.delivered && m.rx == r.rx && m.prefix == r.prefix && m.expected == r.expected && m.asm == r.asm
      && (if l.cfg.enableRxQueue || !l.hasCallback then m.rxQueue == r.rxQueue && m.handed == r.handed
          else m.rxQueue == [] && m.handed == r.handed + r.rxQueue)
  {
    hide Link.OnBytes, Link.FlushTx;
    var r := if l.hasAdapter then l.OnBytes(bs) else l;
    BytesKeepSender(l, bs);
    FlushesAlike(l, r);
    FlushesAlike(r, r);
    FlushKeepsSeq(l);
    assert r.handed + [] == r.handed;
  }

  lemma FlushKeepsSeq(l: Link)
    ensures l.FlushTx().link.fragmentSeq == l.fragmentSeq
  {
    hide Link.FlushTx;
    var k := FlushTakesPrefix(l);
  }
}
