/** The statistics: frames and payloads are counted where they pass, and every failure once. */
module Counters {
  import opened Bytes
  import Cobs
  import CobsCodec
  import Crc
  import FrameErrors
  import opened LinkModel
  import opened LinkFrames
  import opened LinkInvariants

  function Total(ps: seq<bytes>): nat {
    if ps == [] then 0 else |ps[0]| + Total(ps[1..])
  }

  lemma {:induction false} TotalConcat(a: seq<bytes>, b: seq<bytes>)
    ensures Total(a + b) == Total(a) + Total(b)
  {
    if a == [] {
      assert a + b == b;
    } else {
      assert (a + b)[1..] == a[1..] + b;
      TotalConcat(a[1..], b);
    }
  }

  // ---------------------------------------------------------------------------------------------
  // What passes

  /** How far the counters of frames and bytes, received and sent, are ahead of the logs: all 0 in a new link. */
  function Ahead(l: Link): (int, int, int, int) {
    (l.stats.framesReceived - |l.delivered|, l.stats.bytesReceived - Total(l.delivered),
     l.stats.framesSent - |l.sent|, l.stats.bytesSent - Total(l.sent))
  }

  lemma TotalMore(ps: seq<bytes>, p: bytes)
    ensures Total(ps + [p]) == Total(ps) + |p|
  {
    TotalConcat(ps, [p]);
  }

  lemma PayloadCounted(l: Link, p: bytes)
    ensures Ahead(l.DeliverPayload(p)) == Ahead(l)
  {
    hide Total;
    TotalMore(l.delivered, p);
  }

  lemma {:induction false} AcceptCounts(max: nat, cfg: Config, asm: Assembly, stats: Stats, raw: bytes)
    ensures var a := Accept(max, cfg, asm, stats, raw);
      a.stats == stats.(framingErrors := a.stats.framingErrors, crcErrors := a.stats.crcErrors,
                        fragmentsReceived := a.stats.fragmentsReceived, reassemblyErrors := a.stats.reassemblyErrors)
    decreases asm.active, |raw|
  {
    hide Extract;
    if IsFragment(raw) {
      var v := Judge(RawCapacity(max), asm, raw);
      if v.Completed? {
        AcceptCounts(max, cfg, IDLE, stats.(fragmentsReceived := stats.fragmentsReceived + 1), v.raw);
      }
    }
  }

  lemma RawCounted(l: Link, raw: bytes)
    ensures Ahead(l.DeliverRaw(raw)) == Ahead(l)
  {
    hide Accept, Link.DeliverPayload, Total;
    AcceptCounts(l.max, l.cfg, l.asm, l.stats, raw);
    var a := Accept(l.max, l.cfg, l.asm, l.stats, raw);
    if a.payload.Some? {
      PayloadCounted(l.(asm := a.asm, stats := a.stats), a.payload.value);
    }
  }

  lemma {:induction false} BytesCounted(l: Link, bs: bytes)
    ensures Ahead(l.OnBytes(bs)) == Ahead(l)
    decreases |bs|
  {
    hide Link.CobsByte, Link.PrefixedByte, Link.DeliverPayload, Link.DeliverRaw, Total, FrameOf;
    if bs != [] {
      if l.cfg.Framed() {
        ByteIs(l, bs[0]);
        if FrameOf(l, bs[0]).Some? {
          RawCounted(l, FrameOf(l, bs[0]).value);
        }
      } else {
        PayloadCounted(l, [bs[0]]);
      }
      BytesCounted(l.OnRawByte(bs[0]), bs[1..]);
    }
  }

  lemma PhysicalCounted(l: Link, frame: bytes)
    ensures Ahead(l.SendPhysical(frame).link) == Ahead(l)
  {
    hide Total;
    TotalMore(l.sent, frame);
  }

  lemma RawSendCounted(l: Link, raw: bytes)
    ensures Ahead(l.SendRaw(raw).link) == Ahead(l)
  {
    hide Link.SendPhysical, Cobs.Encode, CobsCodec.EncodedLength, Total;
    PhysicalCounted(l, Cobs.Encode(raw) + [0]);
    PhysicalCounted(l, [HiByte(|raw|), LoByte(|raw|)] + raw);
    PhysicalCounted(l, raw);
  }

  lemma {:induction false} FragmentsCounted(l: Link, raw: bytes, seqNo: byte, chunkMax: nat, offset: nat)
    requires chunkMax > 0
    ensures Ahead(l.SendFragmentsFrom(raw, seqNo, chunkMax, offset).link) == Ahead(l)
    decreases |raw| - offset
  {
    hide Link.SendRaw, MakeFragment, Total;
    if offset < |raw| {
      RawSendCounted(l, MakeFragment(raw, seqNo, chunkMax, offset));
      var a := l.SendRaw(MakeFragment(raw, seqNo, chunkMax, offset));
      if a.ok {
        FragmentsCounted(a.link.(stats := a.link.stats.(fragmentsSent := a.link.stats.fragmentsSent + 1)),
                         raw, seqNo, chunkMax, offset + ChunkLength(|raw|, chunkMax, offset));
      }
    }
  }

  lemma SendCounted(l: Link, p: bytes)
    ensures Ahead(l.Send(p).link) == Ahead(l)
  {
    hide Link.SendRaw, Link.SendFragmentsFrom, RawFrame, Total;
    var m := l.(fragmentSeq := (l.fragmentSeq + 1) % 256);
    RawSendCounted(l, RawFrame(l.cfg, p));
    if l.cfg.ChunkMax() > 0 {
      FragmentsCounted(m, RawFrame(l.cfg, p), m.fragmentSeq, l.cfg.ChunkMax(), 0);
    }
  }

  lemma {:induction false} FlushCounted(l: Link)
    ensures Ahead(l.FlushTx().link) == Ahead(l)
    decreases |l.txQueue|
  {
    hide Link.SendPhysical, Total;
    if l.txQueue != [] {
      PhysicalCounted(l, l.txQueue[0]);
      var a := l.SendPhysical(l.txQueue[0]);
      if a.ok {
        FlushCounted(a.link.(txQueue := l.txQueue[1..]));
      }
    }
  }

  lemma StepCounted(l: Link, op: Op)
    requires !op.ResettingStats?
    ensures Ahead(Apply(l, op)) == Ahead(l)
  {
    hide Link.OnBytes, Link.Send, Link.FlushTx, Total;
    match op {
      case Receiving(bs) => BytesCounted(l, bs);
      case Sending(p) => SendCounted(l, p);
      case SendingAsync(p) => SendCounted(l.(cfg := l.cfg.(enableTxQueue := true)), p);
      case Flushing => FlushCounted(l);
      case Processing(bs) =>
        BytesCounted(l, bs);
        FlushCounted(if l.hasAdapter then l.OnBytes(bs) else l);
      case _ =>
    }
  }

  /**
   Over any run of operations that does not reset the statistics, the counters keep up with the logs:
   exactly what is delivered and what the adapter takes is counted, in frames and in bytes.
   */
  lemma {:induction false} RunCounted(l: Link, ops: seq<Op>)
    requires forall op :: op in ops ==> !op.ResettingStats?
    ensures Ahead(Run(l, ops)) == Ahead(l)
    decreases |ops|
  {
    hide Apply, Ahead;
    if ops != [] {
      StepCounted(l, ops[0]);
      RunCounted(Apply(l, ops[0]), ops[1..]);
    }
  }

  // ---------------------------------------------------------------------------------------------
  // What fails

  /** Too short for a frame check, or too long for a payload. */
  predicate WrongSize(max: nat, cfg: Config, raw: bytes) {
    var check := if cfg.useCrc then 2 else 0;
    |raw| < check || |raw| > max + check
  }

  /**
   A raw frame other than a fragment that no sender built is rejected and counted once: as a framing
   error if its size is wrong, as a CRC error otherwise. It changes nothing else.
   */
  lemma RejectedCounted(l: Link, raw: bytes)
    requires !IsFragment(raw) && forall p: bytes :: |p| <= l.max ==> raw != RawFrame(l.cfg, p)
    ensures l.DeliverRaw(raw) == l.(stats :=
      if WrongSize(l.max, l.cfg, raw) then l.stats.(framingErrors := l.stats.framingErrors + 1)
      else l.stats.(crcErrors := l.stats.crcErrors + 1))
    ensures !WrongSize(l.max, l.cfg, raw) ==> l.cfg.useCrc
  {
    hide RawFrame, Crc.ReadField, Crc.Checksum, IsFragment;
    var e := Extract(l.max, l.cfg, raw);
    if e.Payload? {
      FrameErrors.AcceptedIffBuilt(l.max, l.cfg, raw, e.payload);
      assert false;
    }
  }

  /** Failures of sends. */
  function Failures(l: Link): nat {
    l.stats.txErrors + l.stats.txOverruns + l.stats.framingErrors
  }

  lemma FrameFailure(l: Link, frame: bytes)
    requires l.hasAdapter && frame != []
    ensures var a := l.SendOrEnqueue(frame);
      Failures(a.link) == Failures(l) + (if a.ok then 0 else 1) && a.link.hasAdapter
  {
  }

  lemma RawSendFailure(l: Link, raw: bytes)
    requires l.hasAdapter && raw != []
    ensures var a := l.SendRaw(raw);
      Failures(a.link) == Failures(l) + (if a.ok then 0 else 1) && a.link.hasAdapter
  {
    hide Link.SendOrEnqueue, Cobs.Encode, CobsCodec.EncodedLength;
    FrameFailure(l, Cobs.Encode(raw) + [0]);
    FrameFailure(l, [HiByte(|raw|), LoByte(|raw|)] + raw);
    FrameFailure(l, raw);
  }

  lemma {:induction false} FragmentsFailure(l: Link, raw: bytes, seqNo: byte, chunkMax: nat, offset: nat)
    requires l.hasAdapter && chunkMax > 0
    ensures var a := l.SendFragmentsFrom(raw, seqNo, chunkMax, offset); Failures(a.link) == Failures(l) + if a.ok then 0 else 1
    decreases |raw| - offset
  {
    hide Link.SendRaw, MakeFragment;
    if offset < |raw| {
      var f := MakeFragment(raw, seqNo, chunkMax, offset);
      FragmentNotEmpty(raw, seqNo, chunkMax, offset);
      RawSendFailure(l, f);
      var a := l.SendRaw(f);
      if a.ok {
        FragmentsFailure(a.link.(stats := a.link.stats.(fragmentsSent := a.link.stats.fragmentsSent + 1)),
                         raw, seqNo, chunkMax, offset + ChunkLength(|raw|, chunkMax, offset));
      }
    }
  }

  lemma FragmentNotEmpty(raw: bytes, seqNo: byte, chunkMax: nat, offset: nat)
    requires offset <= |raw|
    ensures MakeFragment(raw, seqNo, chunkMax, offset) != []
  {
  }

  /** A send of a payload that the link takes fails together with exactly one error or overrun counted. */
  lemma FailedSendCounted(l: Link, p: bytes)
    requires l.hasAdapter && 0 < |p| <= l.max
    ensures var a := l.Send(p); Failures(a.link) == Failures(l) + if a.ok then 0 else 1
  {
    hide Link.SendRaw, Link.SendFragmentsFrom;
    var raw, m := RawFrame(l.cfg, p), l.(fragmentSeq := (l.fragmentSeq + 1) % 256);
    assert raw != [];
    hide RawFrame;
    RawSendFailure(l, raw);
    if l.cfg.ChunkMax() > 0 {
      FragmentsFailure(m, raw, m.fragmentSeq, l.cfg.ChunkMax(), 0);
    }
  }
}
