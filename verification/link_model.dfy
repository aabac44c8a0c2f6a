/**
 The framed link as a state machine on values: what each public operation makes of the state that
 `IPCLink` keeps, with the buffers seen as the byte strings they hold.

 The maximal payload size is a parameter; the frame check is CRC-16/CCITT.
 */
module LinkModel {
  import opened Bytes
  import opened Cobs
  import opened CobsCodec
  import opened Crc

  const CRC_SIZE := 2
  const LENGTH_PREFIX_SIZE := 2
  const FRAGMENT_HEADER_SIZE := 9
  const QUEUE_DEPTH := 8
  const MAGIC0: byte := 0xA5
  const MAGIC1: byte := 0x5A
  const FLAG_START: byte := 1
  const FLAG_END: byte := 2

  function RawCapacity(max: nat): nat {
    max + CRC_SIZE
  }

  function EncodedCapacity(max: nat): nat {
    RawCapacity(max) + RawCapacity(max) / 254 + 6
  }

  function FrameCapacity(max: nat): nat {
    var rawFrame := RawCapacity(max) + LENGTH_PREFIX_SIZE;
    if EncodedCapacity(max) > rawFrame then EncodedCapacity(max) else rawFrame
  }

  datatype Config = Config(
    useCobs: bool, useCrc: bool, useLengthPrefix: bool, physicalFrameLimit: nat,
    enableTxQueue: bool, enableRxQueue: bool)
  {
    predicate Framed() {
      useCobs || useLengthPrefix
    }

    /** Bytes that framing adds at least; the COBS code bytes beyond the first are not counted. */
    function Overhead(): nat {
      if useLengthPrefix then LENGTH_PREFIX_SIZE else if useCobs then 2 else 0
    }

    predicate ShouldFragment(rawLen: nat) {
      physicalFrameLimit != 0 && rawLen + Overhead() > physicalFrameLimit
    }

    /** The data bytes of a full fragment, as far as the frame limit leaves room for any. */
    function ChunkMax(): int {
      physicalFrameLimit - Overhead() - FRAGMENT_HEADER_SIZE
    }
  }

  const FOR_UART := Config(true, true, false, 0, false, false)
  const FOR_CAN_FD := Config(false, false, true, 64, false, false)

  datatype Stats = Stats(
    framesReceived: nat, framesSent: nat, crcErrors: nat, framingErrors: nat, rxOverruns: nat,
    txOverruns: nat, txErrors: nat, rxQueued: nat, txQueued: nat, fragmentsSent: nat,
    fragmentsReceived: nat, reassemblyErrors: nat, bytesSent: nat, bytesReceived: nat)

  const NO_STATS := Stats(0, 0, 0, 0, 0, 0, 0, 0, 0, 0, 0, 0, 0, 0)

  // ---------------------------------------------------------------------------------------------
  // Raw frames

  /** A payload with its frame check, if the link uses one. */
  function RawFrame(cfg: Config, payload: bytes): bytes {
    if cfg.useCrc then payload + Field(Checksum(payload)) else payload
  }

  datatype Extracted = Payload(payload: bytes) | FramingError | CrcError

  function Extract(max: nat, cfg: Config, raw: bytes): Extracted {
    if cfg.useCrc then
      if |raw| < CRC_SIZE || |raw| - CRC_SIZE > max then FramingError
      else
        var n := |raw| - CRC_SIZE;
        if ReadField(raw[n], raw[n+1]) == Checksum(raw[..n]) as int then Payload(raw[..n]) else CrcError
    else if |raw| > max then FramingError
    else Payload(raw)
  }

  // ---------------------------------------------------------------------------------------------
  // Fragments

  predicate IsFragment(raw: bytes) {
    |raw| >= FRAGMENT_HEADER_SIZE && raw[0] == MAGIC0 && raw[1] == MAGIC1
  }

  /** Bit 0 of the flags. */
  predicate HasStart(flags: byte) {
    flags == 1 || (flags >= 2 && HasStart(flags - 2))
  }

  /** Bit 1 of the flags. */
  predicate HasEnd(flags: byte) {
    flags == 2 || flags == 3 || (flags >= 4 && HasEnd(flags - 4))
  }

  lemma {:induction false} FlagBits(flags: byte)
    ensures HasStart(flags) <==> flags % 2 == 1
    ensures HasEnd(flags) <==> flags / 2 % 2 == 1
  {
    if flags >= 4 {
      FlagBits(flags - 4);
    }
  }

  function ChunkLength(rawLen: nat, chunkMax: nat, offset: nat): (n: nat)
    requires offset <= rawLen
    ensures n <= chunkMax && offset + n <= rawLen && (n < chunkMax ==> offset + n == rawLen)
  {
    if rawLen - offset > chunkMax then chunkMax else rawLen - offset
  }

  function FlagsFor(first: bool, last: bool): byte {
    (if first then FLAG_START else 0) + (if last then FLAG_END else 0)
  }

  function Header(seqNo: byte, flags: byte, total: nat, offset: nat, n: nat): (h: bytes)
    ensures |h| == FRAGMENT_HEADER_SIZE
  {
    [MAGIC0, MAGIC1, seqNo, flags, HiByte(total), LoByte(total), HiByte(offset), LoByte(offset), LoByte(n)]
  }

  /** The fragment that carries the bytes of `raw` from `offset` on. */
  function MakeFragment(raw: bytes, seqNo: byte, chunkMax: nat, offset: nat): bytes
    requires offset <= |raw|
  {
    var n := ChunkLength(|raw|, chunkMax, offset);
    Header(seqNo, FlagsFor(offset == 0, offset + n == |raw|), |raw|, offset, n) + raw[offset..offset+n]
  }

  /** The reassembly buffer: `data` are the bytes received so far. */
  datatype Assembly = Assembly(active: bool, seqNo: byte, total: nat, data: bytes)

  const IDLE := Assembly(false, 0, 0, [])

  /** What a fragment does to the reassembly buffer. */
  datatype Verdict = Refused | EndedEarly | Stored(asm: Assembly) | Completed(raw: bytes)

  function Judge(capacity: nat, asm: Assembly, raw: bytes): Verdict
    requires IsFragment(raw)
  {
    var seqNo, flags, n := raw[2], raw[3], raw[8];
    var total, offset := Word(raw[4], raw[5]), Word(raw[6], raw[7]);
    if total == 0 || total > capacity || n == 0 || FRAGMENT_HEADER_SIZE + n != |raw| || offset + n > total then Refused
    else
      var a := if HasStart(flags) then Assembly(true, seqNo, total, []) else asm;
      if !a.active || a.seqNo != seqNo || a.total != total || offset != |a.data| then Refused
      else
        var b := a.(data := a.data + raw[FRAGMENT_HEADER_SIZE..]);
        if !HasEnd(flags) then Stored(b)
        else if |b.data| == b.total then Completed(b.data)
        else EndedEarly
  }

  /** What becomes of a raw frame: the reassembly state, the counters and the payload, if any. */
  datatype Arrival = Arrival(asm: Assembly, stats: Stats, payload: Option<bytes>)

  /**
   A raw frame is a fragment or carries a payload. The raw frame that a last fragment completes is
   treated in the same way, so it may itself be taken for a fragment.
   */
  function Accept(max: nat, cfg: Config, asm: Assembly, stats: Stats, raw: bytes): Arrival
    decreases asm.active, |raw|
  {
    if IsFragment(raw) then
      match Judge(RawCapacity(max), asm, raw)
      case Refused =>
        Arrival(IDLE, stats.(reassemblyErrors := stats.reassemblyErrors + 1), None)
      case EndedEarly =>
        Arrival(IDLE, stats.(fragmentsReceived := stats.fragmentsReceived + 1,
                             reassemblyErrors := stats.reassemblyErrors + 1), None)
      case Stored(a) =>
        Arrival(a, stats.(fragmentsReceived := stats.fragmentsReceived + 1), None)
      case Completed(whole) =>
        Accept(max, cfg, IDLE, stats.(fragmentsReceived := stats.fragmentsReceived + 1), whole)
    else
      match Extract(max, cfg, raw)
      case Payload(p) => Arrival(asm, stats, Some(p))
      case FramingError => Arrival(asm, stats.(framingErrors := stats.framingErrors + 1), None)
      case CrcError => Arrival(asm, stats.(crcErrors := stats.crcErrors + 1), None)
  }

  // ---------------------------------------------------------------------------------------------
  // The link

  /** The state after an operation that reports success or failure. */
  datatype Attempt = Attempt(link: Link, ok: bool)

  datatype Link = Link(
    max: nat,                 // MaxPayload
    hasAdapter: bool,
    hasCallback: bool,
    accepts: nat -> bool,     // whether the adapter takes the frame of its k-th transmission
    cfg: Config,
    stats: Stats,
    rx: bytes,                // rx_buf_[..rx_idx_]
    prefix: bytes,            // length_prefix_buf_[..length_prefix_bytes_]
    expected: nat,
    asm: Assembly,
    txQueue: seq<bytes>,
    rxQueue: seq<bytes>,
    fragmentSeq: byte,
    attempts: nat,            // transmissions the adapter was asked for
    sent: seq<bytes>,         // frames the adapter took
    delivered: seq<bytes>,    // payloads that came out of the receiver
    handed: seq<bytes>)       // payloads passed to the callback
  {
    // Receiving

    function QueuePayload(p: bytes): Link {
      if |p| > max || |rxQueue| >= QUEUE_DEPTH then this.(stats := stats.(rxOverruns := stats.rxOverruns + 1))
      else this.(rxQueue := rxQueue + [p], stats := stats.(rxQueued := stats.rxQueued + 1))
    }

    function DeliverPayload(p: bytes): Link {
      var l := this.(stats := stats.(framesReceived := stats.framesReceived + 1,
                                     bytesReceived := stats.bytesReceived + |p|),
                     delivered := delivered + [p]);
      if cfg.enableRxQueue || !hasCallback then l.QueuePayload(p) else l.(handed := handed + [p])
    }

    function DeliverRaw(raw: bytes): Link {
      var a := Accept(max, cfg, asm, stats, raw);
      var l := this.(asm := a.asm, stats := a.stats);
      match a.payload
      case None => l
      case Some(p) => l.DeliverPayload(p)
    }

    function CompleteFrame(data: bytes): Link {
      if DecodedLength(data, RawCapacity(max)) == 0 then
        this.(stats := stats.(framingErrors := stats.framingErrors + 1))
      else DeliverRaw(Decode(data).value)
    }

    function CobsByte(b: byte): Link {
      if |rx| >= EncodedCapacity(max) then this.(stats := stats.(rxOverruns := stats.rxOverruns + 1), rx := [])
      else if b == 0 && |rx| > 0 then CompleteFrame(rx).(rx := [])
      else this.(rx := rx + [b])
    }

    function ResetPrefix(): Link {
      this.(prefix := [], expected := 0, rx := [])
    }

    function PrefixedByte(b: byte): Link {
      if |prefix| < LENGTH_PREFIX_SIZE then
        var p := prefix + [b];
        if |p| < LENGTH_PREFIX_SIZE then this.(prefix := p)
        else
          var n := Word(p[0], p[1]);
          if n == 0 || n > RawCapacity(max) then
            this.(stats := stats.(framingErrors := stats.framingErrors + 1)).ResetPrefix()
          else this.(prefix := p, expected := n)
      else if |rx| < expected then
        var buf := rx + [b];
        if |buf| == expected then DeliverRaw(buf).ResetPrefix() else this.(rx := buf)
      else this.(stats := stats.(rxOverruns := stats.rxOverruns + 1)).ResetPrefix()
    }

    function OnRawByte(b: byte): Link {
      if cfg.useCobs then CobsByte(b)
      else if cfg.useLengthPrefix then PrefixedByte(b)
      else DeliverPayload([b])
    }

    /** The bytes of a stream, one at a time. */
    function OnBytes(s: bytes): Link
      decreases |s|
    {
      if s == [] then this else OnRawByte(s[0]).OnBytes(s[1..])
    }

    function Receive(capacity: nat): (Link, Option<bytes>) {
      if rxQueue == [] then (this, None)
      else if |rxQueue[0]| > capacity then
        (this.(stats := stats.(framingErrors := stats.framingErrors + 1)), None)
      else (this.(rxQueue := rxQueue[1..]), Some(rxQueue[0]))
    }

    function DrainRx(): Link {
      if cfg.enableRxQueue || !hasCallback then this
      else this.(rxQueue := [], handed := handed + rxQueue)
    }

    // Sending

    function SendPhysical(frame: bytes): Attempt {
      if !hasAdapter || frame == [] then Attempt(this, false)
      else if cfg.physicalFrameLimit > 0 && |frame| > cfg.physicalFrameLimit then
        Attempt(this.(stats := stats.(txErrors := stats.txErrors + 1)), false)
      else if accepts(attempts) then
        Attempt(this.(attempts := attempts + 1, sent := sent + [frame],
                      stats := stats.(framesSent := stats.framesSent + 1, bytesSent := stats.bytesSent + |frame|)), true)
      else
        Attempt(this.(attempts := attempts + 1, stats := stats.(txErrors := stats.txErrors + 1)), false)
    }

    function Enqueue(frame: bytes): Attempt {
      if frame == [] || |frame| > FrameCapacity(max) || |txQueue| >= QUEUE_DEPTH then
        Attempt(this.(stats := stats.(txOverruns := stats.txOverruns + 1)), false)
      else
        Attempt(this.(txQueue := txQueue + [frame], stats := stats.(txQueued := stats.txQueued + 1)), true)
    }

    function SendOrEnqueue(frame: bytes): Attempt {
      if cfg.enableTxQueue then Enqueue(frame) else SendPhysical(frame)
    }

    function SendRaw(raw: bytes): Attempt {
      if raw == [] then Attempt(this, false)
      else if cfg.useCobs then
        var n := EncodedLength(raw, EncodedCapacity(max) - 1);
        if n == 0 || n >= EncodedCapacity(max) then
          Attempt(this.(stats := stats.(framingErrors := stats.framingErrors + 1)), false)
        else SendOrEnqueue(Encode(raw) + [0])
      else if cfg.useLengthPrefix then
        if |raw| + LENGTH_PREFIX_SIZE > FrameCapacity(max) then
          Attempt(this.(stats := stats.(txErrors := stats.txErrors + 1)), false)
        else SendOrEnqueue([HiByte(|raw|), LoByte(|raw|)] + raw)
      else SendOrEnqueue(raw)
    }

    /** The fragments from `offset` on; the first one that cannot be sent ends the attempt. */
    function SendFragmentsFrom(raw: bytes, seqNo: byte, chunkMax: nat, offset: nat): Attempt
      requires chunkMax > 0
      decreases |raw| - offset
    {
      if offset >= |raw| then Attempt(this, true)
      else
        var a := SendRaw(MakeFragment(raw, seqNo, chunkMax, offset));
        if !a.ok then a
        else
          a.link.(stats := a.link.stats.(fragmentsSent := a.link.stats.fragmentsSent + 1))
          .SendFragmentsFrom(raw, seqNo, chunkMax, offset + ChunkLength(|raw|, chunkMax, offset))
    }

    function SendFragmented(raw: bytes): Attempt {
      if raw == [] || cfg.ChunkMax() <= 0 || |raw| > RawCapacity(max) then
        Attempt(this.(stats := stats.(txErrors := stats.txErrors + 1)), false)
      else
        var seqNo := (fragmentSeq + 1) % 256;
        this.(fragmentSeq := seqNo).SendFragmentsFrom(raw, seqNo, cfg.ChunkMax(), 0)
    }

    function Send(payload: bytes): Attempt {
      if !hasAdapter || payload == [] || |payload| > max then Attempt(this, false)
      else
        var raw := RawFrame(cfg, payload);
        if cfg.ShouldFragment(|raw|) then SendFragmented(raw) else SendRaw(raw)
    }

    function SendAsync(payload: bytes): Attempt {
      var a := this.(cfg := cfg.(enableTxQueue := true)).Send(payload);
      a.(link := a.link.(cfg := a.link.cfg.(enableTxQueue := cfg.enableTxQueue)))
    }

    function FlushTx(): Attempt
      decreases |txQueue|
    {
      if txQueue == [] then Attempt(this, true)
      else
        var a := SendPhysical(txQueue[0]);
        if !a.ok then a else a.link.(txQueue := txQueue[1..]).FlushTx()
    }

    /** One turn of the main loop, during which the adapter hands over the bytes `polled`. */
    function Process(polled: bytes): Link {
      (if hasAdapter then OnBytes(polled) else this).FlushTx().link.DrainRx()
    }

    // Configuration

    function Reset(): Link {
      this.(rx := [], prefix := [], expected := 0, asm := IDLE, txQueue := [], rxQueue := [])
    }

    function SetConfig(config: Config): Link {
      this.(cfg := config).Reset()
    }
  }

  /** A link as its constructor leaves it. */
  function Fresh(max: nat, hasAdapter: bool, hasCallback: bool, accepts: nat -> bool, cfg: Config): Link {
    Link(max, hasAdapter, hasCallback, accepts, cfg, NO_STATS, [], [], 0, IDLE, [], [], 0, 0, [], [], [])
  }
}
