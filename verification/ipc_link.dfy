/**
 `IPCLink` itself: the operations in the order in which the code carries them out, on its buffers and
 counters, each proved to change the state as LinkModel says.
 */
module IpcLink {
  import opened Bytes
  import opened Cobs
  import opened CobsCodec
  import opened Crc
  import opened LinkModel
  import opened LinkFrames
  import opened Reassembly
  import opened Buffers

  class IPCLink {
    const maxPayload: nat
    const adapter: Adapter?
    const hasCallback: bool
    var config: Config
    var stats: Stats
    const rxBuf: array<byte>
    var rxIdx: nat
    const prefixBuf: array<byte>
    var prefixBytes: nat
    var expectedLen: nat
    const decodeBuf: array<byte>
    const txQueue: RingQueue
    const rxQueue: RingQueue
    const reassembly: ReassemblyState
    var fragmentSeq: byte
    ghost var delivered: seq<bytes>  // payloads that came out of the receiver
    var handed: seq<bytes>           // the callback's calls: the payloads passed to it, in order

    ghost function Repr(): set<object> {
      {this, rxBuf, prefixBuf, decodeBuf, txQueue, txQueue.slots, rxQueue, rxQueue.slots, reassembly, reassembly.data}
      + if adapter == null then {} else {adapter}
    }

    ghost predicate Valid()
      reads Repr()
    {
      && rxBuf.Length == EncodedCapacity(maxPayload) && rxIdx <= rxBuf.Length
      && prefixBuf.Length == LENGTH_PREFIX_SIZE && prefixBytes <= LENGTH_PREFIX_SIZE
      && expectedLen <= RawCapacity(maxPayload) && decodeBuf.Length == maxPayload
      && reassembly.data.Length == RawCapacity(maxPayload) && reassembly.Valid()
      && txQueue.Valid() && rxQueue.Valid()
      && rxBuf != prefixBuf && rxBuf != decodeBuf && rxBuf != reassembly.data
      && prefixBuf != decodeBuf && prefixBuf != reassembly.data && decodeBuf != reassembly.data
      && txQueue != rxQueue && txQueue.slots != rxQueue.slots
    }

    /** The state that LinkModel speaks of. */
    ghost function State(): Link
      requires Valid()
      reads Repr()
    {
      Link(maxPayload, adapter != null, hasCallback, if adapter == null then _ => false else adapter.accepts,
           config, stats, rxBuf[..rxIdx], prefixBuf[..prefixBytes], expectedLen, reassembly.Value(),
           txQueue.Items(), rxQueue.Items(), fragmentSeq,
           if adapter == null then 0 else adapter.attempts, if adapter == null then [] else adapter.sent,
           delivered, handed)
    }

    constructor (maxPayload: nat, adapter: Adapter?, hasCallback: bool, config: Config)
      requires adapter != null ==> adapter.attempts == 0 && adapter.sent == []
      ensures Valid() && fresh(Repr() - {adapter})
      ensures State() == Fresh(maxPayload, adapter != null, hasCallback,
                               if adapter == null then _ => false else adapter.accepts, config)
    {
      this.maxPayload := maxPayload;
      this.adapter := adapter;
      this.hasCallback := hasCallback;
      this.config := config;
      stats := NO_STATS;
      rxBuf := new byte[EncodedCapacity(maxPayload)];
      prefixBuf := new byte[LENGTH_PREFIX_SIZE];
      decodeBuf := new byte[maxPayload];
      rxIdx, prefixBytes, expectedLen, fragmentSeq := 0, 0, 0, 0;
      txQueue := new RingQueue();
      rxQueue := new RingQueue();
      reassembly := new ReassemblyState(RawCapacity(maxPayload));
      delivered, handed := [], [];
    }

    // -------------------------------------------------------------------------------------------
    // Receiving

    method QueuePayload(data: array<byte>, len: nat)
      requires Valid() && len <= data.Length
      modifies this`stats, rxQueue, rxQueue.slots
      ensures Valid() && State() == old(State()).QueuePayload(old(data[..len]))
    {
      if len > maxPayload || rxQueue.count >= QUEUE_DEPTH {
        stats := stats.(rxOverruns := stats.rxOverruns + 1);
        return;
      }
      rxQueue.Push(data[..len]);
      stats := stats.(rxQueued := stats.rxQueued + 1);
    }

    method DeliverPayload(data: array<byte>, len: nat)
      requires Valid() && len <= data.Length
      modifies this`stats, this`delivered, this`handed, rxQueue, rxQueue.slots
      ensures Valid() && State() == old(State()).DeliverPayload(old(data[..len]))
    {
      hide Link.QueuePayload;
      stats := stats.(framesReceived := stats.framesReceived + 1, bytesReceived := stats.bytesReceived + len);
      delivered := delivered + [data[..len]];
      if config.enableRxQueue || !hasCallback {
        QueuePayload(data, len);
        return;
      }
      handed := handed + [data[..len]]; // the callback
    }

    /** Whether the two bytes behind the payload are its CRC. */
    method CrcMatches(raw: array<byte>, payloadLen: nat) returns (ok: bool)
      requires payloadLen + CRC_SIZE <= raw.Length
      ensures ok == (ReadField(raw[payloadLen], raw[payloadLen+1]) == Checksum(raw[..payloadLen]) as int)
    {
      hide Checksum;
      var receivedCrc := ReadField(raw[payloadLen], raw[payloadLen+1]);
      var computed := Compute(raw, payloadLen);
      return receivedCrc == computed as int;
    }

    method ExtractPayloadFromRaw(raw: array<byte>, rawLen: nat) returns (ok: bool, payloadLen: nat)
      requires Valid() && rawLen <= raw.Length && raw != decodeBuf
      modifies this`stats, decodeBuf
      ensures var e := Extract(maxPayload, config, old(raw[..rawLen]));
        && ok == e.Payload? && (ok ==> payloadLen <= maxPayload && decodeBuf[..payloadLen] == e.payload)
        && stats == match e
                    case Payload(_) => old(stats)
                    case FramingError => old(stats).(framingErrors := old(stats).framingErrors + 1)
                    case CrcError => old(stats).(crcErrors := old(stats).crcErrors + 1)
    {
      hide Checksum, ReadField;
      ok, payloadLen := false, rawLen;
      ghost var frame := raw[..rawLen];
      if config.useCrc {
        if rawLen < CRC_SIZE {
          stats := stats.(framingErrors := stats.framingErrors + 1);
          return;
        }
        payloadLen := rawLen - CRC_SIZE;
        if payloadLen > maxPayload {
          stats := stats.(framingErrors := stats.framingErrors + 1);
          return;
        }
        assert raw[..payloadLen] == frame[..payloadLen];
        var matches := CrcMatches(raw, payloadLen);
        if !matches {
          stats := stats.(crcErrors := stats.crcErrors + 1);
          return;
        }
      } else if payloadLen > maxPayload {
        stats := stats.(framingErrors := stats.framingErrors + 1);
        return;
      }
      Copy(raw, 0, decodeBuf, 0, payloadLen);
      assert decodeBuf[..payloadLen] == frame[..payloadLen];
      ok := true;
    }

    /** The buffer and counters that a verdict leaves; a completed raw frame is still in the buffer. */
    static ghost predicate Settles(v: Verdict, completed: bool, asm: Assembly, before: Stats, after: Stats) {
      var stored := before.(fragmentsReceived := before.fragmentsReceived + 1);
      match v
      case Refused =>
        !completed && asm == IDLE && after == before.(reassemblyErrors := before.reassemblyErrors + 1)
      case EndedEarly =>
        !completed && asm == IDLE && after == stored.(reassemblyErrors := before.reassemblyErrors + 1)
      case Stored(a) =>
        !completed && asm == a && after == stored
      case Completed(whole) =>
        completed && asm.data == whole && asm.total == |whole| && after == stored
    }

    /** Checks a fragment and copies its chunk; reports whether it was the last one of a raw frame. */
    method StoreFragment(raw: array<byte>, rawLen: nat) returns (completed: bool)
      requires rawLen <= raw.Length && raw != reassembly.data && IsFragment(raw[..rawLen])
      requires reassembly.Valid() && reassembly.data.Length == RawCapacity(maxPayload)
      modifies this`stats, reassembly, reassembly.data
      ensures reassembly.Valid()
      ensures Settles(Judge(RawCapacity(maxPayload), old(reassembly.Value()), old(raw[..rawLen])),
                      completed, reassembly.Value(), old(stats), stats)
    {
      completed := false;
      ghost var f := raw[..rawLen];
      assert f[2] == raw[2] && f[3] == raw[3] && f[4] == raw[4] && f[5] == raw[5] && f[6] == raw[6] && f[7] == raw[7];
      var seqNo, flags := raw[2], raw[3];
      var totalLen, offset, chunkLen := Word(raw[4], raw[5]), Word(raw[6], raw[7]), raw[8];

      if totalLen == 0 || totalLen > RawCapacity(maxPayload) || chunkLen == 0
         || FRAGMENT_HEADER_SIZE + chunkLen != rawLen || offset + chunkLen > totalLen
      {
        stats := stats.(reassemblyErrors := stats.reassemblyErrors + 1);
        reassembly.Reset();
        return;
      }

      if HasStart(flags) {
        reassembly.Start(seqNo, totalLen);
      }

      if !reassembly.active || reassembly.seqNo != seqNo || reassembly.totalLen != totalLen
         || offset != reassembly.receivedLen
      {
        stats := stats.(reassemblyErrors := stats.reassemblyErrors + 1);
        reassembly.Reset();
        return;
      }

      assert raw[FRAGMENT_HEADER_SIZE..FRAGMENT_HEADER_SIZE+chunkLen] == f[FRAGMENT_HEADER_SIZE..];
      reassembly.Append(raw, FRAGMENT_HEADER_SIZE, chunkLen);
      stats := stats.(fragmentsReceived := stats.fragmentsReceived + 1);

      if HasEnd(flags) {
        if reassembly.receivedLen == reassembly.totalLen {
          completed := true;
        } else {
          stats := stats.(reassemblyErrors := stats.reassemblyErrors + 1);
          reassembly.Reset();
        }
      }
    }

    /** The same, in terms of the whole link. */
    method Store(raw: array<byte>, rawLen: nat) returns (completed: bool)
      requires Valid() && rawLen <= raw.Length && raw != reassembly.data && IsFragment(raw[..rawLen])
      modifies this`stats, reassembly, reassembly.data
      ensures Valid() && State() == old(State()).(asm := State().asm, stats := State().stats)
      ensures Settles(Judge(RawCapacity(maxPayload), old(State()).asm, old(raw[..rawLen])),
                      completed, State().asm, old(State()).stats, State().stats)
      ensures completed ==> reassembly.receivedLen == reassembly.totalLen && reassembly.Value() == State().asm
    {
      hide Judge;
      completed := StoreFragment(raw, rawLen);
    }

    /**
     Handles a fragment, and reports whether the raw frame was one. A completed raw frame goes through
     `DeliverRawFrame` again.
     */
    method HandleFragmentFrame(raw: array<byte>, rawLen: nat) returns (handled: bool)
      requires Valid() && rawLen <= raw.Length && raw != decodeBuf && raw != reassembly.data
      modifies this`stats, this`delivered, this`handed, decodeBuf, reassembly, reassembly.data, rxQueue, rxQueue.slots
      ensures Valid() && handled == IsFragment(old(raw[..rawLen]))
      ensures State() == if handled then old(State()).DeliverRaw(old(raw[..rawLen])) else old(State())
      decreases reassembly.active, rawLen, 0
    {
      hide Judge, Accept, Link.DeliverPayload, Link.DeliverRaw;
      ghost var before, frame := State(), raw[..rawLen];
      if rawLen < FRAGMENT_HEADER_SIZE || raw[0] != MAGIC0 || raw[1] != MAGIC1 {
        return false;
      }
      handled := true;
      CompletedShrinks(RawCapacity(maxPayload), reassembly.Value(), frame);
      FragmentDelivered(before, frame);
      var completed := Store(raw, rawLen);
      hide State;
      if completed {
        RedeliverCompleted();
      }
    }

    /** Hands a completed raw frame on from a copy, with the reassembly buffer reset. */
    method RedeliverCompleted()
      requires Valid() && reassembly.receivedLen == reassembly.totalLen
      modifies this`stats, this`delivered, this`handed, decodeBuf, reassembly, reassembly.data, rxQueue, rxQueue.slots
      ensures Valid() && State() == old(State()).(asm := IDLE).DeliverRaw(old(reassembly.Value().data))
      decreases false, reassembly.totalLen, 2
    {
      hide Accept, Link.DeliverPayload, Link.DeliverRaw;
      ghost var before := State();
      var completed := new byte[RawCapacity(maxPayload)];
      var completedLen := reassembly.totalLen;
      Copy(reassembly.data, 0, completed, 0, completedLen);
      reassembly.Reset();
      assert State() == before.(asm := IDLE);
      DeliverRawFrame(completed, completedLen);
    }

    static lemma CompletedShrinks(capacity: nat, asm: Assembly, raw: bytes)
      requires IsFragment(raw)
      ensures var v := Judge(capacity, asm, raw); v.Completed? ==> |v.raw| <= capacity && (asm.active || |v.raw| < |raw|)
    {
    }

    method DeliverRawFrame(raw: array<byte>, rawLen: nat)
      requires Valid() && rawLen <= raw.Length && raw != decodeBuf && raw != reassembly.data
      modifies this`stats, this`delivered, this`handed, decodeBuf, reassembly, reassembly.data, rxQueue, rxQueue.slots
      ensures Valid() && State() == old(State()).DeliverRaw(old(raw[..rawLen]))
      decreases reassembly.active, rawLen, 1
    {
      var handled := HandleFragmentFrame(raw, rawLen);
      if handled {
        return;
      }
      var ok, payloadLen := ExtractPayloadFromRaw(raw, rawLen);
      if !ok {
        return;
      }
      DeliverPayload(decodeBuf, payloadLen);
    }

    method HandleCompleteFrame(data: array<byte>, len: nat)
      requires Valid() && len <= data.Length && data != decodeBuf && data != reassembly.data
      modifies this`stats, this`delivered, this`handed, decodeBuf, reassembly, reassembly.data, rxQueue, rxQueue.slots
      ensures Valid() && State() == old(State()).CompleteFrame(old(data[..len]))
    {
      hide Decode, Link.DeliverRaw;
      var raw := new byte[RawCapacity(maxPayload)];
      var rawLen := CobsDecode(data, len, raw, RawCapacity(maxPayload));
      if rawLen == 0 {
        stats := stats.(framingErrors := stats.framingErrors + 1);
        return;
      }
      DeliverRawFrame(raw, rawLen);
    }

    /** `rx_buf_[rx_idx_++] = b` */
    method StoreByte(b: byte)
      requires Valid() && rxIdx < rxBuf.Length
      modifies this`rxIdx, rxBuf
      ensures Valid() && rxIdx == old(rxIdx) + 1
      ensures rxBuf[..rxIdx] == old(rxBuf[..rxIdx]) + [b] && rxBuf[..rxIdx-1] == old(rxBuf[..rxIdx])
      ensures State() == old(State()).(rx := old(State()).rx + [b])
    {
      rxBuf[rxIdx] := b;
      rxIdx := rxIdx + 1;
      assert rxBuf[..rxIdx] == old(rxBuf[..rxIdx]) + [b];
    }

    method OnRawByteCobs(b: byte)
      requires Valid()
      modifies this`stats, this`delivered, this`handed, this`rxIdx, rxBuf, decodeBuf, reassembly, reassembly.data, rxQueue, rxQueue.slots
      ensures Valid() && State() == old(State()).CobsByte(b)
    {
      hide Link.CompleteFrame;
      if rxIdx < EncodedCapacity(maxPayload) {
        ghost var before, rx := State(), rxBuf[..rxIdx];
        StoreByte(b);
        if b == 0x00 && rxIdx > 1 {
          CompleteIndependent(before, rx + [b], rx);
          HandleCompleteFrame(rxBuf, rxIdx - 1);
          rxIdx := 0;
        }
        return;
      }
      stats := stats.(rxOverruns := stats.rxOverruns + 1);
      rxIdx := 0;
    }

    static lemma CompleteIndependent(l: Link, rx: bytes, data: bytes)
      ensures l.(rx := rx).CompleteFrame(data).(rx := []) == l.CompleteFrame(data).(rx := [])
    {
      hide Accept, Link.DeliverRaw;
      if DecodedLength(data, RawCapacity(l.max)) != 0 {
        DeliverRawIndependent(l, rx, l.prefix, l.expected, Decode(data).value);
        LinkFrames.DeliverRawFrame(l, Decode(data).value);
        assert l.(rx := rx) == l.(rx := rx, prefix := l.prefix, expected := l.expected);
      }
    }

    method ResetLengthPrefixedState()
      requires Valid()
      modifies this`prefixBytes, this`expectedLen, this`rxIdx
      ensures Valid() && State() == old(State()).ResetPrefix()
    {
      prefixBytes, expectedLen, rxIdx := 0, 0, 0;
    }

    method PrefixByte(b: byte)
      requires Valid() && prefixBytes < LENGTH_PREFIX_SIZE
      modifies this`stats, this`rxIdx, this`prefixBytes, this`expectedLen, prefixBuf
      ensures Valid() && State() == old(State()).PrefixedByte(b)
    {
      hide Link.DeliverRaw;
      ghost var before, prefix := State(), prefixBuf[..prefixBytes];
      prefixBuf[prefixBytes] := b;
      prefixBytes := prefixBytes + 1;
      assert prefixBuf[..prefixBytes] == prefix + [b];
      assert State() == before.(prefix := prefix + [b]);
      if prefixBytes == LENGTH_PREFIX_SIZE {
        var n := Word(prefixBuf[0], prefixBuf[1]);
        if n == 0 || n > RawCapacity(maxPayload) {
          stats := stats.(framingErrors := stats.framingErrors + 1);
          ResetLengthPrefixedState();
        } else {
          expectedLen := n;
        }
      }
    }

    method OnRawByteLengthPrefixed(b: byte)
      requires Valid()
      modifies this`stats, this`delivered, this`handed, this`rxIdx, this`prefixBytes, this`expectedLen,
        rxBuf, prefixBuf, decodeBuf, reassembly, reassembly.data, rxQueue, rxQueue.slots
      ensures Valid() && State() == old(State()).PrefixedByte(b)
    {
      hide Link.DeliverRaw;
      if prefixBytes < LENGTH_PREFIX_SIZE {
        PrefixByte(b);
        return;
      }
      if rxIdx < expectedLen {
        ghost var before, rx := State(), rxBuf[..rxIdx];
        StoreByte(b);
        if rxIdx == expectedLen {
          DeliverIndependent(before, rx + [b]);
          DeliverRawFrame(rxBuf, expectedLen);
          ResetLengthPrefixedState();
        }
        return;
      }
      stats := stats.(rxOverruns := stats.rxOverruns + 1);
      ResetLengthPrefixedState();
    }

    static lemma DeliverIndependent(l: Link, rx: bytes)
      ensures l.(rx := rx).DeliverRaw(rx).ResetPrefix() == l.DeliverRaw(rx).ResetPrefix()
    {
      hide Accept;
    }

    method OnRawByte(b: byte)
      requires Valid()
      modifies this`stats, this`delivered, this`handed, this`rxIdx, this`prefixBytes, this`expectedLen,
        rxBuf, prefixBuf, decodeBuf, reassembly, reassembly.data, rxQueue, rxQueue.slots
      ensures Valid() && State() == old(State()).OnRawByte(b)
    {
      hide Link.CobsByte, Link.PrefixedByte, Link.DeliverPayload;
      if config.useCobs {
        OnRawByteCobs(b);
        return;
      }
      if config.useLengthPrefix {
        OnRawByteLengthPrefixed(b);
        return;
      }
      var single := new byte[1](_ => b);
      assert single[..1] == [b];
      DeliverPayload(single, 1);
    }

    static method CopyOut(s: bytes, out: array<byte>)
      requires |s| <= out.Length
      modifies out
      ensures out[..|s|] == s
    {
      forall k | 0 <= k < |s| {
        out[k] := s[k];
      }
    }

    method Receive(out: array?<byte>, capacity: nat) returns (ok: bool, len: nat)
      requires Valid() && (out != null ==> capacity <= out.Length && out !in Repr())
      modifies this`stats, rxQueue, out
      ensures Valid()
      ensures out == null ==> !ok && State() == old(State())
      ensures out != null ==>
        && State() == old(State()).Receive(capacity).0
        && match old(State()).Receive(capacity).1
           case None => !ok
           case Some(p) => ok && len == |p| && out[..len] == p
    {
      ok, len := false, 0;
      if out == null || rxQueue.count == 0 {
        return;
      }
      var payload := rxQueue.Front();
      if |payload| > capacity {
        stats := stats.(framingErrors := stats.framingErrors + 1);
        return;
      }
      rxQueue.Pop();
      CopyOut(payload, out);
      len := |payload|;
      ok := true;
    }

    method DrainRxQueue()
      requires Valid()
      modifies this`handed, rxQueue
      ensures Valid() && State() == old(State()).DrainRx()
    {
      if config.enableRxQueue || !hasCallback {
        return;
      }
      ghost var items := rxQueue.Items();
      ghost var n := 0;
      while rxQueue.count > 0
        invariant Valid() && n <= |items| && rxQueue.Items() == items[n..]
        invariant handed == old(handed) + items[..n]
        decreases rxQueue.count
      {
        var payload := rxQueue.Front();
        handed := handed + [payload]; // the callback
        assert items[..n] + [payload] == items[..n+1];
        rxQueue.Pop();
        n := n + 1;
      }
    }

    // -------------------------------------------------------------------------------------------
    // Sending

    method SendPhysicalFrame(data: array<byte>, len: nat) returns (ok: bool)
      requires Valid() && len <= data.Length
      modifies this`stats, adapter
      ensures Valid() && Attempt(State(), ok) == old(State()).SendPhysical(old(data[..len]))
    {
      if adapter == null || len == 0 {
        return false;
      }
      if config.physicalFrameLimit > 0 && len > config.physicalFrameLimit {
        stats := stats.(txErrors := stats.txErrors + 1);
        return false;
      }
      var taken := adapter.Send(data, len);
      if taken == len {
        stats := stats.(framesSent := stats.framesSent + 1, bytesSent := stats.bytesSent + len);
        return true;
      }
      stats := stats.(txErrors := stats.txErrors + 1);
      return false;
    }

    method EnqueuePhysicalFrame(data: array<byte>, len: nat) returns (ok: bool)
      requires Valid() && len <= data.Length
      modifies this`stats, txQueue, txQueue.slots
      ensures Valid() && Attempt(State(), ok) == old(State()).Enqueue(old(data[..len]))
    {
      if len == 0 || len > FrameCapacity(maxPayload) || txQueue.count >= QUEUE_DEPTH {
        stats := stats.(txOverruns := stats.txOverruns + 1);
        return false;
      }
      txQueue.Push(data[..len]);
      stats := stats.(txQueued := stats.txQueued + 1);
      return true;
    }

    method SendOrEnqueuePhysicalFrame(data: array<byte>, len: nat) returns (ok: bool)
      requires Valid() && len <= data.Length
      modifies this`stats, txQueue, txQueue.slots, adapter
      ensures Valid() && Attempt(State(), ok) == old(State()).SendOrEnqueue(old(data[..len]))
    {
      hide Link.SendPhysical, Link.Enqueue;
      if config.enableTxQueue {
        ok := EnqueuePhysicalFrame(data, len);
      } else {
        ok := SendPhysicalFrame(data, len);
      }
    }

    method SendRawFrame(raw: array<byte>, rawLen: nat) returns (ok: bool)
      requires Valid() && rawLen <= raw.Length
      modifies this`stats, txQueue, txQueue.slots, adapter
      ensures Valid() && Attempt(State(), ok) == old(State()).SendRaw(old(raw[..rawLen]))
    {
      hide Link.SendOrEnqueue, Encode;
      if rawLen == 0 {
        return false;
      }
      if config.useCobs {
        ok := SendCobsFrame(raw, rawLen);
        return;
      }
      if config.useLengthPrefix {
        ok := SendPrefixedFrame(raw, rawLen);
        return;
      }
      ok := SendOrEnqueuePhysicalFrame(raw, rawLen);
    }

    method SendCobsFrame(raw: array<byte>, rawLen: nat) returns (ok: bool)
      requires Valid() && 0 < rawLen <= raw.Length && config.useCobs
      modifies this`stats, txQueue, txQueue.slots, adapter
      ensures Valid() && Attempt(State(), ok) == old(State()).SendRaw(old(raw[..rawLen]))
    {
      hide Link.SendOrEnqueue, Encode;
      var capacity := EncodedCapacity(maxPayload);
      var encoded := new byte[capacity];
      var encLen := CobsEncode(raw, rawLen, encoded, capacity - 1);
      if encLen == 0 || encLen >= capacity {
        stats := stats.(framingErrors := stats.framingErrors + 1);
        return false;
      }
      ghost var code := encoded[..encLen];
      encoded[encLen] := 0x00;
      assert encoded[..encLen+1] == code + [0];
      ok := SendOrEnqueuePhysicalFrame(encoded, encLen + 1);
    }

    /** The raw frame behind its length, high byte first. */
    method PrefixFrame(raw: array<byte>, rawLen: nat) returns (framed: array<byte>)
      requires rawLen <= raw.Length && rawLen + LENGTH_PREFIX_SIZE <= FrameCapacity(maxPayload)
      ensures fresh(framed) && framed.Length == FrameCapacity(maxPayload)
      ensures framed[..rawLen+LENGTH_PREFIX_SIZE] == [HiByte(rawLen), LoByte(rawLen)] + raw[..rawLen]
    {
      framed := new byte[FrameCapacity(maxPayload)];
      framed[0] := HiByte(rawLen);
      framed[1] := LoByte(rawLen);
      Copy(raw, 0, framed, LENGTH_PREFIX_SIZE, rawLen);
      assert framed[..LENGTH_PREFIX_SIZE] == [HiByte(rawLen), LoByte(rawLen)];
      assert framed[..rawLen+2] == framed[..2] + framed[2..2+rawLen];
    }

    method SendPrefixedFrame(raw: array<byte>, rawLen: nat) returns (ok: bool)
      requires Valid() && 0 < rawLen <= raw.Length && !config.useCobs && config.useLengthPrefix
      modifies this`stats, txQueue, txQueue.slots, adapter
      ensures Valid() && Attempt(State(), ok) == old(State()).SendRaw(old(raw[..rawLen]))
    {
      hide Link.SendOrEnqueue;
      if rawLen + LENGTH_PREFIX_SIZE > FrameCapacity(maxPayload) {
        stats := stats.(txErrors := stats.txErrors + 1);
        return false;
      }
      var framed := PrefixFrame(raw, rawLen);
      ok := SendOrEnqueuePhysicalFrame(framed, rawLen + LENGTH_PREFIX_SIZE);
    }

    /** Builds the fragment that carries the bytes of `raw[..rawLen]` from `offset` on. */
    method BuildFragment(raw: array<byte>, rawLen: nat, seqNo: byte, chunkMax: nat, offset: nat)
      returns (fragment: array<byte>, chunkLen: nat)
      requires offset < rawLen <= raw.Length && 0 < chunkMax && chunkMax + FRAGMENT_HEADER_SIZE <= FrameCapacity(maxPayload)
      ensures fresh(fragment) && chunkLen == ChunkLength(rawLen, chunkMax, offset)
      ensures FRAGMENT_HEADER_SIZE + chunkLen <= fragment.Length
      ensures fragment[..FRAGMENT_HEADER_SIZE+chunkLen] == MakeFragment(raw[..rawLen], seqNo, chunkMax, offset)
    {
      var remaining := rawLen - offset;
      chunkLen := if remaining > chunkMax then chunkMax else remaining;
      var flags := FlagsFor(offset == 0, offset + chunkLen == rawLen);
      fragment := new byte[FrameCapacity(maxPayload)];
      fragment[0], fragment[1], fragment[2], fragment[3] := MAGIC0, MAGIC1, seqNo, flags;
      fragment[4], fragment[5] := HiByte(rawLen), LoByte(rawLen);
      fragment[6], fragment[7] := HiByte(offset), LoByte(offset);
      fragment[8] := LoByte(chunkLen);
      assert fragment[..9] == Header(seqNo, flags, rawLen, offset, chunkLen);
      Copy(raw, offset, fragment, FRAGMENT_HEADER_SIZE, chunkLen);
      assert raw[..rawLen][offset..offset+chunkLen] == raw[offset..offset+chunkLen];
      assert fragment[..9+chunkLen] == fragment[..9] + fragment[9..9+chunkLen];
    }

    method SendFragmentedRawFrame(raw: array<byte>, rawLen: nat) returns (ok: bool)
      requires Valid() && rawLen <= raw.Length && config.ShouldFragment(rawLen)
      modifies this`stats, this`fragmentSeq, txQueue, txQueue.slots, adapter
      ensures Valid() && Attempt(State(), ok) == old(State()).SendFragmented(old(raw[..rawLen]))
    {
      hide MakeFragment, Link.SendRaw;
      if rawLen == 0 || config.physicalFrameLimit <= config.Overhead() + FRAGMENT_HEADER_SIZE {
        stats := stats.(txErrors := stats.txErrors + 1);
        return false;
      }
      var chunkMax := config.physicalFrameLimit - config.Overhead() - FRAGMENT_HEADER_SIZE;
      if chunkMax == 0 || rawLen > RawCapacity(maxPayload) {
        stats := stats.(txErrors := stats.txErrors + 1);
        return false;
      }

      fragmentSeq := (fragmentSeq + 1) % 256;
      ok := SendFragments(raw, rawLen, fragmentSeq, chunkMax);
    }

    /** The fragmentation loop. */
    method SendFragments(raw: array<byte>, rawLen: nat, seqNo: byte, chunkMax: nat) returns (ok: bool)
      requires Valid() && rawLen <= raw.Length && 0 < chunkMax && chunkMax + FRAGMENT_HEADER_SIZE <= FrameCapacity(maxPayload)
      modifies this`stats, txQueue, txQueue.slots, adapter
      ensures Valid() && Attempt(State(), ok) == old(State()).SendFragmentsFrom(old(raw[..rawLen]), seqNo, chunkMax, 0)
    {
      hide MakeFragment, Link.SendRaw;
      var offset := 0;
      ghost var frame := raw[..rawLen];
      while offset < rawLen
        invariant Valid() && offset <= rawLen && raw[..rawLen] == frame
        invariant State().SendFragmentsFrom(frame, seqNo, chunkMax, offset)
          == old(State()).SendFragmentsFrom(frame, seqNo, chunkMax, 0)
      {
        var fragment, chunkLen := BuildFragment(raw, rawLen, seqNo, chunkMax, offset);
        ok := SendRawFrame(fragment, FRAGMENT_HEADER_SIZE + chunkLen);
        if !ok {
          return false;
        }
        stats := stats.(fragmentsSent := stats.fragmentsSent + 1);
        offset := offset + chunkLen;
      }
      return true;
    }

    method BuildRawFrame(payload: array<byte>, payloadLen: nat, outRaw: array<byte>, outSize: nat)
      returns (ok: bool, rawLen: nat)
      requires payloadLen <= payload.Length && outSize <= outRaw.Length && payload != outRaw
      modifies outRaw
      ensures ok == (payloadLen <= maxPayload && payloadLen + (if config.useCrc then CRC_SIZE else 0) <= outSize)
      ensures ok ==> rawLen <= outSize && outRaw[..rawLen] == RawFrame(config, old(payload[..payloadLen]))
    {
      hide Checksum;
      var required := payloadLen + if config.useCrc then CRC_SIZE else 0;
      if payloadLen > maxPayload || required > outSize {
        return false, 0;
      }
      Copy(payload, 0, outRaw, 0, payloadLen);
      rawLen := payloadLen;
      if config.useCrc {
        var value := Compute(payload, payloadLen);
        ghost var body := outRaw[..payloadLen];
        outRaw[payloadLen], outRaw[payloadLen+1] := Field(value)[0], Field(value)[1];
        rawLen := rawLen + CRC_SIZE;
        assert outRaw[..rawLen] == body + Field(value);
      }
      ok := true;
    }

    method Send(payload: array?<byte>, payloadLen: nat) returns (ok: bool)
      requires Valid() && (payload != null ==> payloadLen <= payload.Length)
      modifies this`stats, this`fragmentSeq, txQueue, txQueue.slots, adapter
      ensures Valid()
      ensures payload == null ==> !ok && State() == old(State())
      ensures payload != null ==> Attempt(State(), ok) == old(State()).Send(old(payload[..payloadLen]))
    {
      hide RawFrame, Link.SendRaw, Link.SendFragmented;
      if adapter == null || payload == null || payloadLen == 0 || payloadLen > maxPayload {
        return false;
      }
      var rawFrame := new byte[RawCapacity(maxPayload)];
      var built, rawLen := BuildRawFrame(payload, payloadLen, rawFrame, RawCapacity(maxPayload));
      if !built {
        assert false; // the buffer has room for every payload that send takes
      }
      if config.ShouldFragment(rawLen) {
        ok := SendFragmentedRawFrame(rawFrame, rawLen);
      } else {
        ok := SendRawFrame(rawFrame, rawLen);
      }
    }

    method SendAsync(payload: array?<byte>, payloadLen: nat) returns (ok: bool)
      requires Valid() && (payload != null ==> payloadLen <= payload.Length)
      modifies this`config, this`stats, this`fragmentSeq, txQueue, txQueue.slots, adapter
      ensures Valid()
      ensures payload == null ==> !ok && State() == old(State())
      ensures payload != null ==> Attempt(State(), ok) == old(State()).SendAsync(old(payload[..payloadLen]))
    {
      ghost var before := State();
      var enabled := config.enableTxQueue;
      assert before.cfg.enableTxQueue == enabled;
      assert before.(cfg := before.cfg.(enableTxQueue := true)).(cfg := before.cfg) == before;
      hide Link.Send, State;
      EnableTxQueue(true);
      ok := Send(payload, payloadLen);
      EnableTxQueue(enabled);
    }

    method EnableTxQueue(enabled: bool)
      requires Valid()
      modifies this`config
      ensures Valid() && State() == old(State()).(cfg := old(State()).cfg.(enableTxQueue := enabled))
      ensures config == old(config).(enableTxQueue := enabled)
    {
      config := config.(enableTxQueue := enabled);
    }

    /** Passes the oldest queued frame to the adapter. */
    method SendFront() returns (ok: bool)
      requires Valid() && txQueue.count > 0
      modifies this`stats, adapter
      ensures Valid() && Attempt(State(), ok) == old(State()).SendPhysical(old(State()).txQueue[0])
    {
      hide Link.SendPhysical;
      ghost var before := State();
      var frame := txQueue.Front();
      assert frame == before.txQueue[0];
      var data := new byte[|frame|];
      forall k | 0 <= k < |frame| {
        data[k] := frame[k];
      }
      assert data[..|frame|] == frame && State() == before;
      ok := SendPhysicalFrame(data, |frame|);
    }

    method FlushTx() returns (allSent: bool)
      requires Valid()
      modifies this`stats, txQueue, adapter
      ensures Valid() && Attempt(State(), allSent) == old(State()).FlushTx()
    {
      hide Link.SendPhysical;
      while txQueue.count > 0
        invariant Valid() && State().FlushTx() == old(State()).FlushTx()
        decreases txQueue.count
      {
        var ok := SendFront();
        if !ok {
          return false;
        }
        txQueue.Pop();
      }
      return true;
    }

    /** One turn of the main loop; `polled` are the bytes that the adapter's `poll` hands over. */
    method Process(polled: bytes)
      requires Valid()
      modifies Repr()
      ensures Valid() && State() == old(State()).Process(polled)
    {
      hide Link.OnRawByte, Link.FlushTx, Link.DrainRx;
      if adapter != null {
        assert polled[0..] == polled;
        for i := 0 to |polled|
          invariant Valid() && State().OnBytes(polled[i..]) == old(State()).OnBytes(polled)
        {
          assert polled[i..][1..] == polled[i+1..];
          OnRawByte(polled[i]);
        }
      }
      var sent := FlushTx();
      DrainRxQueue();
    }

    method EnableQueues(tx: bool, rx: bool)
      requires Valid()
      modifies this`config
      ensures Valid() && State() == old(State()).(cfg := old(config).(enableTxQueue := tx, enableRxQueue := rx))
    {
      config := config.(enableTxQueue := tx, enableRxQueue := rx);
    }

    method Reset()
      requires Valid()
      modifies this`rxIdx, this`prefixBytes, this`expectedLen, reassembly, txQueue, rxQueue
      ensures Valid() && State() == old(State()).Reset()
    {
      rxIdx := 0;
      ResetLengthPrefixedState();
      reassembly.Reset();
      txQueue.Clear();
      rxQueue.Clear();
    }

    method SetConfig(config: Config)
      requires Valid()
      modifies this`config, this`rxIdx, this`prefixBytes, this`expectedLen, reassembly, txQueue, rxQueue
      ensures Valid() && State() == old(State()).SetConfig(config)
    {
      this.config := config;
      Reset();
    }

    method ResetStats()
      requires Valid()
      modifies this`stats
      ensures Valid() && State() == old(State()).(stats := NO_STATS)
    {
      stats := NO_STATS;
    }
  }
}
