/** Physical frames: how a raw frame is put on the wire, and how the byte receivers take it off. */
module LinkFrames {
  import opened Bytes
  import opened Cobs
  import CobsCodec
  import Crc
  import opened LinkModel

  /** The physical frame of a raw frame. */
  function Frame(cfg: Config, raw: bytes): bytes {
    if cfg.useCobs then Encode(raw) + [0]
    else if cfg.useLengthPrefix then [HiByte(|raw|), LoByte(|raw|)] + raw
    else raw
  }

  function Frames(cfg: Config, raws: seq<bytes>): seq<bytes> {
    seq(|raws|, i requires 0 <= i < |raws| => Frame(cfg, raws[i]))
  }

  /** Sizes for which the 16-bit length fields of the wire formats suffice. */
  predicate Sized(max: nat) {
    RawCapacity(max) <= 0xFFFF
  }

  predicate FitsRaw(max: nat, raw: bytes) {
    0 < |raw| <= RawCapacity(max)
  }

  // ---------------------------------------------------------------------------------------------
  // Sending

  lemma EncodedFits(max: nat, raw: bytes)
    requires |raw| <= RawCapacity(max)
    ensures |raw| < |Encode(raw)| <= EncodedCapacity(max) - 5
  {
    EncodedSizeBound(raw);
    assert |raw| / 254 <= RawCapacity(max) / 254;
  }

  /** Framing never fails: no raw frame that fits the link is refused for the size of its frame. */
  lemma FramingSucceeds(l: Link, raw: bytes)
    requires l.cfg.Framed() && FitsRaw(l.max, raw)
    ensures l.SendRaw(raw) == l.SendOrEnqueue(Frame(l.cfg, raw))
    ensures 0 < |Frame(l.cfg, raw)| <= FrameCapacity(l.max)
  {
    EncodedFits(l.max, raw);
  }

  // ---------------------------------------------------------------------------------------------
  // Receiving

  lemma {:induction false} OnBytesConcat(l: Link, a: bytes, b: bytes)
    ensures l.OnBytes(a + b) == l.OnBytes(a).OnBytes(b)
    decreases |a|
  {
    if a == [] {
      assert a + b == b;
    } else {
      assert (a + b)[1..] == a[1..] + b;
      OnBytesConcat(l.OnRawByte(a[0]), a[1..], b);
    }
  }

  lemma OnBytesLast(l: Link, s: bytes, b: byte)
    ensures l.OnBytes(s + [b]) == l.OnBytes(s).OnRawByte(b)
  {
    OnBytesConcat(l, s, [b]);
    var m := l.OnBytes(s);
    assert m.OnBytes([b]) == m.OnRawByte(b).OnBytes([]);
  }

  /** Between frames. */
  predicate Between(l: Link) {
    l.rx == [] && (l.cfg.useCobs || (l.prefix, l.expected) == ([], 0))
  }

  /** What handling a raw frame leaves alone. */
  lemma DeliverRawFrame(l: Link, raw: bytes)
    ensures var m := l.DeliverRaw(raw);
      m == l.(asm := m.asm, stats := m.stats, delivered := m.delivered, handed := m.handed, rxQueue := m.rxQueue)
  {
  }

  /** Handling a raw frame neither reads nor writes the bytes of the frame being received. */
  lemma DeliverRawIndependent(l: Link, rx: bytes, prefix: bytes, expected: nat, raw: bytes)
    ensures l.(rx := rx, prefix := prefix, expected := expected).DeliverRaw(raw)
      == l.DeliverRaw(raw).(rx := rx, prefix := prefix, expected := expected)
  {
  }

  /** The raw frame that a byte completes, if any. */
  function FrameOf(l: Link, b: byte): Option<bytes> {
    if l.cfg.useCobs then
      if |l.rx| < EncodedCapacity(l.max) && b == 0 && l.rx != [] && CobsCodec.DecodedLength(l.rx, RawCapacity(l.max)) != 0
      then Some(Decode(l.rx).value) else None
    else if l.cfg.useLengthPrefix && |l.prefix| >= LENGTH_PREFIX_SIZE && |l.rx| < l.expected && |l.rx| + 1 == l.expected
    then Some(l.rx + [b])
    else None
  }

  /** A byte completes a raw frame, which is handled, or changes no more than the byte receiver and its counters. */
  lemma ByteIs(l: Link, b: byte)
    requires l.cfg.Framed()
    ensures var m := l.OnRawByte(b);
      match FrameOf(l, b)
      case Some(raw) => m == l.DeliverRaw(raw).(rx := m.rx, prefix := m.prefix, expected := m.expected)
      case None =>
        m == l.(rx := m.rx, prefix := m.prefix, expected := m.expected, stats := l.stats.(
                framingErrors := m.stats.framingErrors, rxOverruns := m.stats.rxOverruns))
  {
    hide Link.DeliverRaw, Decode, Word, RawCapacity, EncodedCapacity;
  }

  lemma {:induction false} CobsFill(l: Link, s: bytes)
    requires l.cfg.useCobs && ZeroFree(s) && |l.rx| + |s| <= EncodedCapacity(l.max)
    ensures l.OnBytes(s) == l.(rx := l.rx + s)
    decreases |s|
  {
    if s == [] {
      assert l.rx + s == l.rx;
    } else {
      var m := l.OnRawByte(s[0]);
      assert m == l.(rx := l.rx + [s[0]]);
      CobsFill(m, s[1..]);
      assert l.rx + [s[0]] + s[1..] == l.rx + s;
    }
  }

  lemma CobsDelimiter(l: Link, raw: bytes)
    requires l.cfg.useCobs && l.rx == Encode(raw) && FitsRaw(l.max, raw)
    ensures l.OnRawByte(0) == l.DeliverRaw(raw).(rx := [])
  {
    EncodedFits(l.max, raw);
    RoundTrip(raw);
  }

  lemma CobsFrameReceived(l: Link, raw: bytes)
    requires l.cfg.useCobs && l.rx == [] && FitsRaw(l.max, raw)
    ensures l.OnBytes(Encode(raw) + [0]) == l.DeliverRaw(raw)
  {
    var x := Encode(raw);
    EncodeNonEmpty(raw);
    EncodedFits(l.max, raw);
    CobsFill(l, x);
    assert [] + x == x;
    OnBytesLast(l, x, 0);
    CobsDelimiter(l.(rx := x), raw);
    DeliverRawIndependent(l, x, l.prefix, l.expected, raw);
    DeliverRawFrame(l, raw);
  }

  lemma {:induction false} PrefixedFill(l: Link, s: bytes)
    requires !l.cfg.useCobs && l.cfg.useLengthPrefix && |l.prefix| == 2 && |l.rx| + |s| < l.expected
    ensures l.OnBytes(s) == l.(rx := l.rx + s)
    decreases |s|
  {
    if s == [] {
      assert l.rx + s == l.rx;
    } else {
      var m := l.OnRawByte(s[0]);
      assert m == l.(rx := l.rx + [s[0]]);
      PrefixedFill(m, s[1..]);
      assert l.rx + [s[0]] + s[1..] == l.rx + s;
    }
  }

  lemma PrefixReceived(l: Link, hi: byte, lo: byte)
    requires !l.cfg.useCobs && l.cfg.useLengthPrefix && Between(l)
    requires 0 < Word(hi, lo) <= RawCapacity(l.max)
    ensures l.OnBytes([hi, lo]) == l.(prefix := [hi, lo], expected := Word(hi, lo))
  {
    hide Word, RawCapacity, Link.DeliverRaw;
    var m := l.OnRawByte(hi);
    assert l.OnBytes([hi]) == m by {
      assert m.OnBytes([]) == m;
    }
    OnBytesLast(l, [hi], lo);
    assert m == l.(prefix := [hi]);
    assert [hi] + [lo] == [hi, lo];
  }

  lemma PrefixedEnd(l: Link, raw: bytes)
    requires !l.cfg.useCobs && l.cfg.useLengthPrefix && |l.prefix| == 2 && l.expected == |raw| > 0
    requires l.rx == raw[..|raw|-1]
    ensures l.OnRawByte(raw[|raw|-1]) == l.DeliverRaw(raw).ResetPrefix()
  {
    assert raw == l.rx + [raw[|raw|-1]];
  }

  lemma PrefixedBody(l: Link, raw: bytes)
    requires !l.cfg.useCobs && l.cfg.useLengthPrefix && |l.prefix| == 2 && l.expected == |raw| > 0 && l.rx == []
    ensures l.OnBytes(raw) == l.DeliverRaw(raw).ResetPrefix()
  {
    var front, last := raw[..|raw|-1], raw[|raw|-1];
    assert raw == front + [last];
    PrefixedFill(l, front);
    assert [] + front == front;
    OnBytesLast(l, front, last);
    PrefixedEnd(l.(rx := front), raw);
    DeliverRawIndependent(l, front, l.prefix, l.expected, raw);
  }

  lemma PrefixedFrameReceived(l: Link, raw: bytes)
    requires !l.cfg.useCobs && l.cfg.useLengthPrefix && Between(l)
    requires FitsRaw(l.max, raw) && Sized(l.max)
    ensures l.OnBytes([HiByte(|raw|), LoByte(|raw|)] + raw) == l.DeliverRaw(raw)
  {
    var head := [HiByte(|raw|), LoByte(|raw|)];
    WordOfBytes(|raw|);
    PrefixReceived(l, head[0], head[1]);
    OnBytesConcat(l, head, raw);
    PrefixedBody(l.(prefix := head, expected := |raw|), raw);
    DeliverRawIndependent(l, [], head, |raw|, raw);
    DeliverRawFrame(l, raw);
  }

  /** A length prefix that is zero or exceeds the link is counted and skipped; what follows is received as a new frame. */
  lemma BadPrefixSkipped(l: Link, hi: byte, lo: byte, rest: bytes)
    requires !l.cfg.useCobs && l.cfg.useLengthPrefix && Between(l)
    requires Word(hi, lo) == 0 || Word(hi, lo) > l.max + 2
    ensures l.OnBytes([hi, lo] + rest)
      == l.(stats := l.stats.(framingErrors := l.stats.framingErrors + 1)).OnBytes(rest)
  {
    hide Word, Link.DeliverRaw;
    var m := l.OnRawByte(hi);
    assert m == l.(prefix := [hi]);
    assert [hi] + [lo] == [hi, lo];
    assert m.OnRawByte(lo) == l.(stats := l.stats.(framingErrors := l.stats.framingErrors + 1));
    assert ([hi, lo] + rest)[1..] == [lo] + rest && ([lo] + rest)[1..] == rest;
  }

  /** Without a delimiter, the byte after a full buffer is dropped with all of it, and counted as an overrun. */
  lemma OverlongDropped(l: Link, s: bytes, b: byte)
    requires l.cfg.useCobs && l.rx == [] && ZeroFree(s) && |s| == (l.max + 2) + (l.max + 2) / 254 + 6
    ensures l.OnBytes(s + [b]) == l.(stats := l.stats.(rxOverruns := l.stats.rxOverruns + 1))
  {
    CobsFill(l, s);
    assert [] + s == s;
    OnBytesLast(l, s, b);
  }

  /** The bytes of a frame with a length prefix: the length, high byte first, then the raw frame. */
  lemma FrameLayout(cfg: Config, raw: bytes)
    requires !cfg.useCobs && cfg.useLengthPrefix && |raw| <= 0xFFFF
    ensures var f := Frame(cfg, raw);
      |f| == |raw| + 2 && (f[0] as nat) * 256 + f[1] == |raw| && f[2..] == raw
  {
    hide HiByte, LoByte;
    WordOfBytes(|raw|);
    WordIs(HiByte(|raw|), LoByte(|raw|));
  }

  /** The bytes of a raw frame with a check: the payload, then its CRC, low byte first. */
  lemma RawFrameLayout(cfg: Config, p: bytes)
    requires cfg.useCrc
    ensures var raw := RawFrame(cfg, p);
      && |raw| == |p| + 2 && raw[..|p|] == p
      && raw[|p|] + (raw[|p|+1] as nat) * 256 == Crc.Checksum(p) as nat
  {
    hide Crc.Field, Crc.Checksum;
    Crc.FieldBytes(Crc.Checksum(p));
  }

  /** Between frames, the bytes of one physical frame have the effect of its raw frame. */
  lemma FrameReceived(l: Link, raw: bytes)
    requires l.cfg.Framed() && Between(l) && FitsRaw(l.max, raw) && Sized(l.max)
    ensures l.OnBytes(Frame(l.cfg, raw)) == l.DeliverRaw(raw)
    ensures Between(l.DeliverRaw(raw)) && l.DeliverRaw(raw).cfg == l.cfg && l.DeliverRaw(raw).max == l.max
  {
    DeliverRawFrame(l, raw);
    if l.cfg.useCobs {
      CobsFrameReceived(l, raw);
    } else {
      PrefixedFrameReceived(l, raw);
    }
  }

  /** Raw frames handled one after the other. */
  function DeliverAll(l: Link, raws: seq<bytes>): Link
    decreases |raws|
  {
    if raws == [] then l else DeliverAll(l.DeliverRaw(raws[0]), raws[1..])
  }

  lemma {:induction false} DeliverAllConcat(l: Link, a: seq<bytes>, b: seq<bytes>)
    ensures DeliverAll(l, a + b) == DeliverAll(DeliverAll(l, a), b)
    decreases |a|
  {
    if a == [] {
      assert a + b == b;
    } else {
      assert (a + b)[1..] == a[1..] + b;
      DeliverAllConcat(l.DeliverRaw(a[0]), a[1..], b);
    }
  }

  /** A stream of whole frames has the effect of the raw frames in it, one after the other. */
  lemma {:induction false} StreamReceived(l: Link, raws: seq<bytes>)
    requires l.cfg.Framed() && Between(l) && Sized(l.max)
    requires forall raw :: raw in raws ==> FitsRaw(l.max, raw)
    ensures l.OnBytes(Flatten(Frames(l.cfg, raws))) == DeliverAll(l, raws)
    ensures var m := DeliverAll(l, raws); Between(m) && m.cfg == l.cfg && m.max == l.max
    decreases |raws|
  {
    var frames := Frames(l.cfg, raws);
    if raws != [] {
      FrameReceived(l, raws[0]);
      assert frames[1..] == Frames(l.cfg, raws[1..]);
      OnBytesConcat(l, frames[0], Flatten(frames[1..]));
      StreamReceived(l.DeliverRaw(raws[0]), raws[1..]);
    }
  }
}
