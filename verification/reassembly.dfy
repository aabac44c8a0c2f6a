/** Fragmentation and reassembly of raw frames: progress, safety on a bad channel, and termination. */
module Reassembly {
  import opened Bytes
  import opened Crc
  import FrameErrors
  import opened LinkModel
  import opened LinkFrames

  /** The fragments of `raw` from `offset` on, in order. */
  function Fragments(raw: bytes, seqNo: byte, chunkMax: nat, offset: nat): seq<bytes>
    requires chunkMax > 0
    decreases |raw| - offset
  {
    if offset >= |raw| then []
    else
      var next := offset + ChunkLength(|raw|, chunkMax, offset);
      [MakeFragment(raw, seqNo, chunkMax, offset)] + Fragments(raw, seqNo, chunkMax, next)
  }

  /** The wire format can carry the fragments: 16-bit lengths and a one-byte chunk length. */
  predicate Fragmentable(raw: bytes, chunkMax: nat) {
    0 < |raw| <= 0xFFFF && 0 < chunkMax <= 0xFF
  }

  // ---------------------------------------------------------------------------------------------
  // One fragment

  /** The reassembly buffer holds the first `n` bytes of `raw`, sent under the number `seqNo`. */
  predicate Holds(asm: Assembly, raw: bytes, seqNo: byte, n: nat) {
    n <= |raw| && asm == Assembly(true, seqNo, |raw|, raw[..n])
  }

  /** A buffer that is being filled under the number of `raw` and for its length holds a prefix of it. */
  predicate Consistent(asm: Assembly, raw: bytes, seqNo: byte) {
    asm.active && asm.seqNo == seqNo && asm.total == |raw| ==> Holds(asm, raw, seqNo, |asm.data|)
  }

  /** The buffer is being filled under this number and for this length, up to this offset. */
  predicate Expects(asm: Assembly, seqNo: byte, total: nat, offset: nat) {
    asm.active && asm.seqNo == seqNo && asm.total == total && |asm.data| == offset
  }

  /** The verdict on a fragment whose header carries these fields. */
  lemma JudgeFields(capacity: nat, asm: Assembly, f: bytes, total: nat, offset: nat, chunk: bytes)
    requires IsFragment(f) && offset + |chunk| <= total && 0 < total <= capacity && chunk != []
    requires |f| == FRAGMENT_HEADER_SIZE + |chunk| && f[FRAGMENT_HEADER_SIZE..] == chunk
    requires HasStart(f[3]) == (offset == 0) && HasEnd(f[3]) == (offset + |chunk| == total)
    requires Word(f[4], f[5]) == total && Word(f[6], f[7]) == offset && f[8] == |chunk|
    ensures Judge(capacity, asm, f) ==
      var data := (if offset == 0 then [] else asm.data) + chunk;
      if offset != 0 && !Expects(asm, f[2], total, offset) then Refused
      else if offset + |chunk| == total then Completed(data)
      else Stored(Assembly(true, f[2], total, data))
  {
  }

  /** How the receiver reads a header. */
  lemma HeaderFields(seqNo: byte, first: bool, last: bool, total: nat, offset: nat, n: nat, body: bytes)
    requires total <= 0xFFFF && offset <= 0xFFFF
    ensures var f := Header(seqNo, FlagsFor(first, last), total, offset, n) + body;
      && IsFragment(f) && f[2] == seqNo && HasStart(f[3]) == first && HasEnd(f[3]) == last
      && Word(f[4], f[5]) == total && Word(f[6], f[7]) == offset && f[8] == LoByte(n)
      && f[FRAGMENT_HEADER_SIZE..] == body
  {
    WordOfBytes(total);
    WordOfBytes(offset);
    var h := Header(seqNo, FlagsFor(first, last), total, offset, n);
    var f := h + body;
    assert f[0] == h[0] && f[1] == h[1] && f[2] == h[2] && f[3] == h[3] && f[4] == h[4];
    assert f[5] == h[5] && f[6] == h[6] && f[7] == h[7] && f[8] == h[8];
  }

  lemma FragmentHeader(raw: bytes, seqNo: byte, chunkMax: nat, offset: nat)
    requires 0 < |raw| <= 0xFFFF && offset < |raw|
    ensures var f, n := MakeFragment(raw, seqNo, chunkMax, offset), ChunkLength(|raw|, chunkMax, offset);
      && |f| == FRAGMENT_HEADER_SIZE + n && IsFragment(f) && f[2] == seqNo
      && HasStart(f[3]) == (offset == 0) && HasEnd(f[3]) == (offset + n == |raw|)
      && Word(f[4], f[5]) == |raw| && Word(f[6], f[7]) == offset && f[8] == LoByte(n)
      && f[FRAGMENT_HEADER_SIZE..] == raw[offset..offset+n]
  {
    hide ChunkLength, HiByte, LoByte, Header, HasStart, HasEnd, FlagsFor, Word;
    var n := ChunkLength(|raw|, chunkMax, offset);
    HeaderFields(seqNo, offset == 0, offset + n == |raw|, |raw|, offset, n, raw[offset..offset+n]);
  }

  /** The header as far as the wire format can carry the chunk length. */
  lemma FragmentFields(raw: bytes, seqNo: byte, chunkMax: nat, offset: nat)
    requires Fragmentable(raw, chunkMax) && offset < |raw|
    ensures var f, n := MakeFragment(raw, seqNo, chunkMax, offset), ChunkLength(|raw|, chunkMax, offset);
      && |f| == FRAGMENT_HEADER_SIZE + n && IsFragment(f) && f[2] == seqNo
      && HasStart(f[3]) == (offset == 0) && HasEnd(f[3]) == (offset + n == |raw|)
      && Word(f[4], f[5]) == |raw| && Word(f[6], f[7]) == offset && f[8] == n
      && f[FRAGMENT_HEADER_SIZE..] == raw[offset..offset+n]
  {
    hide MakeFragment, HasStart, HasEnd, Word;
    FragmentHeader(raw, seqNo, chunkMax, offset);
  }

  /**
   A fragment is taken if it starts a raw frame or comes where the buffer expects one of its number and
   length; its chunk is then appended to what the buffer holds.
   */
  lemma JudgeChunk(capacity: nat, asm: Assembly, raw: bytes, seqNo: byte, chunkMax: nat, offset: nat)
    requires Fragmentable(raw, chunkMax) && offset < |raw| <= capacity
    ensures IsFragment(MakeFragment(raw, seqNo, chunkMax, offset))
    ensures Judge(capacity, asm, MakeFragment(raw, seqNo, chunkMax, offset)) ==
      var n := ChunkLength(|raw|, chunkMax, offset);
      var data := (if offset == 0 then [] else asm.data) + raw[offset..offset+n];
      if offset != 0 && !Expects(asm, seqNo, |raw|, offset) then Refused
      else if offset + n == |raw| then Completed(data)
      else Stored(Assembly(true, seqNo, |raw|, data))
  {
    hide MakeFragment, Judge, Expects;
    FragmentFields(raw, seqNo, chunkMax, offset);
    var f := MakeFragment(raw, seqNo, chunkMax, offset);
    JudgeFields(capacity, asm, f, |raw|, offset, raw[offset..offset+ChunkLength(|raw|, chunkMax, offset)]);
  }

  /** A buffer that holds nothing else of that number and length holds the beginning of the raw frame. */
  lemma JudgeFragment(capacity: nat, asm: Assembly, raw: bytes, seqNo: byte, chunkMax: nat, offset: nat)
    requires Fragmentable(raw, chunkMax) && offset < |raw| <= capacity
    requires offset != 0 ==> Consistent(asm, raw, seqNo)
    ensures IsFragment(MakeFragment(raw, seqNo, chunkMax, offset))
    ensures Judge(capacity, asm, MakeFragment(raw, seqNo, chunkMax, offset)) ==
      var n := ChunkLength(|raw|, chunkMax, offset);
      if offset != 0 && !Holds(asm, raw, seqNo, offset) then Refused
      else if offset + n == |raw| then Completed(raw)
      else Stored(Assembly(true, seqNo, |raw|, raw[..offset+n]))
  {
    hide MakeFragment, Judge, IsFragment;
    JudgeChunk(capacity, asm, raw, seqNo, chunkMax, offset);
    var n := ChunkLength(|raw|, chunkMax, offset);
    assert raw[..offset] + raw[offset..offset+n] == raw[..offset+n] && raw[..|raw|] == raw;
    assert [] + raw[0..ChunkLength(|raw|, chunkMax, 0)] == raw[..ChunkLength(|raw|, chunkMax, 0)];
  }

  /** The header of a fragment makes sense: its chunk is there, and lies within a raw frame that fits. */
  predicate WellFormed(capacity: nat, f: bytes)
    requires IsFragment(f)
  {
    f[8] > 0 && |f| == FRAGMENT_HEADER_SIZE + f[8] && Word(f[6], f[7]) + f[8] <= Word(f[4], f[5]) <= capacity
  }

  /**
   The verdict on any fragment. It is taken if its header makes sense and it starts a raw frame at offset 0
   or continues the one expected. Then its chunk is appended, and its End flag decides: without it the
   buffer waits for more; with it, the raw frame is complete if it has its full length, and given up if not.
   */
  lemma Verdicts(capacity: nat, asm: Assembly, f: bytes)
    requires IsFragment(f)
    ensures var total, offset := Word(f[4], f[5]), Word(f[6], f[7]);
      var start, end := f[3] % 2 == 1, f[3] / 2 % 2 == 1;
      var taken := WellFormed(capacity, f) && if start then offset == 0 else Expects(asm, f[2], total, offset);
      var data := (if start then [] else asm.data) + f[9..];
      Judge(capacity, asm, f) ==
        if !taken then Refused
        else if !end then Stored(Assembly(true, f[2], total, data))
        else if offset + f[8] == total then Completed(data)
        else EndedEarly
  {
    hide Word, HasStart, HasEnd;
    FlagBits(f[3]);
  }

  // ---------------------------------------------------------------------------------------------
  // One raw frame at the receiver

  /** A payload that the link takes and whose raw frame cannot be mistaken for a fragment. */
  predicate Acceptable(max: nat, cfg: Config, p: bytes) {
    0 < |p| <= max && !IsFragment(RawFrame(cfg, p))
  }

  lemma ExtractRawFrame(max: nat, cfg: Config, p: bytes)
    requires |p| <= max
    ensures Extract(max, cfg, RawFrame(cfg, p)) == Payload(p)
    ensures |RawFrame(cfg, p)| <= RawCapacity(max)
  {
    hide ReadField, Field, Checksum;
    if cfg.useCrc {
      var f := Field(Checksum(p));
      assert (p + f)[..|p|] == p && (p + f)[|p|] == f[0] && (p + f)[|p|+1] == f[1];
      FieldRoundTrip(Checksum(p));
    }
  }

  lemma AcceptWhole(max: nat, cfg: Config, asm: Assembly, stats: Stats, p: bytes)
    requires Acceptable(max, cfg, p)
    ensures Accept(max, cfg, asm, stats, RawFrame(cfg, p)) == Arrival(asm, stats, Some(p))
  {
    ExtractRawFrame(max, cfg, p);
  }

  /** What an arrival means for the receiver. */
  lemma Delivers(l: Link, raw: bytes)
    ensures var m, a := l.DeliverRaw(raw), Accept(l.max, l.cfg, l.asm, l.stats, raw);
      && m.asm == a.asm && m.cfg == l.cfg && m.max == l.max
      && m.delivered == l.delivered + match a.payload case None => [] case Some(p) => [p]
  {
  }

  /** What a fragment does to the link, in terms of the verdict on it. */
  lemma FragmentDelivered(l: Link, raw: bytes)
    requires IsFragment(raw)
    ensures l.DeliverRaw(raw) ==
      var stored := l.stats.(fragmentsReceived := l.stats.fragmentsReceived + 1);
      match Judge(RawCapacity(l.max), l.asm, raw)
      case Refused => l.(asm := IDLE, stats := l.stats.(reassemblyErrors := l.stats.reassemblyErrors + 1))
      case EndedEarly => l.(asm := IDLE, stats := stored.(reassemblyErrors := l.stats.reassemblyErrors + 1))
      case Stored(a) => l.(asm := a, stats := stored)
      case Completed(whole) => l.(asm := IDLE, stats := stored).DeliverRaw(whole)
  {
    hide Judge, Link.DeliverPayload;
  }

  /** A whole raw frame is delivered whatever the reassembly buffer holds, and leaves it alone. */
  lemma WholeArrives(l: Link, p: bytes)
    requires Acceptable(l.max, l.cfg, p)
    ensures var m := l.DeliverRaw(RawFrame(l.cfg, p));
      m.delivered == l.delivered + [p] && m.asm == l.asm
  {
    AcceptWhole(l.max, l.cfg, l.asm, l.stats, p);
    Delivers(l, RawFrame(l.cfg, p));
  }

  lemma FragmentArrives(l: Link, p: bytes, seqNo: byte, chunkMax: nat, offset: nat)
    requires Acceptable(l.max, l.cfg, p) && Sized(l.max)
    requires var raw := RawFrame(l.cfg, p);
      Fragmentable(raw, chunkMax) && offset < |raw| && (offset != 0 ==> Consistent(l.asm, raw, seqNo))
    ensures var raw := RawFrame(l.cfg, p);
      var m := l.DeliverRaw(MakeFragment(raw, seqNo, chunkMax, offset));
      var n := ChunkLength(|raw|, chunkMax, offset);
      if offset != 0 && !Holds(l.asm, raw, seqNo, offset) then m.asm == IDLE && m.delivered == l.delivered
      else if offset + n == |raw| then m.asm == IDLE && m.delivered == l.delivered + [p]
      else Holds(m.asm, raw, seqNo, offset + n) && m.delivered == l.delivered
  {
    hide Judge, MakeFragment, RawFrame, Extract, IsFragment, Link.DeliverRaw;
    var raw := RawFrame(l.cfg, p);
    var f := MakeFragment(raw, seqNo, chunkMax, offset);
    ExtractRawFrame(l.max, l.cfg, p);
    JudgeFragment(RawCapacity(l.max), l.asm, raw, seqNo, chunkMax, offset);
    AcceptWhole(l.max, l.cfg, IDLE, l.stats.(fragmentsReceived := l.stats.fragmentsReceived + 1), p);
    Delivers(l, f);
  }

  /** A payload whose raw frame looks like a fragment never comes out of a raw frame, whatever its bytes. */
  lemma {:induction false} LookalikeNotAccepted(max: nat, cfg: Config, asm: Assembly, stats: Stats, raw: bytes, p: bytes)
    requires IsFragment(RawFrame(cfg, p))
    ensures Accept(max, cfg, asm, stats, raw).payload != Some(p)
    decreases asm.active, |raw|
  {
    hide RawFrame, Extract;
    if IsFragment(raw) {
      var v := Judge(RawCapacity(max), asm, raw);
      if v.Completed? {
        LookalikeNotAccepted(max, cfg, IDLE, stats.(fragmentsReceived := stats.fragmentsReceived + 1), v.raw, p);
      }
    } else {
      FrameErrors.AcceptedIffBuilt(max, cfg, raw, p);
    }
  }

  /** `p` is not among the payloads by which a log has grown. */
  predicate Unseen(before: seq<bytes>, after: seq<bytes>, p: bytes) {
    before <= after && p !in after[|before|..]
  }

  lemma LookalikeByte(l: Link, b: byte, p: bytes)
    requires IsFragment(RawFrame(l.cfg, p))
    ensures var m := l.OnRawByte(b); Unseen(l.delivered, m.delivered, p) && m.cfg == l.cfg
  {
    hide Link.CobsByte, Link.PrefixedByte, Link.DeliverRaw, RawFrame, IsFragment, FrameOf;
    if l.cfg.Framed() {
      ByteIs(l, b);
      if FrameOf(l, b).Some? {
        LookalikeRaw(l, FrameOf(l, b).value, p);
      }
    } else {
      ShortIsNoFragment(l.cfg, [b]);
      assert (l.delivered + [[b]])[|l.delivered|..] == [[b]];
    }
  }

  lemma LookalikeRaw(l: Link, raw: bytes, p: bytes)
    requires IsFragment(RawFrame(l.cfg, p))
    ensures Unseen(l.delivered, l.DeliverRaw(raw).delivered, p) && l.DeliverRaw(raw).cfg == l.cfg
  {
    hide IsFragment, RawFrame, Link.DeliverRaw;
    LookalikeNotAccepted(l.max, l.cfg, l.asm, l.stats, raw, p);
    Delivers(l, raw);
  }

  lemma ShortIsNoFragment(cfg: Config, p: bytes)
    requires |p| + CRC_SIZE < FRAGMENT_HEADER_SIZE
    ensures !IsFragment(RawFrame(cfg, p))
  {
  }

  /**
   Such a payload never arrives: from any state, in any mode and whatever bytes are received, it is not
   among the payloads delivered.
   */
  lemma {:induction false} LookalikeNeverArrives(l: Link, s: bytes, p: bytes)
    requires IsFragment(RawFrame(l.cfg, p))
    ensures Unseen(l.delivered, l.OnBytes(s).delivered, p)
    decreases |s|
  {
    hide RawFrame, IsFragment, Link.OnRawByte;
    if s != [] {
      LookalikeByte(l, s[0], p);
      LookalikeNeverArrives(l.OnRawByte(s[0]), s[1..], p);
    }
  }

  // ---------------------------------------------------------------------------------------------
  // Progress

  function OnlyFragments(frames: seq<bytes>): seq<bytes> {
    if frames == [] then []
    else (if IsFragment(frames[0]) then [frames[0]] else []) + OnlyFragments(frames[1..])
  }

  /** The payload that a raw frame other than a fragment carries, if its check passes. */
  function PayloadOf(max: nat, cfg: Config, raw: bytes): seq<bytes> {
    match Extract(max, cfg, raw)
    case Payload(p) => [p]
    case _ => []
  }

  /**
   The deliveries due when the fragments among `frames` are the last `pending` ones of a raw frame
   with payload `p`: `p` itself when the last of them arrives, and every other frame's own payload.
   */
  function Due(max: nat, cfg: Config, frames: seq<bytes>, pending: nat, p: bytes): seq<bytes> {
    if frames == [] then []
    else if IsFragment(frames[0]) then
      (if pending == 1 then [p] else []) + Due(max, cfg, frames[1..], if pending > 0 then pending - 1 else 0, p)
    else PayloadOf(max, cfg, frames[0]) + Due(max, cfg, frames[1..], pending, p)
  }

  /** The receiver is where the fragments from `offset` on find it, and those are the ones to come. */
  ghost predicate Awaiting(l: Link, frames: seq<bytes>, p: bytes, seqNo: byte, chunkMax: nat, offset: nat) {
    var raw := RawFrame(l.cfg, p);
    && Acceptable(l.max, l.cfg, p) && Sized(l.max) && Fragmentable(raw, chunkMax)
    && OnlyFragments(frames) == Fragments(raw, seqNo, chunkMax, offset)
    && (0 < offset < |raw| ==> Holds(l.asm, raw, seqNo, offset))
  }

  lemma ProgressStep(l: Link, frames: seq<bytes>, p: bytes, seqNo: byte, chunkMax: nat, offset: nat)
    returns (next: nat)
    requires frames != [] && Awaiting(l, frames, p, seqNo, chunkMax, offset)
    ensures var m := l.DeliverRaw(frames[0]);
      && Awaiting(m, frames[1..], p, seqNo, chunkMax, next) && m.cfg == l.cfg && m.max == l.max
      && m.delivered == l.delivered + DueFirst(l.max, l.cfg, frames, p)
  {
    hide Link.DeliverRaw, MakeFragment, RawFrame, IsFragment, Extract, Fragments, Due, Acceptable;
    var raw := RawFrame(l.cfg, p);
    Delivers(l, frames[0]);
    if IsFragment(frames[0]) {
      FragmentsStep(frames, raw, seqNo, chunkMax, offset);
      FragmentArrives(l, p, seqNo, chunkMax, offset);
      next := offset + ChunkLength(|raw|, chunkMax, offset);
      assert l.delivered + [] == l.delivered;
    } else {
      assert OnlyFragments(frames) == OnlyFragments(frames[1..]);
      next := offset;
    }
  }

  lemma {:induction false} ProgressFrom(l: Link, frames: seq<bytes>, p: bytes, seqNo: byte, chunkMax: nat, offset: nat)
    requires Awaiting(l, frames, p, seqNo, chunkMax, offset)
    ensures DeliverAll(l, frames).delivered
      == l.delivered + Due(l.max, l.cfg, frames, |OnlyFragments(frames)|, p)
    decreases |frames|
  {
    if frames == [] {
      assert l.delivered + [] == l.delivered;
    } else {
      hide Awaiting, Link.DeliverRaw, Due, OnlyFragments, DueFirst;
      var m, rest := l.DeliverRaw(frames[0]), frames[1..];
      var next := ProgressStep(l, frames, p, seqNo, chunkMax, offset);
      ProgressFrom(m, rest, p, seqNo, chunkMax, next);
      AppendTwice(l.delivered, m.delivered, DueFirst(l.max, l.cfg, frames, p), Due(l.max, l.cfg, rest, |OnlyFragments(rest)|, p));
    }
  }

  /**
   Whatever was being reassembled before, if all fragments of one raw frame arrive in order, its
   payload is delivered exactly once, when the last one arrives; frames of other kinds in between are
   delivered as if the fragments were not there.
   */
  lemma Progress(l: Link, frames: seq<bytes>, p: bytes, seqNo: byte, chunkMax: nat)
    requires Acceptable(l.max, l.cfg, p) && Sized(l.max)
    requires Fragmentable(RawFrame(l.cfg, p), chunkMax)
    requires OnlyFragments(frames) == Fragments(RawFrame(l.cfg, p), seqNo, chunkMax, 0)
    ensures DeliverAll(l, frames).delivered
      == l.delivered + Due(l.max, l.cfg, frames, |OnlyFragments(frames)|, p)
  {
    ProgressFrom(l, frames, p, seqNo, chunkMax, 0);
  }

  function DueFirst(max: nat, cfg: Config, frames: seq<bytes>, p: bytes): seq<bytes>
    requires frames != []
  {
    if !IsFragment(frames[0]) then PayloadOf(max, cfg, frames[0])
    else if |OnlyFragments(frames)| == 1 then [p] else []
  }

  lemma FragmentsStep(frames: seq<bytes>, raw: bytes, seqNo: byte, chunkMax: nat, offset: nat)
    requires frames != [] && IsFragment(frames[0]) && chunkMax > 0
    requires OnlyFragments(frames) == Fragments(raw, seqNo, chunkMax, offset)
    ensures offset < |raw|
    ensures var next := offset + ChunkLength(|raw|, chunkMax, offset);
      frames[0] == MakeFragment(raw, seqNo, chunkMax, offset) && next <= |raw|
      && OnlyFragments(frames[1..]) == Fragments(raw, seqNo, chunkMax, next)
      && (|OnlyFragments(frames)| == 1 <==> next == |raw|)
  {
    var next := offset + if offset < |raw| then ChunkLength(|raw|, chunkMax, offset) else 0;
    assert OnlyFragments(frames)[0] == frames[0] && OnlyFragments(frames)[1..] == OnlyFragments(frames[1..]);
  }

  lemma AppendTwice(a: seq<bytes>, ab: seq<bytes>, b: seq<bytes>, c: seq<bytes>)
    requires ab == a + b
    ensures ab + c == a + (b + c)
  {
  }

  lemma DueForFragments(max: nat, cfg: Config, raw: bytes, seqNo: byte, chunkMax: nat, offset: nat, p: bytes)
    requires Fragmentable(raw, chunkMax) && offset < |raw|
    ensures var frames := Fragments(raw, seqNo, chunkMax, offset);
      OnlyFragments(frames) == frames && Due(max, cfg, frames, |frames|, p) == [p]
    decreases |raw| - offset
  {
    hide MakeFragment, IsFragment, Extract;
    var frames, next := Fragments(raw, seqNo, chunkMax, offset), offset + ChunkLength(|raw|, chunkMax, offset);
    FragmentFields(raw, seqNo, chunkMax, offset);
    assert frames[1..] == Fragments(raw, seqNo, chunkMax, next);
    if next < |raw| {
      DueForFragments(max, cfg, raw, seqNo, chunkMax, next, p);
    }
  }

  /** All fragments of one raw frame, in order, deliver its payload exactly once. */
  lemma SplitArrives(l: Link, p: bytes, seqNo: byte, chunkMax: nat)
    requires Acceptable(l.max, l.cfg, p) && Sized(l.max) && Fragmentable(RawFrame(l.cfg, p), chunkMax)
    ensures DeliverAll(l, Fragments(RawFrame(l.cfg, p), seqNo, chunkMax, 0)).delivered == l.delivered + [p]
  {
    hide RawFrame, IsFragment;
    DueForFragments(l.max, l.cfg, RawFrame(l.cfg, p), seqNo, chunkMax, 0, p);
    Progress(l, Fragments(RawFrame(l.cfg, p), seqNo, chunkMax, 0), p, seqNo, chunkMax);
  }

  /** The state after `n` fragments of a raw frame have been stored and the frame completed. */
  function Reassembled(l: Link, n: nat): Link {
    l.(asm := IDLE, stats := l.stats.(fragmentsReceived := l.stats.fragmentsReceived + n))
  }

  lemma {:induction false} RestRedelivers(l: Link, raw: bytes, seqNo: byte, chunkMax: nat, offset: nat)
    requires Fragmentable(raw, chunkMax) && offset < |raw| <= RawCapacity(l.max)
    requires offset != 0 ==> Holds(l.asm, raw, seqNo, offset)
    ensures var frames := Fragments(raw, seqNo, chunkMax, offset);
      DeliverAll(l, frames) == Reassembled(l, |frames|).DeliverRaw(raw)
    decreases |raw| - offset
  {
    hide MakeFragment, IsFragment, Link.DeliverRaw;
    var frames, next := Fragments(raw, seqNo, chunkMax, offset), offset + ChunkLength(|raw|, chunkMax, offset);
    JudgeFragment(RawCapacity(l.max), l.asm, raw, seqNo, chunkMax, offset);
    FragmentDelivered(l, frames[0]);
    assert frames[1..] == Fragments(raw, seqNo, chunkMax, next);
    if next < |raw| {
      RestRedelivers(l.DeliverRaw(frames[0]), raw, seqNo, chunkMax, next);
    }
  }

  /**
   Fragmentation is transparent: the fragments of any raw frame, in order, leave the link as the raw
   frame itself would, but for the fragment counter and a cleared reassembly buffer.
   */
  lemma SplitRedelivers(l: Link, raw: bytes, seqNo: byte, chunkMax: nat)
    requires Fragmentable(raw, chunkMax) && |raw| <= RawCapacity(l.max)
    ensures var frames := Fragments(raw, seqNo, chunkMax, 0);
      DeliverAll(l, frames) == Reassembled(l, |frames|).DeliverRaw(raw)
  {
    RestRedelivers(l, raw, seqNo, chunkMax, 0);
  }

  // ---------------------------------------------------------------------------------------------
  // What a bad channel can deliver

  /** Both ends frame and check alike; queues and frame limit are each end's own affair. */
  predicate SameWire(a: Config, b: Config) {
    a.useCobs == b.useCobs && a.useCrc == b.useCrc && a.useLengthPrefix == b.useLengthPrefix
  }

  lemma SameRawFrame(a: Config, b: Config, p: bytes)
    requires SameWire(a, b)
    ensures RawFrame(a, p) == RawFrame(b, p)
  {
  }

  /** One accepted send: as a single raw frame, or split into fragments under a sequence number. */
  datatype Transmission = Whole(payload: bytes) | Split(payload: bytes, seqNo: byte)

  function FramesOf(cfg: Config, t: Transmission): seq<bytes> {
    var raw := RawFrame(cfg, t.payload);
    if t.Whole? then [raw]
    else if cfg.ChunkMax() > 0 then Fragments(raw, t.seqNo, cfg.ChunkMax(), 0)
    else []
  }

  /** Sends that one link may make. */
  ghost predicate Log(max: nat, cfg: Config, log: seq<Transmission>) {
    forall t :: t in log ==>
      && Acceptable(max, cfg, t.payload)
      && (t.Split? ==> cfg.ChunkMax() > 0 && Fragmentable(RawFrame(cfg, t.payload), cfg.ChunkMax()))
  }

  /** The frame is one of those of a logged send. */
  ghost predicate Logged(cfg: Config, log: seq<Transmission>, frame: bytes) {
    exists t :: t in log && frame in FramesOf(cfg, t)
  }

  /** Every fragment of `raw` under this number is one of a logged send, if not all of the same one. */
  ghost predicate Woven(cfg: Config, log: seq<Transmission>, raw: bytes, seqNo: byte) {
    && 0 < |raw| <= 0xFFFF && cfg.ChunkMax() > 0
    && forall f :: f in Fragments(raw, seqNo, cfg.ChunkMax(), 0) ==> Logged(cfg, log, f)
  }

  /** The payload of a whole logged frame, or one that is woven from logged fragments. */
  ghost predicate Deliverable(cfg: Config, log: seq<Transmission>, p: bytes) {
    var raw := RawFrame(cfg, p);
    !IsFragment(raw) && (Logged(cfg, log, raw) || exists seqNo: byte :: Woven(cfg, log, raw, seqNo))
  }

  /** No raw frame that can be woven from the logged fragments would itself be taken for a fragment. */
  ghost predicate NoLookalikes(cfg: Config, log: seq<Transmission>) {
    forall raw, seqNo: byte :: Woven(cfg, log, raw, seqNo) ==> !IsFragment(raw)
  }

  /** The fragments of `raw` between the offsets `from` and `to` are logged. */
  ghost predicate Begun(cfg: Config, log: seq<Transmission>, raw: bytes, seqNo: byte, from: nat, to: nat)
    requires cfg.ChunkMax() > 0
    decreases |raw| - from
  {
    from == to ||
    (from < to <= |raw|
     && Logged(cfg, log, MakeFragment(raw, seqNo, cfg.ChunkMax(), from))
     && Begun(cfg, log, raw, seqNo, from + ChunkLength(|raw|, cfg.ChunkMax(), from), to))
  }

  lemma {:induction false} BegunStays(cfg: Config, log: seq<Transmission>, raw: bytes, other: bytes, seqNo: byte, from: nat, to: nat)
    requires cfg.ChunkMax() > 0 && |raw| == |other| && to <= |raw| && raw[..to] == other[..to]
    requires Begun(cfg, log, raw, seqNo, from, to)
    ensures Begun(cfg, log, other, seqNo, from, to)
    decreases |raw| - from
  {
    hide MakeFragment, Logged;
    if from < to {
      var next := from + ChunkLength(|raw|, cfg.ChunkMax(), from);
      assert raw[from..next] == raw[..to][from..next] && other[from..next] == other[..to][from..next];
      SameFragment(raw, other, seqNo, cfg.ChunkMax(), from);
      BegunStays(cfg, log, raw, other, seqNo, next, to);
    }
  }

  /** A fragment depends on the raw frame's length and on its own chunk only. */
  lemma SameFragment(raw: bytes, other: bytes, seqNo: byte, chunkMax: nat, offset: nat)
    requires |raw| == |other| && offset < |raw|
    requires var next := offset + ChunkLength(|raw|, chunkMax, offset); raw[offset..next] == other[offset..next]
    ensures MakeFragment(raw, seqNo, chunkMax, offset) == MakeFragment(other, seqNo, chunkMax, offset)
  {
  }

  lemma {:induction false} BegunMore(cfg: Config, log: seq<Transmission>, raw: bytes, seqNo: byte, from: nat, to: nat)
    requires cfg.ChunkMax() > 0 && to < |raw| && Begun(cfg, log, raw, seqNo, from, to)
    requires Logged(cfg, log, MakeFragment(raw, seqNo, cfg.ChunkMax(), to))
    ensures Begun(cfg, log, raw, seqNo, from, to + ChunkLength(|raw|, cfg.ChunkMax(), to))
    decreases |raw| - from
  {
    hide MakeFragment, Logged;
    if from < to {
      BegunMore(cfg, log, raw, seqNo, from + ChunkLength(|raw|, cfg.ChunkMax(), from), to);
    } else {
      assert Begun(cfg, log, raw, seqNo, to + ChunkLength(|raw|, cfg.ChunkMax(), to), to + ChunkLength(|raw|, cfg.ChunkMax(), to));
    }
  }

  lemma {:induction false} BegunWhole(cfg: Config, log: seq<Transmission>, raw: bytes, seqNo: byte, from: nat)
    requires cfg.ChunkMax() > 0 && Begun(cfg, log, raw, seqNo, from, |raw|)
    ensures forall f :: f in Fragments(raw, seqNo, cfg.ChunkMax(), from) ==> Logged(cfg, log, f)
    decreases |raw| - from
  {
    hide MakeFragment, Logged;
    if from < |raw| {
      BegunWhole(cfg, log, raw, seqNo, from + ChunkLength(|raw|, cfg.ChunkMax(), from));
    }
  }

  /** The buffer holds the beginning of a raw frame, as far as that is woven from logged fragments. */
  ghost predicate HoldsBegun(cfg: Config, log: seq<Transmission>, asm: Assembly, raw: bytes) {
    cfg.ChunkMax() > 0 && Holds(asm, raw, asm.seqNo, |asm.data|) && Begun(cfg, log, raw, asm.seqNo, 0, |asm.data|)
  }

  ghost predicate Traceable(cfg: Config, log: seq<Transmission>, asm: Assembly) {
    asm.active ==> exists raw :: HoldsBegun(cfg, log, asm, raw)
  }

  lemma {:induction false} FragmentOffset(raw: bytes, seqNo: byte, chunkMax: nat, start: nat, f: bytes) returns (offset: nat)
    requires chunkMax > 0 && f in Fragments(raw, seqNo, chunkMax, start)
    ensures offset < |raw| && f == MakeFragment(raw, seqNo, chunkMax, offset)
    decreases |raw| - start
  {
    hide MakeFragment;
    if f == MakeFragment(raw, seqNo, chunkMax, start) {
      offset := start;
    } else {
      offset := FragmentOffset(raw, seqNo, chunkMax, start + ChunkLength(|raw|, chunkMax, start), f);
    }
  }

  /** A logged fragment belongs to a split send. */
  lemma LoggedFragment(max: nat, cfg: Config, log: seq<Transmission>, f: bytes) returns (t: Transmission, offset: nat)
    requires Log(max, cfg, log) && Logged(cfg, log, f) && IsFragment(f)
    ensures t in log && t.Split? && cfg.ChunkMax() > 0 && Fragmentable(RawFrame(cfg, t.payload), cfg.ChunkMax())
    ensures var raw := RawFrame(cfg, t.payload);
      offset < |raw| && f == MakeFragment(raw, t.seqNo, cfg.ChunkMax(), offset)
  {
    hide RawFrame, MakeFragment, IsFragment;
    t :| t in log && f in FramesOf(cfg, t);
    assert Acceptable(max, cfg, t.payload);
    offset := FragmentOffset(RawFrame(cfg, t.payload), t.seqNo, cfg.ChunkMax(), 0, f);
  }

  /** What a fragment adds to the buffer, and what is delivered when it is the last one. */
  lemma ChunkArrives(l: Link, raw: bytes, seqNo: byte, chunkMax: nat, offset: nat)
    requires Fragmentable(raw, chunkMax) && offset < |raw| <= RawCapacity(l.max)
    ensures var m := l.DeliverRaw(MakeFragment(raw, seqNo, chunkMax, offset));
      var n := ChunkLength(|raw|, chunkMax, offset);
      var data := (if offset == 0 then [] else l.asm.data) + raw[offset..offset+n];
      && m.max == l.max && m.cfg == l.cfg
      && if offset != 0 && !Expects(l.asm, seqNo, |raw|, offset) then m.asm == IDLE && m.delivered == l.delivered
         else if offset + n < |raw| then m.asm == Assembly(true, seqNo, |raw|, data) && m.delivered == l.delivered
         else !IsFragment(data) ==> m.asm == IDLE && m.delivered == l.delivered + PayloadOf(l.max, l.cfg, data)
  {
    hide MakeFragment, Judge, IsFragment, Link.DeliverRaw, Extract;
    JudgeChunk(RawCapacity(l.max), l.asm, raw, seqNo, chunkMax, offset);
    var f := MakeFragment(raw, seqNo, chunkMax, offset);
    FragmentDelivered(l, f);
    Delivers(l, f);
    var v := Judge(RawCapacity(l.max), l.asm, f);
    if v.Completed? && !IsFragment(v.raw) {
    }
  }

  /** The raw frame of which a fragment continues, or starts, the part that the buffer holds. */
  lemma Continued(cfg: Config, log: seq<Transmission>, asm: Assembly, raw: bytes, seqNo: byte, offset: nat) returns (whole: bytes)
    requires Traceable(cfg, log, asm) && cfg.ChunkMax() > 0 && offset < |raw|
    requires Logged(cfg, log, MakeFragment(raw, seqNo, cfg.ChunkMax(), offset))
    requires offset != 0 ==> Expects(asm, seqNo, |raw|, offset)
    ensures var next := offset + ChunkLength(|raw|, cfg.ChunkMax(), offset);
      && |whole| == |raw| && Begun(cfg, log, whole, seqNo, 0, next)
      && whole[..next] == (if offset == 0 then [] else asm.data) + raw[offset..next]
  {
    hide MakeFragment, Logged;
    var next := offset + ChunkLength(|raw|, cfg.ChunkMax(), offset);
    whole := (if offset == 0 then [] else asm.data) + raw[offset..];
    assert raw[offset..][..next-offset] == raw[offset..next];
    if offset != 0 {
      var begun :| HoldsBegun(cfg, log, asm, begun);
      assert whole[..offset] == begun[..offset];
      BegunStays(cfg, log, begun, whole, seqNo, 0, offset);
    }
    assert whole[offset..next] == raw[offset..next];
    SameFragment(whole, raw, seqNo, cfg.ChunkMax(), offset);
    BegunMore(cfg, log, whole, seqNo, 0, offset);
  }

  lemma SafeFragment(l: Link, cfg: Config, log: seq<Transmission>, t: Transmission, offset: nat) returns (payloads: seq<bytes>)
    requires Sized(l.max) && SameWire(cfg, l.cfg) && Log(l.max, cfg, log) && NoLookalikes(cfg, log)
    requires t in log && t.Split? && offset < |RawFrame(cfg, t.payload)| && cfg.ChunkMax() > 0
    requires Logged(cfg, log, MakeFragment(RawFrame(cfg, t.payload), t.seqNo, cfg.ChunkMax(), offset))
    requires Traceable(cfg, log, l.asm)
    ensures var m := l.DeliverRaw(MakeFragment(RawFrame(cfg, t.payload), t.seqNo, cfg.ChunkMax(), offset));
      m.max == l.max && m.cfg == l.cfg && m.delivered == l.delivered + payloads && Traceable(cfg, log, m.asm)
    ensures forall p :: p in payloads ==> Deliverable(cfg, log, p)
  {
    hide RawFrame, IsFragment, MakeFragment, Link.DeliverRaw, Logged, Begun, Extract, Fragments;
    var raw, c := RawFrame(cfg, t.payload), cfg.ChunkMax();
    var next := offset + ChunkLength(|raw|, c, offset);
    ExtractRawFrame(l.max, cfg, t.payload);
    ChunkArrives(l, raw, t.seqNo, c, offset);
    payloads := [];
    assert l.delivered + [] == l.delivered;
    if offset == 0 || Expects(l.asm, t.seqNo, |raw|, offset) {
      var whole := Continued(cfg, log, l.asm, raw, t.seqNo, offset);
      if next < |raw| {
        assert HoldsBegun(cfg, log, l.DeliverRaw(MakeFragment(raw, t.seqNo, c, offset)).asm, whole);
      } else {
        assert whole[..next] == whole;
        BegunWhole(cfg, log, whole, t.seqNo, 0);
        assert Woven(cfg, log, whole, t.seqNo);
        payloads := PayloadOf(l.max, l.cfg, whole);
        forall p | p in payloads ensures Deliverable(cfg, log, p) {
          FrameErrors.AcceptedIffBuilt(l.max, l.cfg, whole, p);
          SameRawFrame(cfg, l.cfg, p);
        }
      }
    }
  }

  lemma SafeStep(l: Link, cfg: Config, log: seq<Transmission>, frame: bytes) returns (payloads: seq<bytes>)
    requires Sized(l.max) && SameWire(cfg, l.cfg) && Log(l.max, cfg, log) && NoLookalikes(cfg, log)
    requires Logged(cfg, log, frame) && Traceable(cfg, log, l.asm)
    ensures var m := l.DeliverRaw(frame);
      m.max == l.max && m.cfg == l.cfg && m.delivered == l.delivered + payloads && Traceable(cfg, log, m.asm)
    ensures forall p :: p in payloads ==> Deliverable(cfg, log, p)
  {
    hide RawFrame, MakeFragment, Link.DeliverRaw, Traceable, NoLookalikes, IsFragment;
    if IsFragment(frame) {
      var t, offset := LoggedFragment(l.max, cfg, log, frame);
      payloads := SafeFragment(l, cfg, log, t, offset);
    } else {
      var t := LoggedWhole(l.max, cfg, log, frame);
      SameRawFrame(cfg, l.cfg, t.payload);
      WholeArrives(l, t.payload);
      Delivers(l, frame);
      payloads := [t.payload];
    }
  }

  /** A logged frame other than a fragment is a whole send. */
  lemma LoggedWhole(max: nat, cfg: Config, log: seq<Transmission>, frame: bytes) returns (t: Transmission)
    requires Log(max, cfg, log) && Logged(cfg, log, frame) && !IsFragment(frame)
    ensures t in log && frame == RawFrame(cfg, t.payload) && Acceptable(max, cfg, t.payload)
  {
    hide RawFrame, MakeFragment, IsFragment;
    t :| t in log && frame in FramesOf(cfg, t);
    assert Acceptable(max, cfg, t.payload);
    if t.Split? {
      var raw := RawFrame(cfg, t.payload);
      var offset := FragmentOffset(raw, t.seqNo, cfg.ChunkMax(), 0, frame);
      FragmentFields(raw, t.seqNo, cfg.ChunkMax(), offset);
      assert false;
    }
  }

  /**
   However frames are lost, repeated or reordered, every payload delivered was sent whole or is woven
   from fragments that were sent under one number.
   */
  lemma {:induction false} Safety(l: Link, cfg: Config, log: seq<Transmission>, frames: seq<bytes>)
    returns (payloads: seq<bytes>)
    requires Sized(l.max) && SameWire(cfg, l.cfg) && Log(l.max, cfg, log) && NoLookalikes(cfg, log)
    requires Traceable(cfg, log, l.asm) && forall f :: f in frames ==> Logged(cfg, log, f)
    ensures DeliverAll(l, frames).delivered == l.delivered + payloads
    ensures forall p :: p in payloads ==> Deliverable(cfg, log, p)
    decreases |frames|
  {
    hide Link.DeliverRaw, Log, Logged, Traceable, NoLookalikes, Deliverable;
    if frames == [] {
      payloads := [];
    } else {
      var first := SafeStep(l, cfg, log, frames[0]);
      var rest := Safety(l.DeliverRaw(frames[0]), cfg, log, frames[1..]);
      payloads := first + rest;
      AppendTwice(l.delivered, l.delivered + first, first, rest);
    }
  }

  /** Conversely, every such payload is delivered if just its frames come through, in order. */
  lemma DeliverableArrives(l: Link, cfg: Config, log: seq<Transmission>, p: bytes) returns (frames: seq<bytes>)
    requires Sized(l.max) && SameWire(cfg, l.cfg) && Acceptable(l.max, cfg, p)
    requires cfg.ChunkMax() <= 0xFF && Deliverable(cfg, log, p)
    ensures forall f :: f in frames ==> Logged(cfg, log, f)
    ensures DeliverAll(l, frames).delivered == l.delivered + [p]
  {
    hide RawFrame, IsFragment, Link.DeliverRaw, MakeFragment;
    SameRawFrame(cfg, l.cfg, p);
    var raw := RawFrame(cfg, p);
    if Logged(cfg, log, raw) {
      frames := [raw];
      WholeArrives(l, p);
      assert DeliverAll(l, [raw]) == l.DeliverRaw(raw);
    } else {
      var seqNo: byte :| Woven(cfg, log, raw, seqNo);
      frames := Fragments(raw, seqNo, cfg.ChunkMax(), 0);
      SplitArrives(l, p, seqNo, cfg.ChunkMax());
    }
  }

  // ---------------------------------------------------------------------------------------------
  // When only sent payloads can be woven

  /** Split sends that share their number and their length share their payload. */
  ghost predicate Unambiguous(cfg: Config, log: seq<Transmission>) {
    forall t, u :: t in log && u in log && t.Split? && u.Split? ==>
      t.seqNo == u.seqNo && |RawFrame(cfg, t.payload)| == |RawFrame(cfg, u.payload)| ==> t.payload == u.payload
  }

  lemma {:induction false} WovenTail(max: nat, cfg: Config, log: seq<Transmission>, raw: bytes, t: Transmission, offset: nat)
    requires Log(max, cfg, log) && Unambiguous(cfg, log) && t in log && t.Split?
    requires |raw| == |RawFrame(cfg, t.payload)| && offset <= |raw|
    requires cfg.ChunkMax() > 0 && forall f :: f in Fragments(raw, t.seqNo, cfg.ChunkMax(), offset) ==> Logged(cfg, log, f)
    ensures raw[offset..] == RawFrame(cfg, t.payload)[offset..]
    decreases |raw| - offset
  {
    hide RawFrame, IsFragment, MakeFragment, Logged;
    if offset < |raw| {
      var c := cfg.ChunkMax();
      var n, sent := ChunkLength(|raw|, c, offset), RawFrame(cfg, t.payload);
      var f := MakeFragment(raw, t.seqNo, c, offset);
      assert Fragments(raw, t.seqNo, c, offset)[0] == f;
      FragmentFields(raw, t.seqNo, c, offset);
      var u, o := LoggedFragment(max, cfg, log, f);
      FragmentFields(RawFrame(cfg, u.payload), u.seqNo, c, o);
      assert u.payload == t.payload && o == offset;
      WovenTail(max, cfg, log, raw, t, offset + n);
      assert raw[offset..] == raw[offset..offset+n] + raw[offset+n..];
      assert sent[offset..] == sent[offset..offset+n] + sent[offset+n..];
    }
  }

  /** The send whose first fragment is the first one of a woven raw frame. */
  lemma WovenFirst(max: nat, cfg: Config, log: seq<Transmission>, raw: bytes, seqNo: byte) returns (t: Transmission)
    requires Log(max, cfg, log) && Woven(cfg, log, raw, seqNo)
    ensures t in log && t.Split? && t.seqNo == seqNo && Acceptable(max, cfg, t.payload)
    ensures var n := ChunkLength(|raw|, cfg.ChunkMax(), 0);
      |RawFrame(cfg, t.payload)| == |raw| && RawFrame(cfg, t.payload)[..n] == raw[..n]
  {
    hide RawFrame, IsFragment, MakeFragment;
    var c := cfg.ChunkMax();
    var f := MakeFragment(raw, seqNo, c, 0);
    assert Fragments(raw, seqNo, c, 0)[0] == f;
    FragmentHeader(raw, seqNo, c, 0);
    var u, o := LoggedFragment(max, cfg, log, f);
    t := u;
    FragmentFields(RawFrame(cfg, u.payload), u.seqNo, c, o);
    assert raw[..ChunkLength(|raw|, c, 0)] == raw[0..ChunkLength(|raw|, c, 0)];
  }

  lemma WovenIsSent(max: nat, cfg: Config, log: seq<Transmission>, raw: bytes, seqNo: byte) returns (t: Transmission)
    requires Log(max, cfg, log) && Unambiguous(cfg, log) && Woven(cfg, log, raw, seqNo)
    ensures t in log && RawFrame(cfg, t.payload) == raw && Acceptable(max, cfg, t.payload)
  {
    hide RawFrame, IsFragment, MakeFragment;
    t := WovenFirst(max, cfg, log, raw, seqNo);
    WovenTail(max, cfg, log, raw, t, 0);
    assert raw[0..] == raw && RawFrame(cfg, t.payload)[0..] == RawFrame(cfg, t.payload);
  }

  lemma RawFrameInjective(cfg: Config, p: bytes, q: bytes)
    requires RawFrame(cfg, p) == RawFrame(cfg, q)
    ensures p == q
  {
    hide RawFrame;
    ExtractRawFrame(|p| + |q|, cfg, p);
    ExtractRawFrame(|p| + |q|, cfg, q);
  }

  /** If no number is ambiguous, a channel can deliver only what was sent. */
  lemma UnambiguousSafe(max: nat, cfg: Config, log: seq<Transmission>)
    requires Log(max, cfg, log) && Unambiguous(cfg, log)
    ensures NoLookalikes(cfg, log)
    ensures forall p :: Deliverable(cfg, log, p) ==> exists t :: t in log && t.payload == p
  {
    hide RawFrame, IsFragment, Log, Unambiguous, Woven, Logged;
    forall raw, seqNo: byte | Woven(cfg, log, raw, seqNo) ensures !IsFragment(raw) {
      var t := WovenIsSent(max, cfg, log, raw, seqNo);
    }
    forall p | Deliverable(cfg, log, p) ensures exists t :: t in log && t.payload == p {
      var t := DeliverableSent(max, cfg, log, p);
    }
  }

  lemma DeliverableSent(max: nat, cfg: Config, log: seq<Transmission>, p: bytes) returns (t: Transmission)
    requires Log(max, cfg, log) && Unambiguous(cfg, log) && Deliverable(cfg, log, p)
    ensures t in log && t.payload == p
  {
    hide RawFrame, IsFragment, MakeFragment, Woven;
    var raw := RawFrame(cfg, p);
    if seqNo: byte :| Woven(cfg, log, raw, seqNo) {
      t := WovenIsSent(max, cfg, log, raw, seqNo);
    } else {
      t := LoggedWhole(max, cfg, log, raw);
    }
    RawFrameInjective(cfg, p, t.payload);
  }

  lemma DeliverableAcceptable(max: nat, cfg: Config, log: seq<Transmission>, p: bytes)
    requires Log(max, cfg, log) && Deliverable(cfg, log, p)
    ensures Acceptable(max, cfg, p)
  {
    hide IsFragment, MakeFragment, Woven;
    var raw := RawFrame(cfg, p);
    if seqNo: byte :| Woven(cfg, log, raw, seqNo) {
      var t := WovenFirst(max, cfg, log, raw, seqNo);
    } else {
      var t := LoggedWhole(max, cfg, log, raw);
    }
  }

  /** With chunks of two bytes or more, the first fragment alone decides whether a raw frame looks like one. */
  lemma WideChunksSafe(max: nat, cfg: Config, log: seq<Transmission>)
    requires Log(max, cfg, log) && cfg.ChunkMax() != 1
    ensures NoLookalikes(cfg, log)
  {
    hide RawFrame, MakeFragment, Woven, Logged;
    forall raw, seqNo: byte | Woven(cfg, log, raw, seqNo) ensures !IsFragment(raw) {
      WovenNoLookalike(max, cfg, log, raw, seqNo);
    }
  }

  lemma WovenNoLookalike(max: nat, cfg: Config, log: seq<Transmission>, raw: bytes, seqNo: byte)
    requires Log(max, cfg, log) && cfg.ChunkMax() != 1 && Woven(cfg, log, raw, seqNo)
    ensures !IsFragment(raw)
  {
    hide RawFrame, MakeFragment, Logged;
    var t := WovenFirst(max, cfg, log, raw, seqNo);
    var sent, n := RawFrame(cfg, t.payload), ChunkLength(|raw|, cfg.ChunkMax(), 0);
    if |raw| >= FRAGMENT_HEADER_SIZE {
      assert raw[0] == raw[..n][0] && raw[1] == raw[..n][1] && sent[0] == sent[..n][0] && sent[1] == sent[..n][1];
    }
  }

  // ---------------------------------------------------------------------------------------------
  // What a number used twice lets through

  lemma {:induction false} SameTail(p: bytes, q: bytes, seqNo: byte, chunkMax: nat, offset: nat)
    requires |p| == |q| && chunkMax > 0 && offset <= |p| && p[offset..] == q[offset..]
    ensures Fragments(p, seqNo, chunkMax, offset) == Fragments(q, seqNo, chunkMax, offset)
    decreases |p| - offset
  {
    hide MakeFragment;
    if offset < |p| {
      var n := ChunkLength(|p|, chunkMax, offset);
      assert p[offset..offset+n] == p[offset..][..n] && q[offset..offset+n] == q[offset..][..n];
      assert p[offset+n..] == p[offset..][n..] && q[offset+n..] == q[offset..][n..];
      SameFragment(p, q, seqNo, chunkMax, offset);
      SameTail(p, q, seqNo, chunkMax, offset + n);
    }
  }

  /** Two split sends of one length and number: the first chunk of one goes with the rest of the other. */
  lemma MixedIsWoven(max: nat, cfg: Config, log: seq<Transmission>, t: Transmission, u: Transmission, mix: bytes)
    requires Log(max, cfg, log) && t in log && u in log && t.Split? && u.Split? && t.seqNo == u.seqNo
    requires var raw, other := RawFrame(cfg, t.payload), RawFrame(cfg, u.payload);
      cfg.ChunkMax() < |raw| == |other| && mix == raw[..cfg.ChunkMax()] + other[cfg.ChunkMax()..]
    ensures Woven(cfg, log, mix, t.seqNo)
  {
    hide RawFrame, MakeFragment, IsFragment;
    var c, raw, other := cfg.ChunkMax(), RawFrame(cfg, t.payload), RawFrame(cfg, u.payload);
    var frames := Fragments(mix, t.seqNo, c, 0);
    assert mix[0..c] == raw[0..c] && mix[c..] == other[c..];
    SameFragment(mix, raw, t.seqNo, c, 0);
    SameTail(mix, other, t.seqNo, c, c);
    assert frames[0] == Fragments(raw, t.seqNo, c, 0)[0];
    forall f | f in frames ensures Logged(cfg, log, f) {
      if f == frames[0] {
        assert f in FramesOf(cfg, t);
      } else {
        assert f in Fragments(other, u.seqNo, c, 0)[1..];
        assert f in FramesOf(cfg, u);
      }
    }
  }

  // ---------------------------------------------------------------------------------------------
  // Termination

  /** How many raw frames are handled, one inside the other, because of one that arrived. */
  function Depth(capacity: nat, asm: Assembly, raw: bytes): nat
    decreases asm.active, |raw|
  {
    if IsFragment(raw) && Judge(capacity, asm, raw).Completed? then
      1 + Depth(capacity, IDLE, Judge(capacity, asm, raw).raw)
    else 1
  }

  lemma {:induction false} DepthFromIdle(capacity: nat, raw: bytes)
    ensures Depth(capacity, IDLE, raw) <= 1 + (if |raw| <= 0xFF + FRAGMENT_HEADER_SIZE then |raw| else 0) / FRAGMENT_HEADER_SIZE
    decreases |raw|
  {
    if IsFragment(raw) && Judge(capacity, IDLE, raw).Completed? {
      DepthFromIdle(capacity, Judge(capacity, IDLE, raw).raw);
    }
  }

  /** Redelivery ends: however a frame was made up, at most 31 raw frames are handled for it. */
  lemma DepthBounded(capacity: nat, asm: Assembly, raw: bytes)
    ensures Depth(capacity, asm, raw) <= 31
  {
    if IsFragment(raw) && Judge(capacity, asm, raw).Completed? {
      DepthFromIdle(capacity, Judge(capacity, asm, raw).raw);
    }
  }
}
