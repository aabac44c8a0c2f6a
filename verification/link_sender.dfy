/** What a send puts on the wire, when it keeps to the physical frame limit, and what arrives of it. */
module LinkSender {
  import opened Bytes
  import opened Cobs
  import opened LinkModel
  import opened LinkFrames
  import opened LinkInvariants
  import opened Reassembly

  /** Frame limits that every fragment keeps to, whatever its content. */
  predicate ValidLimit(cfg: Config) {
    cfg.physicalFrameLimit == 0 || 12 <= cfg.physicalFrameLimit <= if cfg.useCobs then 255 else 266
  }

  predicate Sendable(max: nat, cfg: Config) {
    cfg.Framed() && ValidLimit(cfg) && Sized(max)
  }

  /** The raw frame goes out as it is: with two bytes of framing it keeps to the limit, if there is one. */
  predicate GoesWhole(cfg: Config, p: bytes) {
    cfg.physicalFrameLimit == 0 || |RawFrame(cfg, p)| + 2 <= cfg.physicalFrameLimit
  }

  /** Otherwise a fragment, of which framing and header take 11 bytes, must have room for data. */
  predicate HasRoom(cfg: Config, p: bytes) {
    GoesWhole(cfg, p) || cfg.physicalFrameLimit >= 12
  }

  /** The raw frames that a send of `p` is made of, when the last sequence number was `seqNo`. */
  function Plan(cfg: Config, seqNo: byte, p: bytes): seq<bytes> {
    var raw := RawFrame(cfg, p);
    if GoesWhole(cfg, p) then [raw]
    else if cfg.physicalFrameLimit >= 12 then Fragments(raw, (seqNo + 1) % 256, cfg.physicalFrameLimit - 11, 0)
    else []
  }

  /** A payload that goes out in fragments, under a number of its own. */
  predicate NeedsSplit(cfg: Config, p: bytes) {
    !GoesWhole(cfg, p) && cfg.physicalFrameLimit >= 12
  }

  function NextSeq(cfg: Config, seqNo: byte, p: bytes): byte {
    if NeedsSplit(cfg, p) then (seqNo + 1) % 256 else seqNo
  }

  /** These are the sizes by which the sender decides. */
  lemma Decides(cfg: Config, p: bytes)
    requires cfg.Framed()
    ensures cfg.ShouldFragment(|RawFrame(cfg, p)|) <==> !GoesWhole(cfg, p)
    ensures cfg.ChunkMax() == cfg.physicalFrameLimit - 11
    ensures |RawFrame(cfg, p)| == |p| + if cfg.useCrc then 2 else 0
  {
  }

  // ---------------------------------------------------------------------------------------------
  // Sizes

  /** The size of a raw frame on the wire: one byte more for each full block of a COBS frame. */
  function WireSize(cfg: Config, raw: bytes): nat {
    |raw| + 2 + if cfg.useCobs then FullBlocks(raw) else 0
  }

  predicate Passes(cfg: Config, raw: bytes) {
    cfg.physicalFrameLimit == 0 || WireSize(cfg, raw) <= cfg.physicalFrameLimit
  }

  lemma FrameSize(cfg: Config, raw: bytes)
    requires cfg.Framed()
    ensures |Frame(cfg, raw)| == WireSize(cfg, raw)
  {
    EncodedSize(raw);
  }

  /** A frame that fits the link and, if there is one, the physical limit. */
  predicate WithinLimits(max: nat, cfg: Config, raw: bytes) {
    FitsRaw(max, raw) && Passes(cfg, raw)
  }

  lemma SmallFrame(cfg: Config, raw: bytes)
    requires ValidLimit(cfg) && (cfg.physicalFrameLimit > 0 ==> |raw| + 2 <= cfg.physicalFrameLimit)
    ensures Passes(cfg, raw)
  {
    FullBlocksBound(raw);
  }

  lemma FragmentSize(raw: bytes, seqNo: byte, chunkMax: nat, offset: nat)
    requires offset <= |raw|
    ensures |MakeFragment(raw, seqNo, chunkMax, offset)| == FRAGMENT_HEADER_SIZE + ChunkLength(|raw|, chunkMax, offset)
  {
  }

  lemma {:induction false} FragmentsFit(max: nat, cfg: Config, raw: bytes, seqNo: byte, offset: nat)
    requires 12 <= cfg.physicalFrameLimit < |raw| + 2 && |raw| <= RawCapacity(max)
    ensures forall f :: f in Fragments(raw, seqNo, cfg.physicalFrameLimit - 11, offset) ==>
      FitsRaw(max, f) && |f| + 2 <= cfg.physicalFrameLimit
    decreases |raw| - offset
  {
    hide MakeFragment;
    if offset < |raw| {
      var n := ChunkLength(|raw|, cfg.physicalFrameLimit - 11, offset);
      FragmentSize(raw, seqNo, cfg.physicalFrameLimit - 11, offset);
      FragmentsFit(max, cfg, raw, seqNo, offset + n);
    }
  }

  /** Every frame of a send fits the buffers of sender and receiver. */
  lemma PlanFits(max: nat, cfg: Config, seqNo: byte, p: bytes)
    requires cfg.Framed() && 0 < |p| <= max
    ensures forall raw :: raw in Plan(cfg, seqNo, p) ==> FitsRaw(max, raw)
    ensures forall raw :: raw in Plan(cfg, seqNo, p) ==> cfg.physicalFrameLimit > 0 ==> |raw| + 2 <= cfg.physicalFrameLimit
  {
    hide FitsRaw, Fragments, RawFrame;
    RawFrameFits(max, cfg, p);
    if NeedsSplit(cfg, p) {
      FragmentsFit(max, cfg, RawFrame(cfg, p), (seqNo + 1) % 256, 0);
    }
  }

  lemma RawFrameFits(max: nat, cfg: Config, p: bytes)
    requires 0 < |p| <= max
    ensures FitsRaw(max, RawFrame(cfg, p)) && |RawFrame(cfg, p)| <= RawCapacity(max)
  {
  }

  /** Under a valid limit, every frame of a send keeps to the limit as well. */
  lemma PlanWithinLimits(max: nat, cfg: Config, seqNo: byte, p: bytes)
    requires Sendable(max, cfg) && 0 < |p| <= max
    ensures forall raw :: raw in Plan(cfg, seqNo, p) ==> WithinLimits(max, cfg, raw)
  {
    hide FitsRaw, Passes, Plan;
    PlanFits(max, cfg, seqNo, p);
    forall raw | raw in Plan(cfg, seqNo, p) ensures WithinLimits(max, cfg, raw) {
      SmallFrame(cfg, raw);
    }
  }

  // ---------------------------------------------------------------------------------------------
  // The shape of a fragmented send

  function Bodies(frames: seq<bytes>): bytes
    requires forall f :: f in frames ==> |f| >= FRAGMENT_HEADER_SIZE
  {
    if frames == [] then [] else frames[0][FRAGMENT_HEADER_SIZE..] + Bodies(frames[1..])
  }

  /** The chunks partition the raw frame; the first fragment alone starts it, the last alone ends it. */
  lemma {:induction false} FragmentsPartition(raw: bytes, seqNo: byte, chunkMax: nat, offset: nat)
    requires Fragmentable(raw, chunkMax) && offset < |raw|
    ensures var frames := Fragments(raw, seqNo, chunkMax, offset);
      && |frames| > 0
      && (forall f :: f in frames ==> IsFragment(f) && f[2] == seqNo)
      && Bodies(frames) == raw[offset..]
      && (forall i :: 0 <= i < |frames| ==>
           (HasStart(frames[i][3]) <==> offset == 0 && i == 0) && (HasEnd(frames[i][3]) <==> i == |frames| - 1))
    decreases |raw| - offset
  {
    hide MakeFragment, IsFragment;
    var frames, next := Fragments(raw, seqNo, chunkMax, offset), offset + ChunkLength(|raw|, chunkMax, offset);
    FragmentFields(raw, seqNo, chunkMax, offset);
    assert frames[1..] == Fragments(raw, seqNo, chunkMax, next);
    assert raw[offset..next] + raw[next..] == raw[offset..];
    if next < |raw| {
      FragmentsPartition(raw, seqNo, chunkMax, next);
    } else {
      assert frames == [frames[0]];
    }
  }

  /** The i-th fragment starts i full chunks further on, and there are as many as the raw frame has room for. */
  lemma {:induction false} FragmentAt(raw: bytes, seqNo: byte, chunkMax: nat, offset: nat, i: nat)
    requires chunkMax > 0 && offset <= |raw|
    ensures var frames := Fragments(raw, seqNo, chunkMax, offset);
      && (i < |frames| <==> offset + i * chunkMax < |raw|)
      && (i < |frames| ==> frames[i] == MakeFragment(raw, seqNo, chunkMax, offset + i * chunkMax))
    decreases i
  {
    hide MakeFragment;
    if i > 0 {
      assert i * chunkMax == chunkMax + (i - 1) * chunkMax;
      if offset < |raw| {
        FragmentAt(raw, seqNo, chunkMax, offset + ChunkLength(|raw|, chunkMax, offset), i - 1);
      }
    }
  }

  /**
   The bytes of the i-th fragment: the magic pair, the number, the flags, total length and offset with
   the high byte first, the chunk length, and the chunk.
   */
  lemma FragmentLayout(raw: bytes, seqNo: byte, chunkMax: nat, i: nat)
    requires Fragmentable(raw, chunkMax) && i < |Fragments(raw, seqNo, chunkMax, 0)|
    ensures var frames := Fragments(raw, seqNo, chunkMax, 0);
      var f, offset := frames[i], i * chunkMax;
      var n := if i + 1 < |frames| then chunkMax else |raw| - offset;
      && 0 < n <= chunkMax && offset + n <= |raw| && (i + 1 == |frames| <==> offset + n == |raw|)
      && |f| == 9 + n && f[0] == 0xA5 && f[1] == 0x5A && f[2] == seqNo
      && f[3] == (if i == 0 then 1 else 0) + (if i + 1 == |frames| then 2 else 0)
      && (f[4] as nat) * 256 + f[5] == |raw| && (f[6] as nat) * 256 + f[7] == offset
      && f[8] == n && f[9..] == raw[offset..offset+n]
  {
    hide MakeFragment, HasStart, HasEnd, HiByte, LoByte;
    FragmentAt(raw, seqNo, chunkMax, 0, i);
    FragmentAt(raw, seqNo, chunkMax, 0, i + 1);
    assert (i + 1) * chunkMax == i * chunkMax + chunkMax;
    assert i == 0 || i * chunkMax > 0;
    FragmentFields(raw, seqNo, chunkMax, i * chunkMax);
    FragmentFlags(raw, seqNo, chunkMax, i * chunkMax);
    var f := MakeFragment(raw, seqNo, chunkMax, i * chunkMax);
    WordIs(f[4], f[5]);
    WordIs(f[6], f[7]);
  }

  lemma FragmentFlags(raw: bytes, seqNo: byte, chunkMax: nat, offset: nat)
    requires offset < |raw|
    ensures var f := MakeFragment(raw, seqNo, chunkMax, offset);
      |f| >= 9 && f[0] == 0xA5 && f[1] == 0x5A
      && f[3] == (if offset == 0 then 1 else 0) + (if offset + ChunkLength(|raw|, chunkMax, offset) == |raw| then 2 else 0)
  {
  }

  // ---------------------------------------------------------------------------------------------
  // Emission

  /**
   `m` is `l` after trying to emit `frames`, of which the first `k` went out: into the TX queue as far
   as there is room, or to the adapter up to the first that is too long or that it refuses.
   */
  ghost predicate Emitted(l: Link, m: Link, ok: bool, frames: seq<bytes>, k: nat) {
    && k <= |frames| && (ok <==> k == |frames|)
    && m == l.(stats := m.stats, fragmentSeq := m.fragmentSeq, txQueue := m.txQueue, sent := m.sent, attempts := m.attempts)
    && (if l.cfg.enableTxQueue then
          && m.txQueue == l.txQueue + frames[..k] && m.sent == l.sent && m.attempts == l.attempts
          && (k > 0 ==> |m.txQueue| <= QUEUE_DEPTH) && (ok || |m.txQueue| >= QUEUE_DEPTH)
        else
          && m.txQueue == l.txQueue && m.sent == l.sent + frames[..k]
          && (forall i :: 0 <= i < k ==> Taken(l, frames[i], l.attempts + i))
          && (ok || !Taken(l, frames[k], l.attempts + k))
          && (ok ==> m.attempts == l.attempts + k))
  }

  lemma EmitOne(l: Link, raw: bytes) returns (k: nat)
    requires l.hasAdapter && l.cfg.Framed() && FitsRaw(l.max, raw)
    ensures var a := l.SendRaw(raw);
      Emitted(l, a.link, a.ok, [Frame(l.cfg, raw)], k) && a.link.fragmentSeq == l.fragmentSeq
      && a.link.stats.fragmentsSent == l.stats.fragmentsSent
  {
    hide Frame, Link.SendRaw;
    FramingSucceeds(l, raw);
    k := if l.SendRaw(raw).ok then 1 else 0;
    assert [Frame(l.cfg, raw)][..1] == [Frame(l.cfg, raw)];
  }

  lemma EmitMore(l: Link, m: Link, n: Link, frame: bytes, rest: seq<bytes>, ok: bool, k: nat)
    requires Emitted(l, m, true, [frame], 1) && Emitted(m, n, ok, rest, k)
    ensures Emitted(l, n, ok, [frame] + rest, k + 1)
  {
    hide Taken;
    var frames := [frame] + rest;
    assert frames[..k+1] == [frame] + rest[..k] && [frame][..1] == [frame];
    assert l.txQueue + [frame] + rest[..k] == l.txQueue + frames[..k+1];
    assert l.sent + [frame] + rest[..k] == l.sent + frames[..k+1];
    if !l.cfg.enableTxQueue {
      forall i | 0 <= i < k + 1 ensures Taken(l, frames[i], l.attempts + i) {
        if i > 0 {
          assert Taken(m, rest[i-1], m.attempts + (i - 1));
          TakenAlike(l, m, frames[i], l.attempts + i);
        } else {
          assert Taken(l, [frame][0], l.attempts + 0);
        }
      }
      if !ok {
        TakenAlike(l, m, frames[k+1], l.attempts + (k + 1));
      }
    }
  }

  lemma TakenAlike(l: Link, m: Link, frame: bytes, k: nat)
    requires m.hasAdapter == l.hasAdapter && m.cfg == l.cfg && m.accepts == l.accepts
    ensures Taken(l, frame, k) == Taken(m, frame, k)
  {
  }

  lemma {:induction false} EmitFragments(l: Link, raw: bytes, seqNo: byte, offset: nat) returns (k: nat)
    requires l.hasAdapter && l.cfg.Framed() && l.cfg.ChunkMax() > 0
    requires forall f :: f in Fragments(raw, seqNo, l.cfg.ChunkMax(), offset) ==> FitsRaw(l.max, f)
    ensures var a, frames := l.SendFragmentsFrom(raw, seqNo, l.cfg.ChunkMax(), offset), Fragments(raw, seqNo, l.cfg.ChunkMax(), offset);
      Emitted(l, a.link, a.ok, Frames(l.cfg, frames), k) && a.link.fragmentSeq == l.fragmentSeq
      && a.link.stats.fragmentsSent == l.stats.fragmentsSent + k
    decreases |raw| - offset
  {
    hide MakeFragment, FitsRaw, Frame, Link.SendRaw, Taken;
    var c := l.cfg.ChunkMax();
    var frames := Fragments(raw, seqNo, c, offset);
    if offset >= |raw| {
      k := 0;
    } else {
      var f, next := frames[0], offset + ChunkLength(|raw|, c, offset);
      var rest := Fragments(raw, seqNo, c, next);
      assert Frames(l.cfg, frames) == [Frame(l.cfg, f)] + Frames(l.cfg, rest);
      k := EmitOne(l, f);
      var a := l.SendRaw(f);
      if a.ok {
        var m := a.link.(stats := a.link.stats.(fragmentsSent := a.link.stats.fragmentsSent + 1));
        var j := EmitFragments(m, raw, seqNo, next);
        var b := m.SendFragmentsFrom(raw, seqNo, c, next);
        EmitMore(l, m, b.link, Frame(l.cfg, f), Frames(l.cfg, rest), b.ok, j);
        k := j + 1;
      } else {
      }
    }
  }

  /**
   A send emits the frames of its plan, in order, as far as they are taken, and reports success when
   all of them went out. The fragments among them are counted.
   */
  lemma SendEmits(l: Link, p: bytes) returns (k: nat)
    requires l.hasAdapter && l.cfg.Framed() && 0 < |p| <= l.max && HasRoom(l.cfg, p)
    ensures var a, plan := l.Send(p), Plan(l.cfg, l.fragmentSeq, p);
      Emitted(l, a.link, a.ok, Frames(l.cfg, plan), k) && a.link.fragmentSeq == NextSeq(l.cfg, l.fragmentSeq, p)
      && a.link.stats.fragmentsSent == l.stats.fragmentsSent + if NeedsSplit(l.cfg, p) then k else 0
  {
    hide MakeFragment, FitsRaw, Frame, Link.SendRaw, RawFrame, Fragments;
    PlanFits(l.max, l.cfg, l.fragmentSeq, p);
    ExtractRawFrame(l.max, l.cfg, p);
    Decides(l.cfg, p);
    var raw := RawFrame(l.cfg, p);
    if l.cfg.ShouldFragment(|raw|) {
      var seqNo := (l.fragmentSeq + 1) % 256;
      k := EmitFragments(l.(fragmentSeq := seqNo), raw, seqNo, 0);
    } else {
      assert raw in Plan(l.cfg, l.fragmentSeq, p);
      assert Frames(l.cfg, [raw]) == [Frame(l.cfg, raw)];
      k := EmitOne(l, raw);
    }
  }

  /** Without room for data in a fragment, nothing is sent. */
  lemma NoRoomNoSend(l: Link, p: bytes)
    requires l.hasAdapter && l.cfg.Framed() && 0 < |p| <= l.max && !HasRoom(l.cfg, p)
    ensures l.Send(p) == Attempt(l.(stats := l.stats.(txErrors := l.stats.txErrors + 1)), false)
  {
  }

  lemma PlanFramesFit(max: nat, cfg: Config, seqNo: byte, p: bytes)
    requires Sendable(max, cfg) && 0 < |p| <= max
    ensures forall f :: f in Frames(cfg, Plan(cfg, seqNo, p)) ==>
      0 < |f| <= FrameCapacity(max) && (cfg.physicalFrameLimit > 0 ==> |f| <= cfg.physicalFrameLimit)
  {
    hide Frame, Encode;
    var plan := Plan(cfg, seqNo, p);
    PlanWithinLimits(max, cfg, seqNo, p);
    forall f | f in Frames(cfg, plan)
      ensures 0 < |f| <= FrameCapacity(max) && (cfg.physicalFrameLimit > 0 ==> |f| <= cfg.physicalFrameLimit)
    {
      var i :| 0 <= i < |plan| && f == Frame(cfg, plan[i]);
      assert WithinLimits(max, cfg, plan[i]);
      EncodedFits(max, plan[i]);
      FrameSize(cfg, plan[i]);
      EncodedSize(plan[i]);
    }
  }

  lemma ValidHasRoom(max: nat, cfg: Config, p: bytes)
    requires Sendable(max, cfg)
    ensures HasRoom(cfg, p)
  {
  }

  /** Every frame that a send hands to the adapter or to the TX queue fits the buffers and the limit. */
  lemma LimitKept(l: Link, p: bytes)
    requires l.hasAdapter && Sendable(l.max, l.cfg) && 0 < |p| <= l.max
    ensures var m := l.Send(p).link;
      && l.sent <= m.sent && l.txQueue <= m.txQueue
      && forall f :: f in m.sent[|l.sent|..] || f in m.txQueue[|l.txQueue|..] ==>
           0 < |f| <= FrameCapacity(l.max) && (l.cfg.physicalFrameLimit > 0 ==> |f| <= l.cfg.physicalFrameLimit)
  {
    hide Link.Send, Plan, Frame, HasRoom, Taken;
    ValidHasRoom(l.max, l.cfg, p);
    var k := SendEmits(l, p);
    PlanFramesFit(l.max, l.cfg, l.fragmentSeq, p);
    var out := Frames(l.cfg, Plan(l.cfg, l.fragmentSeq, p))[..k];
    assert (l.sent + out)[|l.sent|..] == out && (l.txQueue + out)[|l.txQueue|..] == out;
    assert l.sent[|l.sent|..] == [] && l.txQueue[|l.txQueue|..] == [];
  }

  // ---------------------------------------------------------------------------------------------
  // What reaches the wire, under any limit

  /** The raw frames up to the first one that exceeds the limit. */
  function Passing(cfg: Config, raws: seq<bytes>): seq<bytes> {
    if raws == [] || !Passes(cfg, raws[0]) then [] else [raws[0]] + Passing(cfg, raws[1..])
  }

  predicate AllPass(cfg: Config, raws: seq<bytes>) {
    forall raw :: raw in raws ==> Passes(cfg, raw)
  }

  lemma {:induction false} PassingPrefix(cfg: Config, raws: seq<bytes>, k: nat)
    requires k <= |raws| && (forall i :: 0 <= i < k ==> Passes(cfg, raws[i]))
    requires k < |raws| ==> !Passes(cfg, raws[k])
    ensures Passing(cfg, raws) == raws[..k]
    ensures k == |raws| <==> AllPass(cfg, raws)
    decreases |raws|
  {
    hide Passes;
    if k > 0 {
      PassingPrefix(cfg, raws[1..], k - 1);
      assert raws[..k] == [raws[0]] + raws[1..][..k-1];
    }
  }

  lemma {:induction false} PassingIsPrefix(cfg: Config, raws: seq<bytes>) returns (k: nat)
    ensures k <= |raws| && Passing(cfg, raws) == raws[..k] && (k == |raws| <==> AllPass(cfg, raws))
    decreases |raws|
  {
    hide Passes;
    if raws == [] || !Passes(cfg, raws[0]) {
      k := 0;
    } else {
      var j := PassingIsPrefix(cfg, raws[1..]);
      k := j + 1;
      assert raws[..k] == [raws[0]] + raws[1..][..j];
    }
  }

  /** The raw frames of a send that reach the wire when the adapter takes all it is given. */
  function Wire(cfg: Config, seqNo: byte, p: bytes): seq<bytes> {
    Passing(cfg, Plan(cfg, seqNo, p))
  }

  lemma TakenIffPasses(l: Link, raw: bytes, k: nat)
    requires l.hasAdapter && l.cfg.Framed() && raw != [] && l.accepts(k)
    ensures Taken(l, Frame(l.cfg, raw), k) <==> Passes(l.cfg, raw)
  {
    hide Frame;
    FrameSize(l.cfg, raw);
  }

  lemma EmittedPassing(l: Link, m: Link, ok: bool, raws: seq<bytes>, k: nat)
    requires l.hasAdapter && l.cfg.Framed() && !l.cfg.enableTxQueue && (forall i: nat :: l.accepts(i))
    requires Emitted(l, m, ok, Frames(l.cfg, raws), k) && forall raw :: raw in raws ==> raw != []
    ensures m.sent == l.sent + Frames(l.cfg, Passing(l.cfg, raws)) && (ok <==> AllPass(l.cfg, raws))
  {
    hide Taken, Passes, Frame;
    forall i | 0 <= i < |raws| ensures Taken(l, Frame(l.cfg, raws[i]), l.attempts + i) <==> Passes(l.cfg, raws[i]) {
      assert raws[i] in raws;
      TakenIffPasses(l, raws[i], l.attempts + i);
    }
    forall i | 0 <= i < k ensures Passes(l.cfg, raws[i]) {
      assert Taken(l, Frames(l.cfg, raws)[i], l.attempts + i);
    }
    PassingPrefix(l.cfg, raws, k);
  }

  /**
   Over an adapter that takes all it is given, a send puts on the wire the frames of its plan up to the
   first one that exceeds the limit, and succeeds exactly if none does.
   */
  lemma DirectSend(l: Link, p: bytes)
    requires l.hasAdapter && l.cfg.Framed() && !l.cfg.enableTxQueue && (forall i: nat :: l.accepts(i))
    requires 0 < |p| <= l.max
    ensures var a := l.Send(p);
      && a.link.sent == l.sent + Frames(l.cfg, Wire(l.cfg, l.fragmentSeq, p))
      && (a.ok <==> HasRoom(l.cfg, p) && AllPass(l.cfg, Plan(l.cfg, l.fragmentSeq, p)))
      && a.link.fragmentSeq == NextSeq(l.cfg, l.fragmentSeq, p)
      && a.link == l.(stats := a.link.stats, fragmentSeq := a.link.fragmentSeq, sent := a.link.sent, attempts := a.link.attempts)
  {
    hide Link.Send, Frame, Taken, Fragments, RawFrame, AllPass, Passes;
    if HasRoom(l.cfg, p) {
      hide Plan;
      PlanFits(l.max, l.cfg, l.fragmentSeq, p);
      var k := SendEmits(l, p);
      EmittedPassing(l, l.Send(p).link, l.Send(p).ok, Plan(l.cfg, l.fragmentSeq, p), k);
    } else {
      NoRoomNoSend(l, p);
      assert l.sent + [] == l.sent;
    }
  }

  // ---------------------------------------------------------------------------------------------
  // Which payloads are carried

  /**
   A payload sent whole must keep to the limit. One that is split needs fragments with room for data,
   with a chunk length that fits its byte, and within the limit each.
   */
  predicate Carried(cfg: Config, seqNo: byte, p: bytes) {
    if GoesWhole(cfg, p) then Passes(cfg, RawFrame(cfg, p))
    else
      && 12 <= cfg.physicalFrameLimit <= 266
      && AllPass(cfg, Fragments(RawFrame(cfg, p), (seqNo + 1) % 256, cfg.physicalFrameLimit - 11, 0))
  }

  lemma {:induction false} FollowersRefused(l: Link, raw: bytes, seqNo: byte, chunkMax: nat, offset: nat, k: nat)
    requires chunkMax > 0 && 0 < offset && 0 < |raw| <= 0xFFFF && l.asm == IDLE
    requires k <= |Fragments(raw, seqNo, chunkMax, offset)|
    ensures DeliverAll(l, Fragments(raw, seqNo, chunkMax, offset)[..k]).delivered == l.delivered
    decreases |raw| - offset
  {
    hide MakeFragment, IsFragment, Link.DeliverRaw;
    if k > 0 {
      var frames, next := Fragments(raw, seqNo, chunkMax, offset), offset + ChunkLength(|raw|, chunkMax, offset);
      FragmentHeader(raw, seqNo, chunkMax, offset);
      FragmentDelivered(l, frames[0]);
      assert frames[..k][1..] == Fragments(raw, seqNo, chunkMax, next)[..k-1];
      FollowersRefused(l.DeliverRaw(frames[0]), raw, seqNo, chunkMax, next, k - 1);
    }
  }

  /** With a chunk length that does not fit its byte, the first fragment is refused, and with it the others. */
  lemma LongChunksRefused(l: Link, raw: bytes, seqNo: byte, chunkMax: nat, k: nat)
    requires 0xFF < chunkMax < |raw| <= 0xFFFF && k <= |Fragments(raw, seqNo, chunkMax, 0)|
    ensures DeliverAll(l, Fragments(raw, seqNo, chunkMax, 0)[..k]).delivered == l.delivered
  {
    hide MakeFragment, IsFragment, Link.DeliverRaw;
    if k > 0 {
      var frames := Fragments(raw, seqNo, chunkMax, 0);
      FragmentHeader(raw, seqNo, chunkMax, 0);
      assert Judge(RawCapacity(l.max), l.asm, frames[0]) == Refused;
      FragmentDelivered(l, frames[0]);
      assert frames[..k][1..] == Fragments(raw, seqNo, chunkMax, chunkMax)[..k-1];
      FollowersRefused(l.DeliverRaw(frames[0]), raw, seqNo, chunkMax, chunkMax, k - 1);
    }
  }

  /** Without the last fragment nothing is delivered. */
  lemma {:induction false} PartIsSilent(l: Link, raw: bytes, seqNo: byte, chunkMax: nat, offset: nat, k: nat)
    requires Fragmentable(raw, chunkMax) && |raw| <= RawCapacity(l.max)
    requires k < |Fragments(raw, seqNo, chunkMax, offset)|
    requires offset != 0 ==> Holds(l.asm, raw, seqNo, offset)
    ensures DeliverAll(l, Fragments(raw, seqNo, chunkMax, offset)[..k]).delivered == l.delivered
    decreases |raw| - offset
  {
    hide MakeFragment, IsFragment, Link.DeliverRaw;
    if k > 0 {
      var frames, next := Fragments(raw, seqNo, chunkMax, offset), offset + ChunkLength(|raw|, chunkMax, offset);
      JudgeFragment(RawCapacity(l.max), l.asm, raw, seqNo, chunkMax, offset);
      FragmentDelivered(l, frames[0]);
      assert frames[..k][1..] == Fragments(raw, seqNo, chunkMax, next)[..k-1];
      PartIsSilent(l.DeliverRaw(frames[0]), raw, seqNo, chunkMax, next, k - 1);
    }
  }

  lemma SplitCarried(r: Link, cfg: Config, seqNo: byte, p: bytes)
    requires cfg.Framed() && Sized(r.max) && SameWire(cfg, r.cfg) && Acceptable(r.max, cfg, p)
    requires NeedsSplit(cfg, p)
    ensures DeliverAll(r, Wire(cfg, seqNo, p)).delivered == r.delivered + if Carried(cfg, seqNo, p) then [p] else []
  {
    hide RawFrame, IsFragment, Link.DeliverRaw, Fragments, Passes, AllPass;
    var raw, c := RawFrame(cfg, p), cfg.physicalFrameLimit - 11;
    ExtractRawFrame(r.max, cfg, p);
    SameRawFrame(cfg, r.cfg, p);
    var frames := Fragments(raw, (seqNo + 1) % 256, c, 0);
    var k := PassingIsPrefix(cfg, frames);
    if c > 0xFF {
      LongChunksRefused(r, raw, (seqNo + 1) % 256, c, k);
    } else if k < |frames| {
      PartIsSilent(r, raw, (seqNo + 1) % 256, c, 0, k);
    } else {
      SplitArrives(r, p, (seqNo + 1) % 256, c);
      assert frames[..k] == frames;
    }
    assert r.delivered + [] == r.delivered;
  }

  /** What reaches the wire of one send delivers its payload, once, if it is carried, and nothing otherwise. */
  lemma WireArrives(r: Link, cfg: Config, seqNo: byte, p: bytes)
    requires cfg.Framed() && Sized(r.max) && SameWire(cfg, r.cfg) && Acceptable(r.max, cfg, p)
    ensures DeliverAll(r, Wire(cfg, seqNo, p)).delivered == r.delivered + if Carried(cfg, seqNo, p) then [p] else []
  {
    hide RawFrame, IsFragment, Link.DeliverRaw, Passes;
    if NeedsSplit(cfg, p) {
      SplitCarried(r, cfg, seqNo, p);
    } else {
      var raw := RawFrame(cfg, p);
      SameRawFrame(cfg, r.cfg, p);
      WholeArrives(r, p);
      assert [raw] + Passing(cfg, []) == [raw];
      assert DeliverAll(r, [raw]) == r.DeliverRaw(raw);
      assert r.delivered + [] == r.delivered;
    }
  }

  /** Under a valid limit every payload is carried, and all of its plan reaches the wire. */
  lemma ValidCarries(max: nat, cfg: Config, seqNo: byte, p: bytes)
    requires Sendable(max, cfg) && 0 < |p| <= max
    ensures Carried(cfg, seqNo, p) && Wire(cfg, seqNo, p) == Plan(cfg, seqNo, p)
  {
    hide RawFrame, Fragments, Passes;
    PlanWithinLimits(max, cfg, seqNo, p);
    var plan := Plan(cfg, seqNo, p);
    assert forall i :: 0 <= i < |plan| ==> plan[i] in plan;
    PassingPrefix(cfg, plan, |plan|);
    assert plan[..|plan|] == plan;
    assert GoesWhole(cfg, p) ==> RawFrame(cfg, p) in plan;
  }

  // ---------------------------------------------------------------------------------------------
  // A payload that is not carried

  lemma {:induction false} FullBlocksOfTail(a: bytes, b: bytes)
    ensures FullBlocks(a + [0] + b) >= FullBlocks(b)
    decreases |a|
  {
    hide RunLength;
    var s := a + [0] + b;
    var r := RunLength(s, |s|);
    assert s[|a|] == 0;
    if r < |a| {
      assert s[r+1..] == a[r+1..] + [0] + b;
      FullBlocksOfTail(a[r+1..], b);
    } else {
      assert s[r+1..] == b;
    }
  }

  lemma ZeroFreeBlock(s: bytes)
    requires |s| == FULL_BLOCK && ZeroFree(s)
    ensures FullBlocks(s) == 1
  {
    RunLengthIs(s, |s|, |s|);
  }

  /**
   With COBS, chunk lengths that fit their byte are not enough: the chunk-length byte 253 and 253 bytes
   without a zero make a full block, whose second code byte takes the fragment beyond a limit of 264.
   */
  lemma FullBlockRefused(l: Link, p: bytes)
    requires l.hasAdapter && l.max == 261 && l.cfg == Config(true, true, false, 264, false, false)
    requires p == seq(261, _ => 1)
    ensures !Carried(l.cfg, l.fragmentSeq, p)
    ensures !l.Send(p).ok && l.Send(p).link.sent == l.sent
  {
    hide Link.Send, Taken, Frame;
    var k := SendEmits(l, p);
    FirstFragmentTooLong(l.cfg, l.fragmentSeq, p);
    var plan := Plan(l.cfg, l.fragmentSeq, p);
    FrameSize(l.cfg, plan[0]);
    if k > 0 {
      assert Taken(l, Frames(l.cfg, plan)[0], l.attempts + 0);
      TakenWithinLimit(l, Frame(l.cfg, plan[0]), l.attempts + 0);
      assert false;
    }
    assert l.sent + Frames(l.cfg, plan)[..0] == l.sent;
  }

  lemma TakenWithinLimit(l: Link, frame: bytes, k: nat)
    ensures Taken(l, frame, k) ==> l.cfg.physicalFrameLimit == 0 || |frame| <= l.cfg.physicalFrameLimit
  {
  }

  lemma FirstFragmentTooLong(cfg: Config, seqNo: byte, p: bytes)
    requires cfg == Config(true, true, false, 264, false, false) && p == seq(261, _ => 1)
    ensures var plan := Plan(cfg, seqNo, p); plan != [] && WireSize(cfg, plan[0]) > 264
    ensures HasRoom(cfg, p) && !Carried(cfg, seqNo, p)
  {
    hide FullBlocks;
    var raw := RawFrame(cfg, p);
    var plan := Plan(cfg, seqNo, p);
    var f := MakeFragment(raw, (seqNo + 1) % 256, 253, 0);
    assert plan[0] == f && f in plan;
    assert |f| == 262 && f[7] == 0 && f[8] == 253;
    assert f == f[..7] + [0] + f[8..];
    FullBlocksOfTail(f[..7], f[8..]);
    ZeroFreeBlock(f[8..]);
  }
}
