/** End-to-end statements about a sending and a receiving link. */
module LinkTheorems {
  import opened Bytes
  import opened Cobs
  import opened LinkModel
  import opened LinkFrames
  import opened Reassembly
  import opened LinkSender

  // ---------------------------------------------------------------------------------------------
  // A sender's whole output

  /** Sends made one after the other, whatever each of them reports. */
  function SendAll(l: Link, payloads: seq<bytes>): Link
    decreases |payloads|
  {
    if payloads == [] then l else SendAll(l.Send(payloads[0]).link, payloads[1..])
  }

  /** The frames that the adapter is given for these sends. */
  function Output(l: Link, payloads: seq<bytes>): seq<bytes> {
    SendAll(l.(sent := []), payloads).sent
  }

  /** The raw frames of these sends that reach the wire when the adapter takes all it is given. */
  function WireAll(cfg: Config, seqNo: byte, payloads: seq<bytes>): seq<bytes>
    decreases |payloads|
  {
    if payloads == [] then []
    else Wire(cfg, seqNo, payloads[0]) + WireAll(cfg, NextSeq(cfg, seqNo, payloads[0]), payloads[1..])
  }

  /** The adapter takes every frame at once. */
  ghost predicate Lossless(l: Link) {
    l.hasAdapter && !l.cfg.enableTxQueue && forall k: nat :: l.accepts(k)
  }

  predicate AllFit(max: nat, payloads: seq<bytes>) {
    forall p :: p in payloads ==> 0 < |p| <= max
  }

  predicate AllAcceptable(max: nat, cfg: Config, payloads: seq<bytes>) {
    forall p :: p in payloads ==> Acceptable(max, cfg, p)
  }

  lemma AcceptableFit(max: nat, cfg: Config, payloads: seq<bytes>)
    requires AllAcceptable(max, cfg, payloads)
    ensures AllFit(max, payloads)
  {
    forall p | p in payloads ensures 0 < |p| <= max {
      assert Acceptable(max, cfg, p);
    }
  }

  lemma WireFits(max: nat, cfg: Config, seqNo: byte, p: bytes)
    requires cfg.Framed() && 0 < |p| <= max
    ensures forall raw :: raw in Wire(cfg, seqNo, p) ==> raw in Plan(cfg, seqNo, p) && FitsRaw(max, raw)
  {
    hide Plan, FitsRaw;
    PlanFits(max, cfg, seqNo, p);
    var k := PassingIsPrefix(cfg, Plan(cfg, seqNo, p));
  }

  /** Over a lossless adapter, sends one after the other put exactly these frames on the wire. */
  lemma {:induction false} SendAllEmits(l: Link, payloads: seq<bytes>)
    requires Lossless(l) && l.cfg.Framed() && AllFit(l.max, payloads)
    ensures var m := SendAll(l, payloads);
      && m.sent == l.sent + Frames(l.cfg, WireAll(l.cfg, l.fragmentSeq, payloads))
      && m == l.(stats := m.stats, fragmentSeq := m.fragmentSeq, sent := m.sent, attempts := m.attempts)
    ensures forall raw :: raw in WireAll(l.cfg, l.fragmentSeq, payloads) ==> FitsRaw(l.max, raw)
    decreases |payloads|
  {
    hide Link.Send, Wire, Plan, Frame, NextSeq, HasRoom, AllPass, FitsRaw;
    if payloads == [] {
      assert l.sent + [] == l.sent;
    } else {
      var p, rest := payloads[0], payloads[1..];
      WireFits(l.max, l.cfg, l.fragmentSeq, p);
      DirectSend(l, p);
      var m := l.Send(p).link;
      SendAllEmits(m, rest);
      var first, tail := Wire(l.cfg, l.fragmentSeq, p), WireAll(l.cfg, m.fragmentSeq, rest);
      AppendTwice(l.sent, m.sent, Frames(l.cfg, first), Frames(l.cfg, tail));
    }
  }

  lemma OutputIs(l: Link, payloads: seq<bytes>)
    requires Lossless(l) && l.cfg.Framed() && AllFit(l.max, payloads)
    ensures Output(l, payloads) == Frames(l.cfg, WireAll(l.cfg, l.fragmentSeq, payloads))
  {
    hide Link.Send, Wire, Frame;
    SendAllEmits(l.(sent := []), payloads);
  }

  // ---------------------------------------------------------------------------------------------
  // What arrives of a whole stream

  lemma {:induction false} DeliverAllKeeps(r: Link, raws: seq<bytes>)
    ensures var m := DeliverAll(r, raws); m.max == r.max && m.cfg == r.cfg
    decreases |raws|
  {
    hide Link.DeliverRaw;
    if raws != [] {
      Delivers(r, raws[0]);
      DeliverAllKeeps(r.DeliverRaw(raws[0]), raws[1..]);
    }
  }

  /** The payloads that their sender's configuration carries, in order. */
  function CarriedOnly(cfg: Config, seqNo: byte, payloads: seq<bytes>): seq<bytes>
    decreases |payloads|
  {
    if payloads == [] then []
    else (if Carried(cfg, seqNo, payloads[0]) then [payloads[0]] else [])
         + CarriedOnly(cfg, NextSeq(cfg, seqNo, payloads[0]), payloads[1..])
  }

  lemma {:induction false} WireAllArrives(r: Link, cfg: Config, seqNo: byte, payloads: seq<bytes>)
    requires cfg.Framed() && Sized(r.max) && SameWire(cfg, r.cfg) && AllAcceptable(r.max, cfg, payloads)
    ensures DeliverAll(r, WireAll(cfg, seqNo, payloads)).delivered == r.delivered + CarriedOnly(cfg, seqNo, payloads)
    decreases |payloads|
  {
    hide Wire, NextSeq, Acceptable, Carried;
    if payloads == [] {
      assert r.delivered + [] == r.delivered;
    } else {
      var p, rest := payloads[0], payloads[1..];
      var next := NextSeq(cfg, seqNo, p);
      var m := DeliverAll(r, Wire(cfg, seqNo, p));
      DeliverAllConcat(r, Wire(cfg, seqNo, p), WireAll(cfg, next, rest));
      WireArrives(r, cfg, seqNo, p);
      DeliverAllKeeps(r, Wire(cfg, seqNo, p));
      WireAllArrives(m, cfg, next, rest);
      AppendTwice(r.delivered, m.delivered, if Carried(cfg, seqNo, p) then [p] else [], CarriedOnly(cfg, next, rest));
    }
  }

  lemma SameFrames(a: Config, b: Config, raws: seq<bytes>)
    requires SameWire(a, b)
    ensures Frames(a, raws) == Frames(b, raws)
  {
  }

  lemma OutputReceived(s: Link, r: Link, payloads: seq<bytes>)
    requires Lossless(s) && s.cfg.Framed() && Sized(s.max) && AllFit(s.max, payloads)
    requires r.max == s.max && SameWire(s.cfg, r.cfg) && Between(r)
    ensures var m := r.OnBytes(Flatten(Output(s, payloads)));
      m == DeliverAll(r, WireAll(s.cfg, s.fragmentSeq, payloads)) && Between(m)
  {
    hide Frame, Wire, Link.DeliverRaw, FitsRaw, Output, Link.OnBytes, Link.Send;
    var raws := WireAll(s.cfg, s.fragmentSeq, payloads);
    SendAllEmits(s, payloads);
    OutputIs(s, payloads);
    SameFrames(s.cfg, r.cfg, raws);
    StreamReceived(r, raws);
  }

  /**
   Under any frame limit: the concatenated bytes of all sends, fed one at a time to a receiver between
   frames, deliver exactly the carried payloads, in order, and leave it between frames.
   */
  lemma StreamDelivers(s: Link, r: Link, payloads: seq<bytes>)
    requires Lossless(s) && s.cfg.Framed() && Sized(s.max) && AllAcceptable(s.max, s.cfg, payloads)
    requires r.max == s.max && SameWire(s.cfg, r.cfg) && Between(r)
    ensures var m := r.OnBytes(Flatten(Output(s, payloads)));
      m.delivered == r.delivered + CarriedOnly(s.cfg, s.fragmentSeq, payloads) && Between(m)
  {
    hide Wire, Carried, Link.DeliverRaw;
    AcceptableFit(s.max, s.cfg, payloads);
    OutputReceived(s, r, payloads);
    WireAllArrives(r, s.cfg, s.fragmentSeq, payloads);
  }

  lemma {:induction false} AllCarried(max: nat, cfg: Config, seqNo: byte, payloads: seq<bytes>)
    requires Sendable(max, cfg) && AllFit(max, payloads)
    ensures CarriedOnly(cfg, seqNo, payloads) == payloads
    decreases |payloads|
  {
    hide Carried, Wire, Plan, NextSeq;
    if payloads != [] {
      ValidCarries(max, cfg, seqNo, payloads[0]);
      AllCarried(max, cfg, NextSeq(cfg, seqNo, payloads[0]), payloads[1..]);
    }
  }

  /** Under a valid limit everything that is sent arrives. */
  lemma StreamRoundTrip(s: Link, r: Link, payloads: seq<bytes>)
    requires Lossless(s) && Sendable(s.max, s.cfg) && AllAcceptable(s.max, s.cfg, payloads)
    requires r.max == s.max && SameWire(s.cfg, r.cfg) && Between(r)
    ensures var m := r.OnBytes(Flatten(Output(s, payloads)));
      m.delivered == r.delivered + payloads && Between(m)
  {
    hide ValidLimit;
    AcceptableFit(s.max, s.cfg, payloads);
    StreamDelivers(s, r, payloads);
    AllCarried(s.max, s.cfg, s.fragmentSeq, payloads);
  }

  /**
   Which payloads arrive, under any framing and any frame limit: exactly those whose raw frame does not
   look like a fragment and that the sender's configuration carries. Of an acceptable payload nothing
   but itself arrives.
   */
  lemma PayloadArrivesIff(s: Link, r: Link, p: bytes)
    requires Lossless(s) && s.cfg.Framed() && Sized(s.max) && 0 < |p| <= s.max
    requires r.max == s.max && SameWire(s.cfg, r.cfg) && Between(r)
    ensures var m := r.OnBytes(Flatten(Output(s, [p])));
      && r.delivered <= m.delivered && Between(m)
      && (p in m.delivered[|r.delivered|..] <==> !IsFragment(RawFrame(s.cfg, p)) && Carried(s.cfg, s.fragmentSeq, p))
      && (!IsFragment(RawFrame(s.cfg, p)) ==>
           m.delivered == r.delivered + if Carried(s.cfg, s.fragmentSeq, p) then [p] else [])
  {
    hide RawFrame, IsFragment, Carried, Output, Link.OnBytes;
    OutputReceived(s, r, [p]);
    SameRawFrame(s.cfg, r.cfg, p);
    var bs := Flatten(Output(s, [p]));
    if IsFragment(RawFrame(s.cfg, p)) {
      LookalikeNeverArrives(r, bs, p);
    } else {
      StreamDelivers(s, r, [p]);
      assert CarriedOnly(s.cfg, s.fragmentSeq, [p]) == if Carried(s.cfg, s.fragmentSeq, p) then [p] else [];
      assert (r.delivered + [p])[|r.delivered|..] == [p];
    }
  }

  // ---------------------------------------------------------------------------------------------
  // Safety on a bad channel

  function TransmissionOf(cfg: Config, seqNo: byte, p: bytes): Transmission {
    if NeedsSplit(cfg, p) then Split(p, (seqNo + 1) % 256) else Whole(p)
  }

  function LogOf(cfg: Config, seqNo: byte, payloads: seq<bytes>): seq<Transmission>
    decreases |payloads|
  {
    if payloads == [] then []
    else [TransmissionOf(cfg, seqNo, payloads[0])] + LogOf(cfg, NextSeq(cfg, seqNo, payloads[0]), payloads[1..])
  }

  /** How many of the payloads need more than one frame. */
  function Splits(cfg: Config, payloads: seq<bytes>): nat {
    if payloads == [] then 0
    else (if NeedsSplit(cfg, payloads[0]) then 1 else 0) + Splits(cfg, payloads[1..])
  }

  /** The numbers given out lie within `Splits` steps after the last one used. */
  lemma {:induction false} LogNumbers(cfg: Config, seqNo: byte, payloads: seq<bytes>, j: nat) returns (step: nat)
    requires j < |LogOf(cfg, seqNo, payloads)| && LogOf(cfg, seqNo, payloads)[j].Split?
    ensures 0 < step <= Splits(cfg, payloads) && LogOf(cfg, seqNo, payloads)[j].seqNo == (seqNo + step) % 256
    decreases |payloads|
  {
    hide NeedsSplit;
    var p := payloads[0];
    if j == 0 {
      step := 1;
    } else {
      step := LogNumbers(cfg, NextSeq(cfg, seqNo, p), payloads[1..], j - 1);
      if NeedsSplit(cfg, p) {
        step := step + 1;
      }
    }
  }

  lemma {:induction false} LogDistinct(cfg: Config, seqNo: byte, payloads: seq<bytes>, i: nat, j: nat)
    requires Splits(cfg, payloads) <= 256
    requires var log := LogOf(cfg, seqNo, payloads); i < j < |log| && log[i].Split? && log[j].Split?
    ensures var log := LogOf(cfg, seqNo, payloads); log[i].seqNo != log[j].seqNo
    decreases |payloads|
  {
    hide NeedsSplit;
    var next := NextSeq(cfg, seqNo, payloads[0]);
    if i == 0 {
      var step := LogNumbers(cfg, next, payloads[1..], j - 1);
    } else {
      LogDistinct(cfg, next, payloads[1..], i - 1, j - 1);
    }
  }

  lemma {:induction false} LogEntries(max: nat, cfg: Config, seqNo: byte, payloads: seq<bytes>)
    requires Sendable(max, cfg) && AllAcceptable(max, cfg, payloads)
    ensures var log := LogOf(cfg, seqNo, payloads);
      forall t :: t in log ==>
        && t.payload in payloads && Acceptable(max, cfg, t.payload)
        && (t.Split? ==> cfg.ChunkMax() > 0 && Fragmentable(RawFrame(cfg, t.payload), cfg.ChunkMax()))
    decreases |payloads|
  {
    hide RawFrame, IsFragment;
    if payloads != [] {
      assert Acceptable(max, cfg, payloads[0]);
      ExtractRawFrame(max, cfg, payloads[0]);
      LogEntries(max, cfg, NextSeq(cfg, seqNo, payloads[0]), payloads[1..]);
    }
  }

  /** Up to 256 split sends leave no number ambiguous. */
  lemma FewSplitsUnambiguous(cfg: Config, seqNo: byte, payloads: seq<bytes>)
    requires Splits(cfg, payloads) <= 256
    ensures Unambiguous(cfg, LogOf(cfg, seqNo, payloads))
  {
    hide RawFrame, LogOf, Splits;
    var log := LogOf(cfg, seqNo, payloads);
    forall t, u | t in log && u in log && t.Split? && u.Split? && t.seqNo == u.seqNo ensures t == u {
      var i :| 0 <= i < |log| && log[i] == t;
      var j :| 0 <= j < |log| && log[j] == u;
      if i < j {
        LogDistinct(cfg, seqNo, payloads, i, j);
      } else if j < i {
        LogDistinct(cfg, seqNo, payloads, j, i);
      }
    }
  }

  /** The frames on the wire are those of the log. */
  lemma {:induction false} WireLogged(cfg: Config, seqNo: byte, payloads: seq<bytes>, raw: bytes) returns (t: Transmission)
    requires cfg.Framed() && raw in WireAll(cfg, seqNo, payloads)
    ensures t in LogOf(cfg, seqNo, payloads) && raw in FramesOf(cfg, t)
    decreases |payloads|
  {
    hide RawFrame, Fragments, Passes;
    if raw in Wire(cfg, seqNo, payloads[0]) {
      t := TransmissionOf(cfg, seqNo, payloads[0]);
      var k := PassingIsPrefix(cfg, Plan(cfg, seqNo, payloads[0]));
    } else {
      t := WireLogged(cfg, NextSeq(cfg, seqNo, payloads[0]), payloads[1..], raw);
    }
  }

  lemma {:induction false} LoggedOnWire(max: nat, cfg: Config, seqNo: byte, payloads: seq<bytes>, t: Transmission, raw: bytes)
    requires Sendable(max, cfg) && AllFit(max, payloads)
    requires t in LogOf(cfg, seqNo, payloads) && raw in FramesOf(cfg, t)
    ensures raw in WireAll(cfg, seqNo, payloads)
    decreases |payloads|
  {
    hide RawFrame, Fragments, Carried;
    var p := payloads[0];
    ValidCarries(max, cfg, seqNo, p);
    if t == TransmissionOf(cfg, seqNo, p) {
      assert raw in Plan(cfg, seqNo, p);
    } else {
      hide Wire;
      LoggedOnWire(max, cfg, NextSeq(cfg, seqNo, p), payloads[1..], t, raw);
    }
  }

  /** The raw frames behind frames drawn from a list, in the order in which they were drawn. */
  lemma {:induction false} DrawnFrom(cfg: Config, plan: seq<bytes>, channel: seq<bytes>) returns (raws: seq<bytes>)
    requires forall f :: f in channel ==> f in Frames(cfg, plan)
    ensures Frames(cfg, raws) == channel && forall raw :: raw in raws ==> raw in plan
  {
    hide Frame;
    if channel == [] {
      raws := [];
    } else {
      assert channel[0] in Frames(cfg, plan);
      var i :| 0 <= i < |plan| && Frames(cfg, plan)[i] == channel[0];
      var rest := DrawnFrom(cfg, plan, channel[1..]);
      raws := [plan[i]] + rest;
      assert channel == [channel[0]] + channel[1..];
    }
  }

  /** Any selection of the frames that these sends put on the wire: lost, repeated and reordered at will. */
  ghost predicate Drawn(channel: seq<bytes>, s: Link, payloads: seq<bytes>) {
    forall f :: f in channel ==> f in Output(s, payloads)
  }

  /** A sender and a receiver in a state to begin with. */
  ghost predicate Connected(s: Link, r: Link) {
    && Lossless(s) && Sendable(s.max, s.cfg)
    && r.max == s.max && SameWire(s.cfg, r.cfg) && Between(r) && r.asm == IDLE
  }

  /**
   Every payload that a receiver delivers was sent whole, or all its fragments were sent under one
   number, if not all for the same payload.
   */
  lemma BadChannelDelivers(s: Link, r: Link, payloads: seq<bytes>, channel: seq<bytes>) returns (arrived: seq<bytes>)
    requires Connected(s, r) && AllAcceptable(s.max, s.cfg, payloads) && Drawn(channel, s, payloads)
    requires NoLookalikes(s.cfg, LogOf(s.cfg, s.fragmentSeq, payloads))
    ensures r.OnBytes(Flatten(channel)).delivered == r.delivered + arrived
    ensures forall p :: p in arrived ==> Deliverable(s.cfg, LogOf(s.cfg, s.fragmentSeq, payloads), p)
  {
    hide Frame, Wire, Acceptable, LogOf, Deliverable, NoLookalikes, Link.DeliverRaw, FitsRaw, ValidLimit;
    var raws := WireAll(s.cfg, s.fragmentSeq, payloads);
    AcceptableFit(s.max, s.cfg, payloads);
    SendAllEmits(s.(sent := []), payloads);
    var drawn := DrawnFrom(s.cfg, raws, channel);
    SameFrames(s.cfg, r.cfg, drawn);
    StreamReceived(r, drawn);
    var log := LogOf(s.cfg, s.fragmentSeq, payloads);
    LogEntries(s.max, s.cfg, s.fragmentSeq, payloads);
    forall raw | raw in drawn ensures Logged(s.cfg, log, raw) {
      var t := WireLogged(s.cfg, s.fragmentSeq, payloads, raw);
    }
    arrived := Safety(r, s.cfg, log, drawn);
  }

  /** Conversely, some selection of frames delivers any such payload. */
  lemma BadChannelCanDeliver(s: Link, r: Link, payloads: seq<bytes>, p: bytes) returns (channel: seq<bytes>)
    requires Connected(s, r) && AllAcceptable(s.max, s.cfg, payloads)
    requires Deliverable(s.cfg, LogOf(s.cfg, s.fragmentSeq, payloads), p)
    ensures Drawn(channel, s, payloads) && r.OnBytes(Flatten(channel)).delivered == r.delivered + [p]
  {
    hide Frame, Wire, LogOf, Deliverable, Link.DeliverRaw, RawFrame, IsFragment, FramesOf;
    var log, raws := LogOf(s.cfg, s.fragmentSeq, payloads), WireAll(s.cfg, s.fragmentSeq, payloads);
    AcceptableFit(s.max, s.cfg, payloads);
    SendAllEmits(s.(sent := []), payloads);
    LogEntries(s.max, s.cfg, s.fragmentSeq, payloads);
    DeliverableAcceptable(s.max, s.cfg, log, p);
    var frames := DeliverableArrives(r, s.cfg, log, p);
    forall f | f in frames ensures f in raws {
      var t :| t in log && f in FramesOf(s.cfg, t);
      LoggedOnWire(s.max, s.cfg, s.fragmentSeq, payloads, t, f);
    }
    channel := Frames(s.cfg, frames);
    DrawnFrames(s.cfg, frames, raws);
    SameFrames(s.cfg, r.cfg, frames);
    StreamReceived(r, frames);
  }

  lemma DrawnFrames(cfg: Config, frames: seq<bytes>, raws: seq<bytes>)
    requires forall f :: f in frames ==> f in raws
    ensures forall f :: f in Frames(cfg, frames) ==> f in Frames(cfg, raws)
  {
    hide Frame;
    forall f | f in Frames(cfg, frames) ensures f in Frames(cfg, raws) {
      var i :| 0 <= i < |frames| && f == Frame(cfg, frames[i]);
      assert frames[i] in raws;
      var j :| 0 <= j < |raws| && raws[j] == frames[i];
      assert Frames(cfg, raws)[j] == f;
    }
  }

  ghost predicate OnlySent(r: Link, channel: seq<bytes>, payloads: seq<bytes>) {
    var m := r.OnBytes(Flatten(channel));
    r.delivered <= m.delivered && forall p :: p in m.delivered[|r.delivered|..] ==> p in payloads
  }

  /** Whatever the channel does to the frames of these sends, nothing is delivered that was not sent. */
  ghost predicate Safe(s: Link, r: Link, payloads: seq<bytes>) {
    forall channel :: Drawn(channel, s, payloads) ==> OnlySent(r, channel, payloads)
  }

  lemma ArrivedOnlySent(r: Link, channel: seq<bytes>, payloads: seq<bytes>, arrived: seq<bytes>)
    requires r.OnBytes(Flatten(channel)).delivered == r.delivered + arrived
    ensures OnlySent(r, channel, payloads) <==> forall p :: p in arrived ==> p in payloads
  {
    assert (r.delivered + arrived)[|r.delivered|..] == arrived;
  }

  /**
   On a channel that loses, repeats and reorders whole frames at will, a receiver delivers nothing but
   payloads that were sent, as long as no two different ones of one length were split under one number.
   */
  lemma BadChannelSafety(s: Link, r: Link, payloads: seq<bytes>)
    requires Connected(s, r) && AllAcceptable(s.max, s.cfg, payloads)
    requires Unambiguous(s.cfg, LogOf(s.cfg, s.fragmentSeq, payloads))
    ensures Safe(s, r, payloads)
  {
    hide LogOf, Unambiguous, Deliverable, NoLookalikes, Drawn, Connected, AllAcceptable, OnlySent, Log;
    var log := LogOf(s.cfg, s.fragmentSeq, payloads);
    LogHolds(s, r, payloads);
    UnambiguousSafe(s.max, s.cfg, log);
    forall channel | Drawn(channel, s, payloads) ensures OnlySent(r, channel, payloads) {
      var arrived := BadChannelDelivers(s, r, payloads, channel);
      ArrivedOnlySent(r, channel, payloads, arrived);
    }
  }

  lemma LogHolds(s: Link, r: Link, payloads: seq<bytes>)
    requires Connected(s, r) && AllAcceptable(s.max, s.cfg, payloads)
    ensures Log(s.max, s.cfg, LogOf(s.cfg, s.fragmentSeq, payloads))
    ensures forall t :: t in LogOf(s.cfg, s.fragmentSeq, payloads) ==> t.payload in payloads
  {
    hide LogOf, Acceptable, RawFrame;
    LogEntries(s.max, s.cfg, s.fragmentSeq, payloads);
  }

  /** So up to 256 split sends are safe, whatever their contents. */
  lemma FewSplitsSafe(s: Link, r: Link, payloads: seq<bytes>)
    requires Connected(s, r) && AllAcceptable(s.max, s.cfg, payloads) && Splits(s.cfg, payloads) <= 256
    ensures Safe(s, r, payloads)
  {
    hide LogOf, Splits, Unambiguous, Safe, Connected, AllAcceptable;
    FewSplitsUnambiguous(s.cfg, s.fragmentSeq, payloads);
    BadChannelSafety(s, r, payloads);
  }

  /** Every payload that can be woven from fragments of one number and length was itself sent. */
  ghost predicate Harmless(s: Link, payloads: seq<bytes>) {
    forall p :: Deliverable(s.cfg, LogOf(s.cfg, s.fragmentSeq, payloads), p) ==> p in payloads
  }

  /**
   Exactly when sends are safe on a bad channel: when what can be woven from their fragments is harmless.
   Only chunks of a single byte, under a limit of 12, can be woven into a frame that would itself be taken
   for a fragment, which must then be ruled out as well.
   */
  lemma SafeIff(s: Link, r: Link, payloads: seq<bytes>)
    requires Connected(s, r) && AllAcceptable(s.max, s.cfg, payloads)
    ensures s.cfg.ChunkMax() != 1 ==> (Safe(s, r, payloads) <==> Harmless(s, payloads))
    ensures Safe(s, r, payloads) ==> Harmless(s, payloads)
    ensures Harmless(s, payloads) && NoLookalikes(s.cfg, LogOf(s.cfg, s.fragmentSeq, payloads)) ==> Safe(s, r, payloads)
  {
    hide LogOf, Deliverable, NoLookalikes, Drawn, Connected, AllAcceptable, OnlySent, Log;
    var log := LogOf(s.cfg, s.fragmentSeq, payloads);
    LogHolds(s, r, payloads);
    if s.cfg.ChunkMax() != 1 {
      WideChunksSafe(s.max, s.cfg, log);
    }
    forall p | Deliverable(s.cfg, log, p) && Safe(s, r, payloads) ensures p in payloads {
      var channel := BadChannelCanDeliver(s, r, payloads, p);
      ArrivedOnlySent(r, channel, payloads, [p]);
      assert p in [p];
    }
    forall channel | Drawn(channel, s, payloads) && Harmless(s, payloads) && NoLookalikes(s.cfg, log)
      ensures OnlySent(r, channel, payloads)
    {
      var arrived := BadChannelDelivers(s, r, payloads, channel);
      ArrivedOnlySent(r, channel, payloads, arrived);
    }
  }

  // ---------------------------------------------------------------------------------------------
  // One split send too many

  lemma {:induction false} SplitsConcat(cfg: Config, a: seq<bytes>, b: seq<bytes>)
    ensures Splits(cfg, a + b) == Splits(cfg, a) + Splits(cfg, b)
  {
    hide NeedsSplit;
    if a == [] {
      assert a + b == b;
    } else {
      assert (a + b)[1..] == a[1..] + b;
      SplitsConcat(cfg, a[1..], b);
    }
  }

  /** The last number used after these sends. */
  function LastSeq(cfg: Config, seqNo: byte, payloads: seq<bytes>): byte
    decreases |payloads|
  {
    if payloads == [] then seqNo else LastSeq(cfg, NextSeq(cfg, seqNo, payloads[0]), payloads[1..])
  }

  lemma {:induction false} LastSeqIs(cfg: Config, seqNo: byte, payloads: seq<bytes>)
    ensures LastSeq(cfg, seqNo, payloads) == (seqNo + Splits(cfg, payloads)) % 256
    decreases |payloads|
  {
    hide NeedsSplit;
    if payloads != [] {
      LastSeqIs(cfg, NextSeq(cfg, seqNo, payloads[0]), payloads[1..]);
    }
  }

  lemma {:induction false} LogConcat(cfg: Config, seqNo: byte, a: seq<bytes>, b: seq<bytes>)
    ensures LogOf(cfg, seqNo, a + b) == LogOf(cfg, seqNo, a) + LogOf(cfg, LastSeq(cfg, seqNo, a), b)
    decreases |a|
  {
    hide NextSeq, TransmissionOf;
    if a == [] {
      assert a + b == b;
    } else {
      assert (a + b)[1..] == a[1..] + b;
      LogConcat(cfg, NextSeq(cfg, seqNo, a[0]), a[1..], b);
    }
  }

  /** The number of the first split send comes round again with the 257th. */
  lemma NumberComesRound(cfg: Config, seqNo: byte, p: bytes, middle: seq<bytes>, q: bytes)
    requires NeedsSplit(cfg, p) && NeedsSplit(cfg, q) && Splits(cfg, middle) == 255
    ensures var payloads := [p] + middle + [q];
      var log := LogOf(cfg, seqNo, payloads);
      && Splits(cfg, payloads) == 257
      && Split(p, (seqNo + 1) % 256) in log && Split(q, (seqNo + 1) % 256) in log
  {
    hide NeedsSplit;
    SplitsConcat(cfg, [p], middle + [q]);
    SplitsConcat(cfg, middle, [q]);
    LogConcat(cfg, seqNo, [p], middle + [q]);
    LogConcat(cfg, (seqNo + 1) % 256, middle, [q]);
    LastSeqIs(cfg, seqNo, [p]);
    LastSeqIs(cfg, (seqNo + 1) % 256, middle);
    assert [p] + middle + [q] == [p] + (middle + [q]);
    assert Splits(cfg, [p]) == 1 && Splits(cfg, [q]) == 1;
    assert LogOf(cfg, seqNo, [p]) == [Split(p, (seqNo + 1) % 256)];
    assert LogOf(cfg, (seqNo + 256) % 256, [q]) == [Split(q, (seqNo + 1) % 256)];
    var tail := LogOf(cfg, (seqNo + 1) % 256, middle) + [Split(q, (seqNo + 1) % 256)];
    assert tail[|tail|-1] == Split(q, (seqNo + 1) % 256);
  }

  /**
   The 257th split send is one too many: if it has the length of the first, a channel that loses the
   rest of that one and the beginning of this one delivers a payload made of both. Where a frame check
   is used, it must match the mixture.
   */
  lemma ReusedNumberMixes(s: Link, r: Link, p: bytes, middle: seq<bytes>, q: bytes, mix: bytes)
    returns (channel: seq<bytes>)
    requires var payloads := [p] + middle + [q];
      Connected(s, r) && AllAcceptable(s.max, s.cfg, payloads) && Splits(s.cfg, middle) == 255 && mix !in payloads
    requires NeedsSplit(s.cfg, p) && |p| == |q|
    requires var c, raw, other := s.cfg.ChunkMax(), RawFrame(s.cfg, p), RawFrame(s.cfg, q);
      0 < c < |raw| == |other| && RawFrame(s.cfg, mix) == raw[..c] + other[c..] && !IsFragment(RawFrame(s.cfg, mix))
    ensures var payloads := [p] + middle + [q];
      && Splits(s.cfg, payloads) == 257 && Drawn(channel, s, payloads)
      && r.OnBytes(Flatten(channel)).delivered == r.delivered + [mix] && !Safe(s, r, payloads)
  {
    hide LogOf, NoLookalikes, Drawn, Connected, AllAcceptable, OnlySent, Log, RawFrame, IsFragment, Splits;
    var payloads := [p] + middle + [q];
    var log := LogOf(s.cfg, s.fragmentSeq, payloads);
    LogHolds(s, r, payloads);
    NumberComesRound(s.cfg, s.fragmentSeq, p, middle, q);
    MixedIsWoven(s.max, s.cfg, log, Split(p, (s.fragmentSeq + 1) % 256), Split(q, (s.fragmentSeq + 1) % 256), RawFrame(s.cfg, mix));
    channel := BadChannelCanDeliver(s, r, payloads, mix);
    ArrivedOnlySent(r, channel, payloads, [mix]);
    assert mix in [mix];
  }

  lemma {:induction false} CopiesSplit(cfg: Config, p: bytes, n: nat)
    requires NeedsSplit(cfg, p)
    ensures Splits(cfg, seq(n, _ => p)) == n
  {
    if n > 0 {
      assert seq(n, _ => p)[1..] == seq(n - 1, _ => p);
      CopiesSplit(cfg, p, n - 1);
    }
  }

  /** In the CAN FD configuration this takes no more than one payload of 63 ones and 256 of 63 twos. */
  lemma BoundIsTight(s: Link, r: Link, p: bytes, q: bytes) returns (channel: seq<bytes>)
    requires Connected(s, r) && s.cfg == FOR_CAN_FD && s.max >= 63
    requires p == seq(63, _ => 1) && q == seq(63, _ => 2)
    ensures var payloads := [p] + seq(255, _ => q) + [q];
      && AllAcceptable(s.max, s.cfg, payloads) && Splits(s.cfg, payloads) == 257 && Drawn(channel, s, payloads)
      && r.OnBytes(Flatten(channel)).delivered == r.delivered + [seq(63, i => if i < 53 then 1 else 2)]
      && !Safe(s, r, payloads)
  {
    var mix: bytes := seq(63, i => if i < 53 then 1 else 2);
    CopiesSplit(s.cfg, q, 255);
    var payloads := [p] + seq(255, _ => q) + [q];
    assert forall x :: x in payloads ==> x == p || x == q;
    assert p[53] == 1 && q[0] == 2 && mix[0] == 1 && mix[53] == 2;
    assert mix == p[..53] + q[53..];
    hide Connected, Splits, Safe, Drawn, Link.OnBytes;
    channel := ReusedNumberMixes(s, r, p, seq(255, _ => q), q, mix);
  }

  // ---------------------------------------------------------------------------------------------
  // Resynchronisation

  /** A delimiter ends whatever was being received, except that a first one is stored. */
  lemma AfterDelimiter(l: Link)
    requires l.cfg.useCobs
    ensures l.OnRawByte(0).rx == if l.rx == [] then [0] else []
    ensures l.OnRawByte(0).cfg == l.cfg && l.OnRawByte(0).max == l.max
  {
  }

  lemma FrameLost(l: Link, raw: bytes)
    requires l.cfg.useCobs && l.rx == [0] && FitsRaw(l.max, raw)
    ensures l.OnBytes(Encode(raw) + [0]) == l.(rx := [], stats := l.stats.(framingErrors := l.stats.framingErrors + 1))
  {
    var x := Encode(raw);
    EncodeNonEmpty(raw);
    EncodedFits(l.max, raw);
    CobsFill(l, x);
    OnBytesLast(l, x, 0);
    assert ([0] + x)[0] == 0;
  }

  lemma {:induction false} OnBytesKeeps(l: Link, s: bytes)
    ensures l.OnBytes(s).cfg == l.cfg && l.OnBytes(s).max == l.max
    decreases |s|
  {
    if s != [] {
      OnByteKeeps(l, s[0]);
      OnBytesKeeps(l.OnRawByte(s[0]), s[1..]);
    }
  }

  lemma OnByteKeeps(l: Link, b: byte)
    ensures l.OnRawByte(b).cfg == l.cfg && l.OnRawByte(b).max == l.max
  {
  }

  lemma {:induction false} WholesArrive(l: Link, raws: seq<bytes>, payloads: seq<bytes>)
    requires |raws| == |payloads| && AllAcceptable(l.max, l.cfg, payloads)
    requires forall i :: 0 <= i < |raws| ==> raws[i] == RawFrame(l.cfg, payloads[i])
    ensures DeliverAll(l, raws).delivered == l.delivered + payloads
    decreases |raws|
  {
    hide Link.DeliverRaw, RawFrame, Acceptable;
    if raws != [] {
      WholeArrives(l, payloads[0]);
      Delivers(l, raws[0]);
      WholesArrive(l.DeliverRaw(raws[0]), raws[1..], payloads[1..]);
      assert payloads == [payloads[0]] + payloads[1..];
    }
  }

  lemma RawFramesFit(max: nat, cfg: Config, payloads: seq<bytes>)
    requires AllAcceptable(max, cfg, payloads)
    ensures forall raw :: raw in RawFrames(cfg, payloads) ==> FitsRaw(max, raw)
  {
    hide RawFrame, IsFragment;
    forall raw | raw in RawFrames(cfg, payloads) ensures FitsRaw(max, raw) {
      var i :| 0 <= i < |payloads| && raw == RawFrame(cfg, payloads[i]);
      assert Acceptable(max, cfg, payloads[i]);
      ExtractRawFrame(max, cfg, payloads[i]);
    }
  }

  function RawFrames(cfg: Config, payloads: seq<bytes>): seq<bytes> {
    seq(|payloads|, i requires 0 <= i < |payloads| => RawFrame(cfg, payloads[i]))
  }

  lemma FramesArrive(l: Link, payloads: seq<bytes>)
    requires l.cfg.useCobs && Sized(l.max) && Between(l) && AllAcceptable(l.max, l.cfg, payloads)
    ensures var m := l.OnBytes(Flatten(Frames(l.cfg, RawFrames(l.cfg, payloads))));
      m.delivered == l.delivered + payloads && Between(m)
  {
    hide RawFrame, Acceptable, Frame, FitsRaw;
    var raws := RawFrames(l.cfg, payloads);
    RawFramesFit(l.max, l.cfg, payloads);
    StreamReceived(l, raws);
    WholesArrive(l, raws, payloads);
  }

  lemma FirstFrameLost(l: Link, payloads: seq<bytes>)
    requires l.cfg.useCobs && Sized(l.max) && l.rx == [0]
    requires payloads != [] && AllAcceptable(l.max, l.cfg, payloads)
    ensures var m := l.OnBytes(Flatten(Frames(l.cfg, RawFrames(l.cfg, payloads))));
      m.delivered == l.delivered + payloads[1..] && Between(m)
  {
    hide RawFrame, Frame, FitsRaw, IsFragment;
    var raws := RawFrames(l.cfg, payloads);
    RawFramesFit(l.max, l.cfg, payloads);
    assert raws[0] in raws;
    var frames := Frames(l.cfg, raws);
    assert frames[1..] == Frames(l.cfg, raws[1..]) && raws[1..] == RawFrames(l.cfg, payloads[1..]);
    LostThenRest(l, raws[0], Flatten(frames[1..]));
    FramesArrive(l.(rx := [], stats := l.stats.(framingErrors := l.stats.framingErrors + 1)), payloads[1..]);
    assert Flatten(frames) == frames[0] + Flatten(frames[1..]);
  }

  lemma LostThenRest(l: Link, raw: bytes, rest: bytes)
    requires l.cfg.useCobs && l.rx == [0] && FitsRaw(l.max, raw)
    ensures l.OnBytes(Frame(l.cfg, raw) + rest)
      == l.(rx := [], stats := l.stats.(framingErrors := l.stats.framingErrors + 1)).OnBytes(rest)
  {
    FrameLost(l, raw);
    OnBytesConcat(l, Frame(l.cfg, raw), rest);
  }

  /**
   A COBS receiver finds its way back: whatever it was in the middle of, after any bytes and one
   delimiter, the frames that follow are all delivered, except for the first one if that delimiter
   found the buffer empty. Nothing else is delivered along with them.
   */
  lemma SelfStabilising(l: Link, noise: bytes, payloads: seq<bytes>)
    requires l.cfg.useCobs && Sized(l.max)
    requires AllAcceptable(l.max, l.cfg, payloads)
    ensures var before := l.OnBytes(noise);
      var m := l.OnBytes(noise + [0]);
      var end := m.OnBytes(Flatten(Frames(l.cfg, RawFrames(l.cfg, payloads))));
      && end.delivered == m.delivered + (if before.rx == [] && payloads != [] then payloads[1..] else payloads)
      && (before.rx != [] || payloads != [] ==> Between(end))
  {
    hide Acceptable, Frame, Link.OnRawByte;
    var before := l.OnBytes(noise);
    OnBytesKeeps(l, noise);
    OnBytesLast(l, noise, 0);
    AfterDelimiter(before);
    var m := before.OnRawByte(0);
    assert before.OnBytes([0]) == m.OnBytes([]) == m;
    if before.rx != [] {
      FramesArrive(m, payloads);
    } else if payloads != [] {
      FirstFrameLost(m, payloads);
    }
  }
}
