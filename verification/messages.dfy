/** User messages: their encoding as link payloads, the factories, and delivery from node to node. */
module Messages {
  import opened Bytes
  import opened LinkModel
  import opened LinkFrames
  import opened LinkInvariants
  import opened LinkSides
  import opened Reassembly
  import opened LinkSender
  import opened LinkTheorems
  import TxQueue

  const MAX_MESSAGE_PAYLOAD := 256
  const MESSAGE_HEADER_SIZE := 5
  const MAX_PAYLOAD := MAX_MESSAGE_PAYLOAD + MESSAGE_HEADER_SIZE
  const BROADCAST: byte := 0xFF

  const STATE_UPDATE: byte := 0x10
  const STATE_REQUEST: byte := 0x11
  const COMMAND_EXECUTE: byte := 0x20
  const COMMAND_RESPONSE: byte := 0x21

  /** `payload` stands for `payload[..payload_size]`. */
  datatype Message = Message(source: byte, dest: byte, kind: byte, payload: bytes)

  // ---------------------------------------------------------------------------------------------
  // Encoding

  function Encode(m: Message): Option<bytes> {
    if |m.payload| > MAX_MESSAGE_PAYLOAD then None
    else Some([m.source, m.dest, m.kind, HiByte(|m.payload|), LoByte(|m.payload|)] + m.payload)
  }

  function Parse(data: bytes): Option<Message> {
    if |data| < MESSAGE_HEADER_SIZE then None
    else
      var n := Word(data[3], data[4]);
      if n + MESSAGE_HEADER_SIZE != |data| || n > MAX_MESSAGE_PAYLOAD then None
      else Some(Message(data[0], data[1], data[2], data[MESSAGE_HEADER_SIZE..]))
  }

  lemma ParseOfEncoding(m: Message)
    requires |m.payload| <= MAX_MESSAGE_PAYLOAD
    ensures Parse(Encode(m).value) == Some(m)
  {
    hide HiByte, LoByte, Word;
    WordOfBytes(|m.payload|);
    assert Encode(m).value[MESSAGE_HEADER_SIZE..] == m.payload;
  }

  lemma EncodingOfParse(data: bytes)
    requires Parse(data).Some?
    ensures Encode(Parse(data).value) == Some(data)
  {
    hide HiByte, LoByte, Word;
    BytesOfWord(data[3], data[4]);
    assert data == [data[0], data[1], data[2], data[3], data[4]] + data[MESSAGE_HEADER_SIZE..];
  }

  /** The bytes of an encoded message: the two ids, the type, the size with the high byte first, the payload. */
  lemma EncodingLayout(m: Message)
    requires |m.payload| <= 256
    ensures Encode(m).Some?
    ensures var data := Encode(m).value;
      && |data| == |m.payload| + 5 && data[0] == m.source && data[1] == m.dest && data[2] == m.kind
      && (data[3] as nat) * 256 + data[4] == |m.payload| && data[5..] == m.payload
  {
    hide HiByte, LoByte;
    WordOfBytes(|m.payload|);
  }

  /** Byte strings that parse are the encodings of what they parse to, and of nothing else. */
  lemma ParseInvertsEncode(data: bytes, m: Message)
    ensures Encode(m) == Some(data) <==> Parse(data) == Some(m)
  {
    hide Parse;
    if Encode(m).Some? {
      ParseOfEncoding(m);
    }
    if Parse(data).Some? {
      EncodingOfParse(data);
    }
  }

  // ---------------------------------------------------------------------------------------------
  // Factories

  function Clamped(data: bytes, n: nat): bytes {
    if |data| > n then data[..n] else data
  }

  function StateUpdate(source: byte, dest: byte, data: bytes): Message {
    Message(source, dest, STATE_UPDATE, Clamped(data, MAX_MESSAGE_PAYLOAD))
  }

  function StateRequest(source: byte, dest: byte, data: bytes): Message {
    Message(source, dest, STATE_REQUEST, Clamped(data, MAX_MESSAGE_PAYLOAD))
  }

  function Command(source: byte, dest: byte, data: bytes): Message {
    Message(source, dest, COMMAND_EXECUTE, Clamped(data, MAX_MESSAGE_PAYLOAD))
  }

  /** One byte of status, then the data; when they exceed a message, its last byte is given up too. */
  function CommandResponse(source: byte, dest: byte, status: byte, data: bytes): Message {
    var size := if |data| + 1 > MAX_MESSAGE_PAYLOAD then MAX_MESSAGE_PAYLOAD - 1 else |data| + 1;
    Message(source, dest, COMMAND_RESPONSE, [status] + data[..size-1])
  }

  /** As much of `data` as fits `n` bytes. */
  predicate Fills(p: bytes, data: bytes, n: nat) {
    p <= data && |p| == if |data| <= n then |data| else n
  }

  /** What the factories make: the two ids, the type, as much data as fits; and it can be encoded. */
  lemma FactoryFields(source: byte, dest: byte, data: bytes)
    ensures var m := StateUpdate(source, dest, data);
      m.source == source && m.dest == dest && m.kind == 0x10 && Fills(m.payload, data, 256) && Encode(m).Some?
    ensures var m := StateRequest(source, dest, data);
      m.source == source && m.dest == dest && m.kind == 0x11 && Fills(m.payload, data, 256) && Encode(m).Some?
    ensures var m := Command(source, dest, data);
      m.source == source && m.dest == dest && m.kind == 0x20 && Fills(m.payload, data, 256) && Encode(m).Some?
  {
  }

  /**
   A command response carries the status and, behind it, all of the handler's data if and only if there
   are at most 255 bytes of it. Of more it carries 254: one less than of 255.
   */
  lemma ResponseCarries(source: byte, dest: byte, status: byte, data: bytes)
    ensures var m := CommandResponse(source, dest, status, data);
      && m.source == source && m.dest == dest && m.kind == 0x21 && Encode(m).Some?
      && m.payload == [status] + data[..if |data| <= 255 then |data| else 254]
      && (m.payload[1..] == data <==> |data| <= 255)
  {
    var k := if |data| <= 255 then |data| else 254;
    assert ([status] + data[..k])[1..] == data[..k];
  }

  // ---------------------------------------------------------------------------------------------
  // A node

  /** What an application may register: a message callback, a state handler and a command handler. */
  datatype Handlers = Handlers(
    callback: bool,
    state: Option<(byte, bytes) -> bytes>,
    command: Option<(byte, bytes) -> (byte, bytes)>)

  /** The answer that a node's handlers give to a message. */
  function Answer(id: byte, h: Handlers, m: Message): Option<Message> {
    if m.kind == STATE_REQUEST && h.state.Some? then
      var data := h.state.value(m.source, m.payload);
      if data == [] then None else Some(StateUpdate(id, m.source, data))
    else if m.kind == COMMAND_EXECUTE && h.command.Some? then
      var (status, data) := h.command.value(m.source, m.payload);
      Some(CommandResponse(id, m.source, status, data))
    else None
  }

  /** The requests that handlers answer: for state, if there is any, and for the execution of a command. */
  predicate Answerable(h: Handlers, m: Message) {
    || (m.kind == 0x11 && h.state.Some? && h.state.value(m.source, m.payload) != [])
    || (m.kind == 0x20 && h.command.Some?)
  }

  /**
   `r` answers `m`: it goes from this node to the one that asked, as a state update with what the state
   handler returned, or as a command response with the command handler's status and data.
   */
  predicate Replies(id: byte, h: Handlers, m: Message, r: Message) {
    && r.source == id && r.dest == m.source
    && (m.kind == 0x11 && h.state.Some? ==> r.kind == 0x10 && Fills(r.payload, h.state.value(m.source, m.payload), 256))
    && (m.kind == 0x20 && h.command.Some? ==>
         var (status, data) := h.command.value(m.source, m.payload);
         r.kind == 0x21 && r.payload == [status] + data[..if |data| <= 255 then |data| else 254])
  }

  /** Handlers answer exactly the requests they can, and answer them properly. */
  lemma AnswerIff(id: byte, h: Handlers, m: Message)
    ensures Answer(id, h, m).Some? <==> Answerable(h, m)
    ensures Answer(id, h, m).Some? ==> Replies(id, h, m, Answer(id, h, m).value) && Encode(Answer(id, h, m).value).Some?
  {
  }

  /** A `CANCommunication` or `UARTCommunication`; `inbox` are the calls of its message callback. */
  datatype Node = Node(id: byte, handlers: Handlers, link: Link, inbox: seq<Message>) {

    function Send(m: Message): Node {
      match Encode(m)
      case None => this
      case Some(data) => this.(link := link.Send(data).link)
    }

    function Incoming(m: Message): Node {
      if m.dest != BROADCAST && m.dest != id then this
      else
        var n := if handlers.callback then this.(inbox := inbox + [m]) else this;
        match Answer(id, handlers, m)
        case None => n
        case Some(answer) => n.Send(answer)
    }

    function Payload(data: bytes): Node {
      match Parse(data)
      case None => this
      case Some(m) => Incoming(m)
    }

    function Payloads(ps: seq<bytes>): Node
      decreases |ps|
    {
      if ps == [] then this else Payload(ps[0]).Payloads(ps[1..])
    }

    /** The link has gone on to `l`; the callback handles the payloads that it was passed on the way. */
    function Follow(l: Link): Node {
      this.(link := l).Payloads(Added(link.handed, l.handed))
    }

    function OnBytes(bs: bytes): Node
      decreases |bs|
    {
      if bs == [] then this else Follow(link.OnRawByte(bs[0])).OnBytes(bs[1..])
    }

    /**
     One poll, during which the adapter hands over the bytes `polled`: what the link's turn consists of,
     with every payload handled, and answered, where the link passes it on.
     */
    function Poll(polled: bytes): Node {
      var n := if link.hasAdapter then OnBytes(polled) else this;
      var k := n.(link := n.link.FlushTx().link);
      k.Follow(k.link.DrainRx())
    }

    function Polls(chunks: seq<bytes>): Node
      decreases |chunks|
    {
      if chunks == [] then this else Poll(chunks[0]).Polls(chunks[1..])
    }

    function SendMessages(ms: seq<Message>): Node
      decreases |ms|
    {
      if ms == [] then this else Send(ms[0]).SendMessages(ms[1..])
    }
  }

  // ---------------------------------------------------------------------------------------------
  // Which messages arrive

  /** The link payload of a message that fits. */
  function PayloadBytes(m: Message): bytes
    requires |m.payload| <= MAX_MESSAGE_PAYLOAD
  {
    Encode(m).value
  }

  /** The raw frame of a message would be taken for a fragment. */
  predicate LooksLikeFragment(cfg: Config, m: Message) {
    m.source == 0xA5 && m.dest == 0x5A && |m.payload| + 5 + (if cfg.useCrc then 2 else 0) >= 9
  }

  lemma FragmentLookalikes(cfg: Config, m: Message)
    requires |m.payload| <= MAX_MESSAGE_PAYLOAD
    ensures IsFragment(RawFrame(cfg, PayloadBytes(m))) <==> LooksLikeFragment(cfg, m)
    ensures Acceptable(MAX_PAYLOAD, cfg, PayloadBytes(m)) <==> !LooksLikeFragment(cfg, m)
    ensures LooksLikeFragment(cfg, m) ==> !HasEnd(RawFrame(cfg, PayloadBytes(m))[3])
  {
    var raw := RawFrame(cfg, PayloadBytes(m));
    assert raw[0] == m.source && raw[1] == m.dest && raw[3] == HiByte(|m.payload|);
  }

  /** A lookalike never ends a raw frame, so that nothing is delivered because of it. */
  lemma LookalikeLost(l: Link, raw: bytes)
    requires IsFragment(raw) && !HasEnd(raw[3])
    ensures l.DeliverRaw(raw).delivered == l.delivered
  {
    FragmentDelivered(l, raw);
  }

  lemma LookalikeSplit(r: Link, cfg: Config, seqNo: byte, p: bytes)
    requires Sendable(r.max, cfg) && 0 < |p| <= r.max
    requires NeedsSplit(cfg, p)
    requires IsFragment(RawFrame(cfg, p)) && !HasEnd(RawFrame(cfg, p)[3])
    ensures DeliverAll(r, Plan(cfg, seqNo, p)).delivered == r.delivered
  {
    hide RawFrame, IsFragment, Link.DeliverRaw;
    ExtractRawFrame(r.max, cfg, p);
    SplitRedelivers(r, RawFrame(cfg, p), (seqNo + 1) % 256, cfg.physicalFrameLimit - 11);
    LookalikeLost(Reassembled(r, |Plan(cfg, seqNo, p)|), RawFrame(cfg, p));
  }

  lemma LookalikeSent(r: Link, cfg: Config, seqNo: byte, p: bytes)
    requires Sendable(r.max, cfg) && 0 < |p| <= r.max
    requires IsFragment(RawFrame(cfg, p)) && !HasEnd(RawFrame(cfg, p)[3])
    ensures DeliverAll(r, Wire(cfg, seqNo, p)).delivered == r.delivered
  {
    hide RawFrame, IsFragment, Link.DeliverRaw, Carried, Wire;
    ValidCarries(r.max, cfg, seqNo, p);
    var raw := RawFrame(cfg, p);
    if NeedsSplit(cfg, p) {
      LookalikeSplit(r, cfg, seqNo, p);
    } else {
      assert DeliverAll(r, [raw]) == r.DeliverRaw(raw);
      LookalikeLost(r, raw);
    }
  }

  /** The messages that can be encoded and whose raw frames do not look like fragments. */
  function Deliverables(cfg: Config, ms: seq<Message>): seq<Message> {
    if ms == [] then []
    else (if |ms[0].payload| <= MAX_MESSAGE_PAYLOAD && !LooksLikeFragment(cfg, ms[0]) then [ms[0]] else [])
         + Deliverables(cfg, ms[1..])
  }

  /** The link payloads of the messages that can be encoded. */
  function Encodings(ms: seq<Message>): seq<bytes> {
    if ms == [] then []
    else (match Encode(ms[0]) case None => [] case Some(data) => [data]) + Encodings(ms[1..])
  }

  lemma {:induction false} EncodingsFit(ms: seq<Message>)
    ensures AllFit(MAX_PAYLOAD, Encodings(ms))
  {
    if ms != [] {
      EncodingsFit(ms[1..]);
    }
  }

  lemma {:induction false} DeliverablesFit(cfg: Config, ms: seq<Message>)
    ensures forall m :: m in Deliverables(cfg, ms) ==> |m.payload| <= MAX_MESSAGE_PAYLOAD
  {
    if ms != [] {
      DeliverablesFit(cfg, ms[1..]);
    }
  }

  lemma MessageArrives(r: Link, cfg: Config, seqNo: byte, m: Message)
    requires Sendable(r.max, cfg) && r.max == MAX_PAYLOAD && SameWire(cfg, r.cfg) && |m.payload| <= MAX_MESSAGE_PAYLOAD
    ensures DeliverAll(r, Wire(cfg, seqNo, PayloadBytes(m))).delivered
      == r.delivered + if LooksLikeFragment(cfg, m) then [] else [PayloadBytes(m)]
  {
    hide RawFrame, IsFragment, LooksLikeFragment, Carried, Wire, Link.DeliverRaw;
    FragmentLookalikes(cfg, m);
    if LooksLikeFragment(cfg, m) {
      LookalikeSent(r, cfg, seqNo, PayloadBytes(m));
      assert r.delivered + [] == r.delivered;
    } else {
      WireArrives(r, cfg, seqNo, PayloadBytes(m));
      ValidCarries(r.max, cfg, seqNo, PayloadBytes(m));
    }
  }

  lemma {:induction false} MessagesArrive(r: Link, cfg: Config, seqNo: byte, ms: seq<Message>)
    requires Sendable(r.max, cfg) && r.max == MAX_PAYLOAD && SameWire(cfg, r.cfg)
    ensures (forall m :: m in Deliverables(cfg, ms) ==> |m.payload| <= MAX_MESSAGE_PAYLOAD)
    ensures DeliverAll(r, WireAll(cfg, seqNo, Encodings(ms))).delivered == r.delivered + PayloadsOf(Deliverables(cfg, ms))
    decreases |ms|
  {
    hide Wire, NextSeq, Link.DeliverRaw, LooksLikeFragment, Encode, Sendable, Deliverables, Encodings, PayloadsOf, WireAll;
    DeliverablesFit(cfg, ms);
    if ms == [] {
      NoMessages(cfg, seqNo);
      assert r.delivered + [] == r.delivered;
    } else {
      var m, rest := ms[0], ms[1..];
      FirstEncoding(ms);
      DeliverablesStep(cfg, ms);
      if |m.payload| <= MAX_MESSAGE_PAYLOAD {
        var p := PayloadBytes(m);
        var next := NextSeq(cfg, seqNo, p);
        var k := DeliverAll(r, Wire(cfg, seqNo, p));
        MessageArrives(r, cfg, seqNo, m);
        DeliverAllKeeps(r, Wire(cfg, seqNo, p));
        WireAllStep(cfg, seqNo, p, Encodings(rest));
        DeliverAllConcat(r, Wire(cfg, seqNo, p), WireAll(cfg, next, Encodings(rest)));
        MessagesArrive(k, cfg, next, rest);
        AppendTwice(r.delivered, k.delivered, if LooksLikeFragment(cfg, m) then [] else [p], PayloadsOf(Deliverables(cfg, rest)));
      } else {
        MessagesArrive(r, cfg, seqNo, rest);
        assert [] + PayloadsOf(Deliverables(cfg, rest)) == PayloadsOf(Deliverables(cfg, rest));
      }
    }
  }

  lemma NoMessages(cfg: Config, seqNo: byte)
    ensures WireAll(cfg, seqNo, Encodings([])) == [] && PayloadsOf(Deliverables(cfg, [])) == []
  {
  }

  lemma WireAllStep(cfg: Config, seqNo: byte, p: bytes, rest: seq<bytes>)
    ensures WireAll(cfg, seqNo, [p] + rest) == Wire(cfg, seqNo, p) + WireAll(cfg, NextSeq(cfg, seqNo, p), rest)
  {
    assert ([p] + rest)[1..] == rest;
  }

  lemma FirstEncoding(ms: seq<Message>)
    requires ms != []
    ensures if |ms[0].payload| > MAX_MESSAGE_PAYLOAD then Encodings(ms) == Encodings(ms[1..])
            else Encodings(ms) == [PayloadBytes(ms[0])] + Encodings(ms[1..])
  {
  }

  lemma DeliverablesStep(cfg: Config, ms: seq<Message>)
    requires ms != []
    requires forall m :: m in Deliverables(cfg, ms) ==> |m.payload| <= MAX_MESSAGE_PAYLOAD
    ensures forall m :: m in Deliverables(cfg, ms[1..]) ==> |m.payload| <= MAX_MESSAGE_PAYLOAD
    ensures PayloadsOf(Deliverables(cfg, ms)) ==
      (if |ms[0].payload| <= MAX_MESSAGE_PAYLOAD && !LooksLikeFragment(cfg, ms[0]) then [PayloadBytes(ms[0])] else [])
      + PayloadsOf(Deliverables(cfg, ms[1..]))
  {
    hide Encode, LooksLikeFragment;
    DeliverablesFit(cfg, ms[1..]);
  }

  /**
   A message that is sent arrives, once and whole, if and only if its raw frame does not look like a
   fragment; otherwise nothing arrives.
   */
  lemma ArrivesIff(s: Link, r: Link, m: Message)
    requires Lossless(s) && Sendable(s.max, s.cfg) && s.max == r.max == MAX_PAYLOAD
    requires SameWire(s.cfg, r.cfg) && Between(r) && |m.payload| <= MAX_MESSAGE_PAYLOAD
    ensures var bs := Flatten(Output(s, [PayloadBytes(m)]));
      r.OnBytes(bs).delivered == r.delivered + if LooksLikeFragment(s.cfg, m) then [] else [PayloadBytes(m)]
  {
    hide Wire, LooksLikeFragment, Link.OnBytes, Output, Link.DeliverRaw;
    OutputReceived(s, r, [PayloadBytes(m)]);
    assert WireAll(s.cfg, s.fragmentSeq, [PayloadBytes(m)]) == Wire(s.cfg, s.fragmentSeq, PayloadBytes(m));
    MessageArrives(r, s.cfg, s.fragmentSeq, m);
  }

  // ---------------------------------------------------------------------------------------------
  // From the link to the node

  /** The link passes payloads straight to its callback. */
  predicate Direct(l: Link) {
    l.hasCallback && !l.cfg.enableRxQueue
  }

  /** `m` is `l` after receiving, `d` having been delivered and handed over. */
  ghost predicate Hands(l: Link, m: Link, d: seq<bytes>) {
    m == l.(stats := m.stats, rx := m.rx, prefix := m.prefix, expected := m.expected, asm := m.asm,
            delivered := l.delivered + d, handed := l.handed + d)
  }

  lemma RawHands(l: Link, raw: bytes) returns (d: seq<bytes>)
    requires Direct(l)
    ensures Hands(l, l.DeliverRaw(raw), d) && l.DeliverRaw(raw).rx == l.rx
    ensures l.DeliverRaw(raw).prefix == l.prefix && l.DeliverRaw(raw).expected == l.expected
  {
    hide Accept;
    d := match Accept(l.max, l.cfg, l.asm, l.stats, raw).payload case None => [] case Some(p) => [p];
  }

  lemma ByteHands(l: Link, b: byte) returns (d: seq<bytes>)
    requires Direct(l)
    ensures Hands(l, l.OnRawByte(b), d)
  {
    hide Link.CobsByte, Link.PrefixedByte, Link.DeliverRaw, FrameOf;
    d := [];
    if l.cfg.Framed() {
      ByteIs(l, b);
      if FrameOf(l, b).Some? {
        d := RawHands(l, FrameOf(l, b).value);
      }
    } else {
      d := [[b]];
    }
  }

  lemma {:induction false} BytesHand(l: Link, bs: bytes) returns (d: seq<bytes>)
    requires Direct(l)
    ensures Hands(l, l.OnBytes(bs), d)
    decreases |bs|
  {
    hide Link.OnRawByte;
    if bs == [] {
      d := [];
    } else {
      var first := ByteHands(l, bs[0]);
      var rest := BytesHand(l.OnRawByte(bs[0]), bs[1..]);
      d := first + rest;
    }
  }

  // ---------------------------------------------------------------------------------------------
  // What a node makes of the payloads

  predicate AddressedTo(id: byte, m: Message) {
    m.dest == 0xFF || m.dest == id
  }

  function Addressed(id: byte, ms: seq<Message>): seq<Message> {
    if ms == [] then []
    else (if AddressedTo(id, ms[0]) then [ms[0]] else []) + Addressed(id, ms[1..])
  }

  function PayloadsOf(ms: seq<Message>): seq<bytes>
    requires forall m :: m in ms ==> |m.payload| <= MAX_MESSAGE_PAYLOAD
  {
    seq(|ms|, i requires 0 <= i < |ms| => PayloadBytes(ms[i]))
  }

  /** The messages among some payloads that are addressed to a node, or to all. */
  function Heard(id: byte, ps: seq<bytes>): seq<Message> {
    if ps == [] then []
    else (match Parse(ps[0]) case None => [] case Some(m) => if AddressedTo(id, m) then [m] else []) + Heard(id, ps[1..])
  }

  /** The answers of a node's handlers to some messages. */
  function Answers(id: byte, h: Handlers, ms: seq<Message>): seq<Message> {
    if ms == [] then []
    else (match Answer(id, h, ms[0]) case None => [] case Some(a) => [a]) + Answers(id, h, ms[1..])
  }

  lemma {:induction false} HeardOfMessages(id: byte, ms: seq<Message>)
    requires forall m :: m in ms ==> |m.payload| <= MAX_MESSAGE_PAYLOAD
    ensures Heard(id, PayloadsOf(ms)) == Addressed(id, ms)
  {
    hide Encode, Parse;
    if ms != [] {
      ParseOfEncoding(ms[0]);
      assert PayloadsOf(ms)[1..] == PayloadsOf(ms[1..]);
      HeardOfMessages(id, ms[1..]);
    }
  }

  lemma {:induction false} HeardConcat(id: byte, a: seq<bytes>, b: seq<bytes>)
    ensures Heard(id, a + b) == Heard(id, a) + Heard(id, b)
  {
    hide Parse;
    if a == [] {
      assert a + b == b;
    } else {
      assert (a + b)[1..] == a[1..] + b;
      HeardConcat(id, a[1..], b);
    }
  }

  lemma {:induction false} PayloadsConcat(n: Node, a: seq<bytes>, b: seq<bytes>)
    ensures n.Payloads(a + b) == n.Payloads(a).Payloads(b)
    decreases |a|
  {
    hide Node.Payload;
    if a == [] {
      assert a + b == b;
    } else {
      assert (a + b)[1..] == a[1..] + b;
      PayloadsConcat(n.Payload(a[0]), a[1..], b);
    }
  }

  /** The node has handled these messages: its callback was given them, and their answers were sent. */
  ghost predicate Handled(n: Node, k: Node, heard: seq<Message>) {
    k == n.(inbox := n.inbox + (if n.handlers.callback then heard else []),
            link := n.SendMessages(Answers(n.id, n.handlers, heard)).link)
  }

  lemma PayloadHandled(n: Node, p: bytes)
    ensures Handled(n, n.Payload(p), Heard(n.id, [p]))
  {
    hide Link.Send, Answer, Encode, Parse;
    assert n.inbox + [] == n.inbox;
    assert [p][1..] == [];
    if Parse(p).Some? && AddressedTo(n.id, Parse(p).value) {
      var m := Parse(p).value;
      assert Heard(n.id, [p]) == [m];
      SendsOne(n, m);
    }
  }

  lemma SendsOne(n: Node, m: Message)
    ensures n.SendMessages(Answers(n.id, n.handlers, [m])) ==
      match Answer(n.id, n.handlers, m) case None => n case Some(a) => n.Send(a)
  {
    hide Link.Send, Answer, Encode;
    assert [m][1..] == [];
  }

  lemma {:induction false} SendMessagesConcat(n: Node, a: seq<Message>, b: seq<Message>)
    ensures n.SendMessages(a + b) == n.SendMessages(a).SendMessages(b)
    decreases |a|
  {
    hide Node.Send;
    if a == [] {
      assert a + b == b;
    } else {
      assert (a + b)[1..] == a[1..] + b;
      SendMessagesConcat(n.Send(a[0]), a[1..], b);
    }
  }

  lemma {:induction false} AnswersConcat(id: byte, h: Handlers, a: seq<Message>, b: seq<Message>)
    ensures Answers(id, h, a + b) == Answers(id, h, a) + Answers(id, h, b)
  {
    hide Answer;
    if a == [] {
      assert a + b == b;
    } else {
      assert (a + b)[1..] == a[1..] + b;
      AnswersConcat(id, h, a[1..], b);
    }
  }

  /** Sending messages depends on the link only. */
  lemma {:induction false} SendMessagesLink(n: Node, k: Node, ms: seq<Message>)
    requires n.link == k.link
    ensures n.SendMessages(ms).link == k.SendMessages(ms).link
    ensures n.SendMessages(ms) == n.(link := n.SendMessages(ms).link)
    decreases |ms|
  {
    hide Link.Send, Encode;
    if ms != [] {
      SendMessagesLink(n.Send(ms[0]), k.Send(ms[0]), ms[1..]);
    }
  }

  lemma HandledTwice(n: Node, k: Node, e: Node, a: seq<Message>, b: seq<Message>)
    requires Handled(n, k, a) && Handled(k, e, b)
    ensures Handled(n, e, a + b)
  {
    hide Node.SendMessages, Answers;
    var x, y := Answers(n.id, n.handlers, a), Answers(n.id, n.handlers, b);
    AnswersConcat(n.id, n.handlers, a, b);
    SendMessagesConcat(n, x, y);
    SendMessagesLink(n.SendMessages(x), k, y);
    assert n.inbox + a + b == n.inbox + (a + b);
    assert n.inbox + [] + [] == n.inbox + [];
  }

  /** What a node does with the payloads that its link passes on. */
  lemma {:induction false} PayloadsHandled(n: Node, ps: seq<bytes>)
    ensures Handled(n, n.Payloads(ps), Heard(n.id, ps))
    decreases |ps|
  {
    hide Node.Payload, Parse;
    if ps == [] {
      assert n.inbox + [] == n.inbox;
    } else {
      PayloadHandled(n, ps[0]);
      PayloadsHandled(n.Payload(ps[0]), ps[1..]);
      assert [ps[0]] + ps[1..] == ps;
      HeardConcat(n.id, [ps[0]], ps[1..]);
      HandledTwice(n, n.Payload(ps[0]), n.Payloads(ps), Heard(n.id, [ps[0]]), Heard(n.id, ps[1..]));
    }
  }

  lemma {:induction false} SendMessagesAlike(n: Node, k: Node, ms: seq<Message>)
    requires SameSender(n.link, k.link)
    ensures SameSender(n.SendMessages(ms).link, k.SendMessages(ms).link) && SameReceiver(n.link, n.SendMessages(ms).link)
    decreases |ms|
  {
    hide Link.Send, Encode;
    if ms != [] {
      if Encode(ms[0]).Some? {
        SendsAlike(n.link, k.link, Encode(ms[0]).value);
      }
      SendMessagesAlike(n.Send(ms[0]), k.Send(ms[0]), ms[1..]);
    }
  }

  // ---------------------------------------------------------------------------------------------
  // What a node makes of the bytes

  /** A node whose link is up, passes payloads straight to its callback, and has none queued. */
  predicate Listening(n: Node) {
    n.link.hasAdapter && Direct(n.link) && n.link.rxQueue == []
  }

  /**
   While its link went on to `l`, the node became `k`: on the receiving side it is where the link alone
   would be, and its callback was given the messages for it among all payloads handed over.
   */
  ghost predicate Follows(n: Node, k: Node, l: Link) {
    && n.link.handed <= l.handed && SameReceiver(l, k.link)
    && (k.id, k.handlers, k.inbox) ==
       (n.id, n.handlers, n.inbox + if n.handlers.callback then Heard(n.id, Added(n.link.handed, l.handed)) else [])
  }

  /** On the sending side, it is where the answers to those messages take it. */
  ghost predicate Answered(n: Node, k: Node, l: Link) {
    SameSender(n.SendMessages(Answers(n.id, n.handlers, Heard(n.id, Added(n.link.handed, l.handed)))).link, k.link)
  }

  lemma FollowIs(n: Node, l: Link)
    requires n.link.handed <= l.handed
    ensures Follows(n, n.Follow(l), l) && (SameSender(n.link, l) ==> Answered(n, n.Follow(l), l))
  {
    hide Node.SendMessages, Heard, Answers;
    var m, ps := n.(link := l), Added(n.link.handed, l.handed);
    var answers := Answers(n.id, n.handlers, Heard(n.id, ps));
    PayloadsHandled(m, ps);
    SendMessagesAlike(m, m, answers);
    if SameSender(n.link, l) {
      SendMessagesAlike(n, m, answers);
    }
  }

  lemma FollowsTwice(n: Node, k: Node, e: Node, l: Link, m: Link, t: Link)
    requires Follows(n, k, l) && Follows(k, e, m) && SameReceiver(t, m)
    ensures Follows(n, e, t) && (Answered(n, k, l) && Answered(k, e, m) ==> Answered(n, e, t))
  {
    hide Heard, Answers, Node.SendMessages;
    var before, between, after := n.link.handed, l.handed, t.handed;
    assert Added(before, after) == Added(before, between) + Added(between, after);
    HeardConcat(n.id, Added(before, between), Added(between, after));
    var x, y := Heard(n.id, Added(before, between)), Heard(n.id, Added(between, after));
    assert n.inbox + [] + [] == n.inbox + [] && n.inbox + x + y == n.inbox + (x + y);
    AnswersConcat(n.id, n.handlers, x, y);
    SendMessagesConcat(n, Answers(n.id, n.handlers, x), Answers(n.id, n.handlers, y));
    if Answered(n, k, l) {
      SendMessagesAlike(n.SendMessages(Answers(n.id, n.handlers, x)), k, Answers(n.id, n.handlers, y));
    }
  }

  lemma NothingNew(n: Node)
    ensures Follows(n, n, n.link) && Answered(n, n, n.link)
  {
    assert n.inbox + [] == n.inbox && Added(n.link.handed, n.link.handed) == [];
  }

  lemma RawHandsMore(l: Link, raw: bytes)
    ensures l.handed <= l.DeliverRaw(raw).handed
  {
    hide Accept;
  }

  lemma ByteHandsMore(l: Link, b: byte)
    ensures l.handed <= l.OnRawByte(b).handed
  {
    hide Link.CobsByte, Link.PrefixedByte, Link.DeliverRaw, FrameOf;
    if l.cfg.Framed() {
      ByteIs(l, b);
      if FrameOf(l, b).Some? {
        RawHandsMore(l, FrameOf(l, b).value);
      }
    }
  }

  lemma {:induction false} BytesFollow(n: Node, bs: bytes)
    ensures Follows(n, n.OnBytes(bs), n.link.OnBytes(bs)) && Answered(n, n.OnBytes(bs), n.link.OnBytes(bs))
    decreases |bs|
  {
    hide Node.Follow, Link.OnRawByte, Heard, Answered;
    if bs == [] {
      NothingNew(n);
    } else {
      var l := n.link.OnRawByte(bs[0]);
      var k := n.Follow(l);
      ByteHandsMore(n.link, bs[0]);
      ByteKeepsSender(n.link, bs[0]);
      FollowIs(n, l);
      BytesFollow(k, bs[1..]);
      BytesAlike(l, k.link, bs[1..]);
      FollowsTwice(n, k, n.OnBytes(bs), l, k.link.OnBytes(bs[1..]), n.link.OnBytes(bs));
    }
  }

  // ---------------------------------------------------------------------------------------------
  // Polls and turns

  /** A poll is a turn of the link in which everything that is handed over is handled, queued payloads included. */
  lemma PollIsTurn(n: Node, bs: bytes)
    ensures Follows(n, n.Poll(bs), n.link.Process(bs))
  {
    hide Node.OnBytes, Node.Follow, Link.OnBytes, Link.FlushTx, Heard, Answered;
    var m := if n.link.hasAdapter then n.OnBytes(bs) else n;
    var r := if n.link.hasAdapter then n.link.OnBytes(bs) else n.link;
    BytesFollow(n, bs);
    NothingNew(n);
    FlushesAlike(m.link, m.link);
    FlushesAlike(r, r);
    var k := m.(link := m.link.FlushTx().link);
    FollowIs(k, k.link.DrainRx());
    FollowsTwice(n, k, n.Poll(bs), r, k.link.DrainRx(), n.link.Process(bs));
  }

  /** With no payload queued, a turn does to the receiver what the bytes do. */
  lemma TurnReceiver(l: Link, bs: bytes)
    requires l.hasAdapter && Direct(l) && l.rxQueue == []
    ensures SameReceiver(l.OnBytes(bs), l.Process(bs))
    ensures l.Process(bs).hasAdapter && Direct(l.Process(bs)) && l.Process(bs).rxQueue == []
  {
    hide Link.OnBytes, Link.FlushTx;
    var d := BytesHand(l, bs);
    FlushesAlike(l.OnBytes(bs), l.OnBytes(bs));
    var f := l.OnBytes(bs).FlushTx().link;
    assert f.DrainRx() == f by {
      assert f.handed + [] == f.handed;
    }
  }

  /** The link sends at once, and nothing is queued. */
  predicate Unqueued(l: Link) {
    !l.cfg.enableTxQueue && l.txQueue == []
  }

  lemma {:induction false} SendsUnqueued(n: Node, ms: seq<Message>)
    requires Unqueued(n.link)
    ensures Unqueued(n.SendMessages(ms).link)
    decreases |ms|
  {
    hide Link.Send, Encode;
    if ms != [] {
      if Encode(ms[0]).Some? {
        var queued := SendEmitsQueued(n.link, Encode(ms[0]).value);
      }
      SendsUnqueued(n.Send(ms[0]), ms[1..]);
    }
  }

  lemma FlushEmpty(l: Link)
    requires l.txQueue == []
    ensures l.FlushTx().link == l
  {
  }

  /** A flush and a drain of empty queues leave the answers as they are. */
  lemma PollAnswers(n: Node, bs: bytes)
    requires Listening(n) && Unqueued(n.link)
    ensures Answered(n, n.Poll(bs), n.link.OnBytes(bs)) && Unqueued(n.Poll(bs).link)
  {
    hide Link.OnBytes, Node.OnBytes, Node.SendMessages, Heard, Answers, Link.FlushTx;
    BytesFollow(n, bs);
    var k := n.OnBytes(bs);
    var d := BytesHand(n.link, bs);
    SendsUnqueued(n, Answers(n.id, n.handlers, Heard(n.id, Added(n.link.handed, n.link.OnBytes(bs).handed))));
    FlushEmpty(k.link);
    assert k.link.handed + [] == k.link.handed;
    assert k.link.DrainRx() == k.link && n.Poll(bs) == k;
  }

  /** Over any sequence of polls it is as if all bytes had come at once. */
  lemma {:induction false} PollsFollow(n: Node, chunks: seq<bytes>)
    requires Listening(n)
    ensures Follows(n, n.Polls(chunks), n.link.OnBytes(Flatten(chunks))) && Listening(n.Polls(chunks))
    ensures Unqueued(n.link) ==> Answered(n, n.Polls(chunks), n.link.OnBytes(Flatten(chunks)))
    decreases |chunks|
  {
    hide Node.Poll, Answered, Unqueued, Link.OnBytes, Link.Process, Heard;
    if chunks == [] {
      NothingNew(n);
      NoBytes(n.link);
    } else {
      var bs, rest := chunks[0], Flatten(chunks[1..]);
      var k, l := n.Poll(bs), n.link.OnBytes(bs);
      PollIsTurn(n, bs);
      TurnReceiver(n.link, bs);
      assert Follows(n, k, l);
      if Unqueued(n.link) {
        PollAnswers(n, bs);
      }
      PollsFollow(k, chunks[1..]);
      OnBytesConcat(n.link, bs, rest);
      BytesAlike(l, k.link, rest);
      FollowsTwice(n, k, n.Polls(chunks), l, k.link.OnBytes(rest), l.OnBytes(rest));
    }
  }

  lemma NoBytes(l: Link)
    ensures l.OnBytes([]) == l
  {
  }

  /** With an adapter that takes its frames, it leaves nothing in the TX queue: queued answers are sent in the same poll. */
  lemma PollTransmits(n: Node, bs: bytes)
    requires Listening(n) && Sendable(n.link.max, n.link.cfg) && TxQueue.Unblocked(n.link) && forall k: nat :: n.link.accepts(k)
    ensures var before, after := n.OnBytes(bs).link, n.Poll(bs).link;
      after.txQueue == [] && after.sent == before.sent + before.txQueue
  {
    hide Node.OnBytes, Node.SendMessages, Heard, Answers, Link.OnBytes, Link.FlushTx, TxQueue.Unblocked;
    BytesFollow(n, bs);
    var k := n.OnBytes(bs);
    var d := BytesHand(n.link, bs);
    assert k.link.handed + [] == k.link.handed;
    assert k.link.DrainRx() == k.link;
    var answers := Answers(n.id, n.handlers, Heard(n.id, Added(n.link.handed, n.link.OnBytes(bs).handed)));
    MessagesUnblocked(n, answers);
    SenderUnblocked(n.SendMessages(answers).link, k.link);
    var e := k.(link := k.link.FlushTx().link);
    FlushesAlike(k.link, k.link);
    assert e.link.DrainRx() == e.link;
    assert n.Poll(bs) == e;
    TxQueue.FlushSucceeds(k.link);
    var j := FlushTakesPrefix(k.link);
    assert k.link.txQueue[..|k.link.txQueue|] == k.link.txQueue;
  }

  lemma {:induction false} MessagesUnblocked(n: Node, ms: seq<Message>)
    requires Sendable(n.link.max, n.link.cfg) && TxQueue.Unblocked(n.link)
    ensures TxQueue.Unblocked(n.SendMessages(ms).link)
    decreases |ms|
  {
    hide Link.Send, Encode, TxQueue.Unblocked;
    if ms != [] {
      if Encode(ms[0]).Some? {
        TxQueue.SendUnblocked(n.link, Encode(ms[0]).value);
      }
      MessagesUnblocked(n.Send(ms[0]), ms[1..]);
    }
  }

  lemma SenderUnblocked(l: Link, m: Link)
    requires SameSender(l, m) && TxQueue.Unblocked(l)
    ensures TxQueue.Unblocked(m)
  {
    hide TxQueue.WithinLimit;
  }

  // ---------------------------------------------------------------------------------------------
  // From node to node

  /** A node that listens, between frames. */
  predicate AtRest(n: Node) {
    Listening(n) && Between(n.link) && n.link.max == MAX_PAYLOAD
  }

  /** A node that can send at once to peers with these wire settings. */
  ghost predicate Talking(n: Node, wire: Config) {
    && Lossless(n.link) && n.link.txQueue == [] && Sendable(n.link.max, n.link.cfg)
    && n.link.max == MAX_PAYLOAD && SameWire(n.link.cfg, wire)
  }

  /** The bytes that sending these messages puts on the wire. */
  function SentBytes(n: Node, ms: seq<Message>): bytes {
    NewBytes(n, n.SendMessages(ms))
  }

  /** The bytes of the frames that a node has sent since. */
  function NewBytes(before: Node, after: Node): bytes {
    Flatten(Added(before.link.sent, after.link.sent))
  }

  lemma {:induction false} SendMessagesOutput(n: Node, ms: seq<Message>)
    ensures n.SendMessages(ms).link == SendAll(n.link, Encodings(ms))
    decreases |ms|
  {
    hide Link.Send, Encode;
    if ms != [] {
      SendMessagesOutput(n.Send(ms[0]), ms[1..]);
      if Encode(ms[0]).Some? {
        assert Encodings(ms)[1..] == Encodings(ms[1..]);
      } else {
        assert Encodings(ms) == Encodings(ms[1..]);
      }
    }
  }

  lemma MessagesReceived(a: Node, l: Link, ms: seq<Message>)
    requires Talking(a, l.cfg) && l.max == MAX_PAYLOAD && Between(l)
    ensures forall m :: m in Deliverables(a.link.cfg, ms) ==> |m.payload| <= MAX_MESSAGE_PAYLOAD
    ensures l.OnBytes(SentBytes(a, ms)).delivered == l.delivered + PayloadsOf(Deliverables(a.link.cfg, ms))
    ensures Between(l.OnBytes(SentBytes(a, ms)))
  {
    hide Frame, Encode, Deliverables, Wire, Link.OnBytes, FitsRaw, ValidLimit;
    var raws := WireAll(a.link.cfg, a.link.fragmentSeq, Encodings(ms));
    EncodingsFit(ms);
    SendMessagesOutput(a, ms);
    SendAllEmits(a.link, Encodings(ms));
    assert Added(a.link.sent, a.link.sent + Frames(a.link.cfg, raws)) == Frames(a.link.cfg, raws);
    SameFrames(a.link.cfg, l.cfg, raws);
    StreamReceived(l, raws);
    MessagesArrive(l, a.link.cfg, a.link.fragmentSeq, ms);
  }

  /** Polled with the bytes of these messages, a node hears exactly those that are deliverable and meant for it. */
  lemma PollsHear(a: Node, n: Node, ms: seq<Message>, chunks: seq<bytes>)
    requires Talking(a, n.link.cfg) && AtRest(n) && Flatten(chunks) == SentBytes(a, ms)
    ensures var l := n.link.OnBytes(Flatten(chunks));
      && Follows(n, n.Polls(chunks), l) && (Unqueued(n.link) ==> Answered(n, n.Polls(chunks), l))
      && Heard(n.id, Added(n.link.handed, l.handed)) == Addressed(n.id, Deliverables(a.link.cfg, ms))
    ensures AtRest(n.Polls(chunks))
  {
    hide Link.OnBytes, Node.Polls, Deliverables, SentBytes, Heard, Answered;
    PollsFollow(n, chunks);
    MessagesReceived(a, n.link, ms);
    var sent, before := PayloadsOf(Deliverables(a.link.cfg, ms)), n.link.delivered;
    var d := BytesHand(n.link, Flatten(chunks));
    assert (before + d)[|before|..] == d && (before + sent)[|before|..] == sent;
    assert (n.link.handed + d)[|n.link.handed|..] == d;
    HeardOfMessages(n.id, Deliverables(a.link.cfg, ms));
  }

  /**
   End to end: whatever messages one node sends over a lossless transport, and however their bytes are
   split over the polls of another, with its handlers' answers sent in between, the callback of that one
   receives exactly those addressed to it or to all, once each, equal and in order; only those that do
   not fit or that look like fragments are lost.
   */
  lemma EndToEnd(a: Node, n: Node, ms: seq<Message>, chunks: seq<bytes>)
    requires Talking(a, n.link.cfg) && AtRest(n) && n.handlers.callback
    requires Flatten(chunks) == SentBytes(a, ms)
    ensures n.Polls(chunks).inbox == n.inbox + Addressed(n.id, Deliverables(a.link.cfg, ms))
    ensures AtRest(n.Polls(chunks))
  {
    hide Link.OnBytes, Node.Polls, Deliverables, SentBytes, Heard;
    PollsHear(a, n, ms, chunks);
  }

  // ---------------------------------------------------------------------------------------------
  // Requests and answers

  /** What the node puts on the wire while it is polled are the answers to what it was sent. */
  lemma AnswersSent(a: Node, n: Node, ms: seq<Message>, chunks: seq<bytes>)
    requires Talking(a, n.link.cfg) && AtRest(n) && Talking(n, a.link.cfg)
    requires Flatten(chunks) == SentBytes(a, ms)
    ensures NewBytes(n, n.Polls(chunks))
      == SentBytes(n, Answers(n.id, n.handlers, Addressed(n.id, Deliverables(a.link.cfg, ms))))
  {
    hide Link.OnBytes, Node.Polls, Deliverables, Heard, Node.SendMessages, Answers;
    PollsHear(a, n, ms, chunks);
  }

  /** The messages among some that handlers answer. */
  function Asking(h: Handlers, ms: seq<Message>): seq<Message> {
    if ms == [] then [] else (if Answerable(h, ms[0]) then [ms[0]] else []) + Asking(h, ms[1..])
  }

  lemma {:induction false} AnswersReply(id: byte, h: Handlers, ms: seq<Message>)
    ensures var asks, answers := Asking(h, ms), Answers(id, h, ms);
      |answers| == |asks| && (forall i :: 0 <= i < |asks| ==> Replies(id, h, asks[i], answers[i]))
      && (forall i :: 0 <= i < |asks| ==> asks[i] in ms && |answers[i].payload| <= MAX_MESSAGE_PAYLOAD)
  {
    hide Answer, Answerable, Replies, Encode;
    if ms != [] {
      AnswerIff(id, h, ms[0]);
      AnswersReply(id, h, ms[1..]);
      if Answer(id, h, ms[0]).Some? {
        EncodedIfFits(Answer(id, h, ms[0]).value);
      }
    }
  }

  lemma EncodedIfFits(m: Message)
    ensures Encode(m).Some? <==> |m.payload| <= MAX_MESSAGE_PAYLOAD
  {
  }

  lemma {:induction false} AllDelivered(cfg: Config, id: byte, ms: seq<Message>)
    requires forall m :: m in ms ==> |m.payload| <= MAX_MESSAGE_PAYLOAD && m.dest == id && !LooksLikeFragment(cfg, m)
    ensures Addressed(id, Deliverables(cfg, ms)) == ms
  {
    hide LooksLikeFragment;
    if ms != [] {
      AllDelivered(cfg, id, ms[1..]);
      assert [ms[0]] + Deliverables(cfg, ms[1..]) == Deliverables(cfg, ms);
      assert Deliverables(cfg, ms)[1..] == Deliverables(cfg, ms[1..]);
    }
  }

  lemma {:induction false} AddressedAmong(id: byte, cfg: Config, ms: seq<Message>)
    ensures forall m :: m in Addressed(id, ms) ==> m in ms
    ensures forall m :: m in Deliverables(cfg, ms) ==> m in ms
  {
    if ms != [] {
      AddressedAmong(id, cfg, ms[1..]);
    }
  }

  /** Whoever asks is answered, unless answers look like fragments for their two ids. */
  lemma AnswersArrive(cfg: Config, id: byte, h: Handlers, asker: byte, heard: seq<Message>)
    requires forall m :: m in heard ==> m.source == asker
    requires !(id == 0xA5 && asker == 0x5A)
    ensures Addressed(asker, Deliverables(cfg, Answers(id, h, heard))) == Answers(id, h, heard)
  {
    hide Answers, Asking;
    AnswersReply(id, h, heard);
    var asks, answers := Asking(h, heard), Answers(id, h, heard);
    forall r | r in answers
      ensures |r.payload| <= MAX_MESSAGE_PAYLOAD && r.dest == asker && !LooksLikeFragment(cfg, r)
    {
      var i :| 0 <= i < |answers| && answers[i] == r;
      assert Replies(id, h, asks[i], r) && asks[i] in heard;
    }
    AllDelivered(cfg, asker, answers);
  }

  /**
   A conversation: one node sends any messages, the other answers while it is polled, and the first
   receives the answers while it is polled in turn. The callback of each receives exactly what is
   addressed to it: the requests on one side, and on the other the answers. If the first sends under its
   own id, it gets one reply for each request that the handlers answer, in order; only the ids of the
   magic pair, as source and destination of the replies, must be avoided.
   */
  lemma Exchange(a: Node, b: Node, ms: seq<Message>, there: seq<bytes>, back: seq<bytes>)
    requires AtRest(a) && a.handlers.callback && Talking(a, b.link.cfg)
    requires AtRest(b) && b.handlers.callback && Talking(b, a.link.cfg)
    requires Flatten(there) == SentBytes(a, ms)
    requires Flatten(back) == NewBytes(b, b.Polls(there))
    ensures var heard := Addressed(b.id, Deliverables(a.link.cfg, ms));
      && b.Polls(there).inbox == b.inbox + heard
      && a.SendMessages(ms).Polls(back).inbox
         == a.inbox + Addressed(a.id, Deliverables(b.link.cfg, Answers(b.id, b.handlers, heard)))
    ensures (forall m :: m in ms ==> m.source == a.id) && !(b.id == 0xA5 && a.id == 0x5A) ==>
      var asks := Asking(b.handlers, Addressed(b.id, Deliverables(a.link.cfg, ms)));
      var inbox := a.SendMessages(ms).Polls(back).inbox;
      && |inbox| == |a.inbox| + |asks| && a.inbox <= inbox
      && forall i :: 0 <= i < |asks| ==> Replies(b.id, b.handlers, asks[i], inbox[|a.inbox| + i])
  {
    hide Node.Polls, Deliverables, Answers, SentBytes, Link.OnBytes, Node.SendMessages, Lossless, Sendable, Addressed, Replies, Asking;
    EndToEnd(a, b, ms, there);
    AnswersSent(a, b, ms, there);
    var asked := a.SendMessages(ms);
    SendMessagesAlike(a, a, ms);
    SendMessagesLink(a, a, ms);
    var heard := Addressed(b.id, Deliverables(a.link.cfg, ms));
    EndToEnd(b, asked, Answers(b.id, b.handlers, heard), back);
    if (forall m :: m in ms ==> m.source == a.id) && !(b.id == 0xA5 && a.id == 0x5A) {
      AddressedAmong(b.id, a.link.cfg, Deliverables(a.link.cfg, ms));
      AddressedAmong(b.id, a.link.cfg, ms);
      AnswersArrive(b.link.cfg, b.id, b.handlers, a.id, heard);
      AnswersReply(b.id, b.handlers, heard);
    }
  }

  /** Both configurations in use meet the conditions on the link, with buffers of these sizes. */
  lemma ConfigurationsInUse()
    ensures Sendable(MAX_PAYLOAD, FOR_UART) && Sendable(MAX_PAYLOAD, FOR_CAN_FD)
    ensures MAX_PAYLOAD == 261 && RawCapacity(261) == 263 && EncodedCapacity(261) == 270 && FrameCapacity(261) == 270
    ensures FOR_UART.useCobs && FOR_UART.useCrc && FOR_UART.physicalFrameLimit == 0
    ensures FOR_CAN_FD.useLengthPrefix && !FOR_CAN_FD.useCobs && !FOR_CAN_FD.useCrc && FOR_CAN_FD.physicalFrameLimit == 64
  {
  }
}
