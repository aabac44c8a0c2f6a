/**
 `CANCommunication` and `UARTCommunication`: the same code over a link with a different configuration,
 proved to behave as the nodes of Messages do.
 */
module Communications {
  import opened Bytes
  import opened LinkModel
  import opened Messages
  import opened Buffers
  import opened IpcLink

  /** The log of callback calls only grows. */
  lemma DrainHandsMore(l: Link)
    ensures l.handed <= l.DrainRx().handed
  {
  }

  class Communication {
    const deviceId: byte
    const handlers: Handlers
    const link: IPCLink
    var inbox: seq<Message>  // the calls of the message callback

    ghost predicate Valid()
      reads this, link.Repr()
    {
      this !in link.Repr() && link.maxPayload == MAX_PAYLOAD && link.hasCallback && link.Valid()
    }

    ghost function State(): Node
      requires Valid()
      reads this, link.Repr()
    {
      Node(deviceId, handlers, link.State(), inbox)
    }

    /** A node with a link in the configuration for its transport, `FOR_UART` or `FOR_CAN_FD`. */
    constructor (deviceId: byte, handlers: Handlers, adapter: Adapter, config: Config)
      requires adapter.attempts == 0 && adapter.sent == []
      ensures Valid()
      ensures State() == Node(deviceId, handlers, Fresh(MAX_PAYLOAD, true, true, adapter.accepts, config), [])
    {
      this.deviceId := deviceId;
      this.handlers := handlers;
      link := new IPCLink(MAX_PAYLOAD, adapter, true, config);
      inbox := [];
    }

    method EncodeMessagePayload(msg: Message, out: array?<byte>, capacity: nat) returns (ok: bool, len: nat)
      requires out != null ==> capacity <= out.Length
      modifies out
      ensures out == null ==> !ok
      ensures out != null ==> match Encode(msg)
                              case None => !ok
                              case Some(data) => ok == (|data| <= capacity) && (ok ==> len == |data| && out[..len] == data)
    {
      if out == null || |msg.payload| > MAX_MESSAGE_PAYLOAD {
        return false, 0;
      }
      len := |msg.payload| + MESSAGE_HEADER_SIZE;
      if len > capacity {
        return false, 0;
      }
      out[0] := msg.source;
      out[1] := msg.dest;
      out[2] := msg.kind;
      out[3] := HiByte(|msg.payload|);
      out[4] := LoByte(|msg.payload|);
      forall k | 0 <= k < |msg.payload| {
        out[MESSAGE_HEADER_SIZE + k] := msg.payload[k];
      }
      assert out[..MESSAGE_HEADER_SIZE] == [msg.source, msg.dest, msg.kind, HiByte(|msg.payload|), LoByte(|msg.payload|)];
      assert out[MESSAGE_HEADER_SIZE..len] == msg.payload;
      assert out[..len] == out[..MESSAGE_HEADER_SIZE] + out[MESSAGE_HEADER_SIZE..len];
      ok := true;
    }

    method SendMessage(msg: Message) returns (ok: bool)
      requires Valid()
      modifies link.Repr()
      ensures Valid() && State() == old(State()).Send(msg) && inbox == old(inbox)
      ensures ok == match Encode(msg)
                    case None => false
                    case Some(data) => old(State()).link.Send(data).ok
    {
      hide Link.Send, Encode;
      var raw := new byte[MAX_PAYLOAD];
      var encoded, rawLen := EncodeMessagePayload(msg, raw, MAX_PAYLOAD);
      EncodedFits(msg);
      if !encoded {
        return false;
      }
      ok := link.Send(raw, rawLen);
    }

    static lemma EncodedFits(m: Message)
      ensures Encode(m).Some? ==> |Encode(m).value| <= MAX_PAYLOAD
    {
    }

    method HandleIncomingMessage(msg: Message)
      requires Valid()
      modifies this, link.Repr()
      ensures Valid() && State() == old(State()).Incoming(msg)
    {
      hide Encode, Link.Send;
      if msg.dest != BROADCAST && msg.dest != deviceId {
        return;
      }
      if handlers.callback {
        inbox := inbox + [msg];
      }
      var sent;
      if msg.kind == STATE_REQUEST && handlers.state.Some? {
        var data := handlers.state.value(msg.source, msg.payload);
        if |data| > 0 {
          sent := SendMessage(StateUpdate(deviceId, msg.source, data));
        }
      } else if msg.kind == COMMAND_EXECUTE && handlers.command.Some? {
        var (status, data) := handlers.command.value(msg.source, msg.payload);
        sent := SendMessage(CommandResponse(deviceId, msg.source, status, data));
      }
    }

    method HandleRawPayload(data: array?<byte>, len: nat)
      requires Valid() && (data != null ==> len <= data.Length)
      modifies this, link.Repr()
      ensures Valid()
      ensures data == null ==> State() == old(State())
      ensures data != null ==> State() == old(State()).Payload(old(data[..len]))
    {
      hide Node.Incoming;
      if data == null || len < MESSAGE_HEADER_SIZE {
        return;
      }
      var payloadLen := Word(data[3], data[4]);
      if payloadLen + MESSAGE_HEADER_SIZE != len || payloadLen > MAX_MESSAGE_PAYLOAD {
        return;
      }
      var msg := Message(data[0], data[1], data[2], data[MESSAGE_HEADER_SIZE..len]);
      assert data[..len][MESSAGE_HEADER_SIZE..] == data[MESSAGE_HEADER_SIZE..len];
      HandleIncomingMessage(msg);
    }

    /** Handles one callback call of the link. */
    method OnLinkPayload(payload: bytes)
      requires Valid()
      modifies this, link.Repr()
      ensures Valid() && State() == old(State()).Payload(payload)
    {
      hide Node.Payload;
      ghost var before := State();
      var data := new byte[|payload|];
      forall k | 0 <= k < |payload| {
        data[k] := payload[k];
      }
      assert data[..|payload|] == payload && State() == before;
      HandleRawPayload(data, |payload|);
    }

    /** Handles the callback's calls since there were `seen` of them. */
    method HandleNewPayloads(seen: nat)
      requires Valid() && seen <= |link.handed|
      modifies this, link.Repr()
      ensures Valid() && State() == old(State()).Payloads(old(link.handed[seen..]))
    {
      hide Node.Payload;
      var news := link.handed[seen..];
      ghost var start := State();
      assert news[0..] == news;
      for i := 0 to |news|
        invariant Valid() && State().Payloads(news[i..]) == start.Payloads(news)
      {
        assert news[i..][1..] == news[i+1..];
        OnLinkPayload(news[i]);
      }
    }

    /** One received byte, with the callback that it may lead to. */
    method OnRawByte(b: byte)
      requires Valid()
      modifies this, link.Repr()
      ensures Valid() && State() == old(State()).Follow(old(State()).link.OnRawByte(b))
    {
      hide Node.Payload, Link.OnRawByte;
      ByteHandsMore(link.State(), b);
      var seen := |link.handed|;
      link.OnRawByte(b);
      HandleNewPayloads(seen);
    }

    /**
     One poll: the turn of the link, of which `polled` are the bytes that the adapter's `poll` hands over,
     with the callback's calls where they are made.
     */
    method Poll(polled: bytes)
      requires Valid()
      modifies this, link.Repr()
      ensures Valid() && State() == old(State()).Poll(polled)
    {
      hide Node.Follow, Link.OnRawByte, Link.FlushTx, Link.DrainRx;
      if link.adapter != null {
        assert polled[0..] == polled;
        for i := 0 to |polled|
          invariant Valid() && State().OnBytes(polled[i..]) == old(State()).OnBytes(polled)
        {
          assert polled[i..][1..] == polled[i+1..];
          OnRawByte(polled[i]);
        }
      }
      FinishPoll();
    }

    method FinishPoll()
      requires Valid()
      modifies this, link.Repr()
      ensures Valid()
      ensures var n := old(State()); var k := n.(link := n.link.FlushTx().link); State() == k.Follow(k.link.DrainRx())
    {
      hide Node.Payload, Link.FlushTx, Link.DrainRx;
      var sent := link.FlushTx();
      DrainHandsMore(link.State());
      var seen := |link.handed|;
      link.DrainRxQueue();
      HandleNewPayloads(seen);
    }
  }
}
