# A verified model of the IPC link

The library carries messages between microcontrollers over UART and CAN FD. This project models its
protocol stack and proves what the stack is for:

- **COBS** (`cobs.dfy`, `cobs_codec.dfy`): the byte stuffing of Cheshire and Baker ("Consistent Overhead
  Byte Stuffing", IEEE/ACM Transactions on Networking, 1999) as a relation on byte strings, and the two
  pointer loops proved against it.
- **CRC** (`crc.dfy`, `gf2.dfy`, `crc_division.dfy`): the nested shift/xor loops, and the division of
  polynomials over GF(2) that they carry out. Polynomials are sets of exponents.
- **The framed link** (`link_model.dfy`, `buffers.dfy`, `ipc_link.dfy`): `IPCLink` as a state machine on
  values, and as a class with the buffers, indices, rings and counters of the code. Every method of the
  class is proved to change the state exactly as the state machine says, so that what is proved about the
  state machine holds of the class.
- **Theorems about the link** (`link_frames.dfy`, `reassembly.dfy`, `link_sender.dfy`,
  `link_theorems.dfy`, `link_invariants.dfy`, `link_sides.dfy`, `tx_queue.dfy`, `rx_queue.dfy`,
  `queue_flows.dfy`, `counters.dfy`, `frame_errors.dfy`): frames and streams, fragmentation, limits, safety on a bad channel, resynchronisation,
  invariants, queues and statistics over whole runs, error detection.
- **Messages** (`messages.dfy`, `communication.dfy`): the 5-byte header, the factories, and the two
  communication classes, with end-to-end delivery and conversations, however the bytes are split over polls.
- **The receive ring** (`rx_ring.dfy`): the STM32 adapter's ring between interrupt and main loop, as a queue
  and with every read and write a step of its own.

Conventions. `MaxPayload` is a parameter; the CRC is `CRC16_CCITT`, whose bytes are appended least
significant first. The device behind the link takes or refuses a frame as a whole: `accepts(k)` says which
it does with the k-th transmission, and results that need a lossless transport say so. Application callbacks
are logs: `handed` for the link's, `inbox` for the message layer's. `delivered` is a further log, of
everything that reaches `deliver_payload_`. Application handlers are functions. A queued frame or payload is
the `data[..len]` of its slot. Statistics are natural numbers.

## What turned out to need a condition

- A payload whose raw frame is at least 9 bytes long and starts with `A5 5A` is taken for a fragment
  (`lib/ipc/include/ipc.hpp:419-422`), also after reassembly. `LookalikeNeverArrives`: whatever bytes a link
  receives, such a payload does not come out. For messages `ArrivesIff` says which ones these are.
- The overhead that decides about fragmentation, and the chunk size, count no COBS block codes
  (`lib/ipc/include/ipc.hpp:361-390`), and a chunk length has one byte (`lib/ipc/include/ipc.hpp:405`).
  `PayloadArrivesIff`: under any frame limit, a payload that is no such lookalike arrives if and only if it is
  `Carried`. A payload sent whole must keep to the limit with two bytes for framing and, with COBS, one for
  each full block. One that is split needs the same of every fragment, and a limit of 12 to 266. A limit of at
  most 255 with COBS, or 266 with a length prefix, is enough for all payloads; with COBS, 266 is not:
  `FullBlockRefused` has an input for 264.
- The TX queue takes frames without a look at the limit. `QueuedSendFlushes`: flushing a queued send succeeds if
  and only if all its frames, full blocks counted, keep to the limit. If one does not, `OversizedSendBlocks`: it
  stays at the front of the queue, and no flush sends anything more, until the link is reset. Under valid
  limits this does not happen (`NeverBlocked`).
- A delimiter that finds the buffer empty is stored (`lib/ipc/include/ipc.hpp:592-600`). `SelfStabilising`
  therefore loses one frame, exactly in that case.
- Sequence numbers come round after 256 split sends. A bad channel can deliver exactly those payloads that were sent
  whole or of which all fragments were sent under one number and length, if not for one payload (`SafeIff`; chunks of
  one byte, under a limit of 12, need a further condition). So sends are safe if no two different payloads of
  one length share a number (`BadChannelSafety`), as with up to 256 split sends (`FewSplitsSafe`). The bound is
  tight: `ReusedNumberMixes` and, for the CAN FD configuration, `BoundIsTight` have 257 split sends and a
  channel that delivers a payload that nobody sent.
- `create_command_response` gives up a byte too many: `ResponseCarries` (of 256 bytes it carries 254, of 255
  all).
- The comment on `cobs_decode` calls 0 a format error; the code also returns 0 for an empty packet and for one that
  does not fit. The model follows the code.

## Model

| member | source | states |
|---|---|---|
| Cobs.RoundTrip | lib/ipc/src/core/cobs.cpp:9-112 | decoding what was encoded gives the packet back, for every length and content, runs of exactly 254 included |
| Cobs.EncodeNonEmpty | lib/ipc/src/core/cobs.cpp:29-64 | an encoding contains no zero byte and is longer than its packet |
| Cobs.Canonical | lib/ipc/src/core/cobs.cpp:29-112 | re-encoding what a zero-free string decodes to gives the string, followed by 0x01 exactly when it ends in a full block |
| Cobs.DecodeInjective | lib/ipc/src/core/cobs.cpp:87-111 | zero-free strings that decode alike are equal up to one trailing 0x01 |
| Cobs.EncodedSize | lib/ipc/src/core/cobs.cpp:22-66 | the overhead is one byte, and one more for each full block of 254 in a zero-free run |
| Cobs.EncodedSizeBound | lib/ipc/src/core/cobs.cpp:22-66 | the overhead is at most one byte plus one per 254 bytes |
| CobsCodec.CobsEncode | lib/ipc/src/core/cobs.cpp:9-67 | the encoder fails exactly when a buffer is missing or the encoding exceeds the capacity, and otherwise writes the encoding |
| CobsCodec.EncodeBytes | lib/ipc/src/core/cobs.cpp:16-66 | the loop with the back-patched code byte computes the encoding, or 0 when it does not fit |
| CobsCodec.CobsDecode | lib/ipc/src/core/cobs.cpp:74-112 | the decoder writes the packet, and reports 0 for a missing buffer and for an empty, malformed or oversized packet |
| CobsCodec.DecodeBytes | lib/ipc/src/core/cobs.cpp:81-111 | the loop over blocks decodes the whole packet or reports 0 |
| CobsCodec.DecodeOne | lib/ipc/src/core/cobs.cpp:88-108 | one block is copied, with a zero behind it unless it is full or last |
| CobsCodec.CopyBlock | lib/ipc/src/core/cobs.cpp:95-100 | the bytes of a block are copied unless input or output ends first |
| Crc.CRC.Update | lib/ipc/include/crc.hpp:20-32 | the nested loops leave the register as the specification function computes it from its old value and the bytes |
| Crc.CRC.UpdateByte | lib/ipc/include/crc.hpp:22-30 | one byte is fed in at the top of the register, followed by eight rounds |
| Crc.RunConcat | lib/ipc/include/crc.hpp:20-32 | updating with a concatenation is updating with its parts |
| Crc.CheckValue | lib/ipc/include/crc.hpp:42 | the CRC of the digits 1 to 9 is 0x29B1 |
| CrcDivision.Division | lib/ipc/include/crc.hpp:20-32 | the register is the one remainder of (start * x^(8n) + message * x^16) divided by x^16 + x^12 + x^5 + 1 |
| CrcDivision.Affine | lib/ipc/include/crc.hpp:20-32 | the registers of two messages of one length differ by the remainder of the difference of the messages |
| CrcDivision.BurstChangesChecksum | lib/ipc/include/crc.hpp:20-36 | a non-empty burst of at most 16 bits changes the checksum of a message of any length |
| CrcDivision.EvenParity | lib/ipc/include/crc.hpp:20-36 | a payload followed by its CRC has an even number of one bits |
| Gf2.RemainderUnique | lib/ipc/include/crc.hpp:24-30 | division by the generator has one remainder |
| Gf2.MultiplesAreWide | lib/ipc/include/crc.hpp:24-30 | a non-zero multiple of the generator spans more than 16 exponents |
| FrameErrors.AcceptedIffBuilt | lib/ipc/include/ipc.hpp:509-576 | the check accepts exactly the raw frames that a sender builds, each as its payload |
| FrameErrors.BurstRejected | lib/ipc/include/ipc.hpp:547-567 | a raw frame whose payload part was hit by a burst of at most 16 bits is rejected as a CRC error |
| FrameErrors.OddErrorsRejected | lib/ipc/include/ipc.hpp:547-567 | a raw frame with an odd number of flipped bits, CRC field included, is rejected as a CRC error |
| LinkFrames.FramingSucceeds | lib/ipc/include/ipc.hpp:329-359 | no raw frame that fits the link takes the framing-error branch: its physical frame is sent or queued |
| LinkFrames.CobsFrameReceived | lib/ipc/include/ipc.hpp:591-605 | the bytes of a COBS frame have the effect of its raw frame |
| LinkFrames.PrefixedFrameReceived | lib/ipc/include/ipc.hpp:607-643 | the bytes of a length-prefixed frame have the effect of its raw frame |
| LinkFrames.StreamReceived | lib/ipc/include/ipc.hpp:578-654 | a stream of whole frames has the effect of its raw frames, and leaves the receiver between frames |
| LinkFrames.BadPrefixSkipped | lib/ipc/include/ipc.hpp:607-624 | a length prefix that is zero or too large is counted and skipped, and what follows is received as a new frame |
| LinkFrames.OverlongDropped | lib/ipc/include/ipc.hpp:591-605 | the byte that finds the COBS buffer full is dropped with all of it and counted once |
| LinkFrames.FrameLayout | lib/ipc/include/ipc.hpp:345-355 | a prefixed frame is the length, high byte first, and the raw frame |
| LinkFrames.RawFrameLayout | lib/ipc/include/ipc.hpp:520-531 | a raw frame with a check is the payload and its CRC, low byte first |
| Reassembly.LookalikeNeverArrives | lib/ipc/include/ipc.hpp:419-482 | in any mode and state, and whatever bytes are received, a payload whose raw frame looks like a fragment is never delivered |
| Reassembly.JudgeFragment | lib/ipc/include/ipc.hpp:431-482 | a fragment is stored, or completes its raw frame, exactly if it starts one or continues the one in the buffer |
| Reassembly.Verdicts | lib/ipc/include/ipc.hpp:431-479 | which of all possible fragments are refused, stored, complete a raw frame or end it early, and what the buffer holds then |
| Reassembly.Progress | lib/ipc/include/ipc.hpp:378-482 | whatever was being reassembled, all fragments of a send in order deliver it once, and frames in between are delivered unaffected |
| Reassembly.SplitRedelivers | lib/ipc/include/ipc.hpp:378-482 | the fragments of any raw frame leave the link as the raw frame itself would, but for the fragment counter |
| Reassembly.Safety | lib/ipc/include/ipc.hpp:431-482 | whatever numbers were used, frames in any order and number deliver only payloads that were sent whole or of which every fragment was sent under one number |
| Reassembly.DeliverableArrives | lib/ipc/include/ipc.hpp:431-482 | conversely, each such payload is delivered when just its frames come through |
| Reassembly.UnambiguousSafe | lib/ipc/include/ipc.hpp:447-462 | if no two different payloads of one length share a number, only sent payloads can be put together |
| Reassembly.DepthBounded | lib/ipc/include/ipc.hpp:468-482 | redelivery ends: at most 31 raw frames are handled because of one, whatever its bytes |
| LinkSender.SendEmits | lib/ipc/include/ipc.hpp:113-129 | a send emits, whole or in fragments by these sizes, the frames of its plan in order, as far as the queue has room or they keep to the limit and the adapter takes them; it counts fragments, and succeeds when all went out |
| LinkSender.DirectSend | lib/ipc/include/ipc.hpp:300-319 | over a lossless adapter the frames up to the first one beyond the limit reach the wire, and the send succeeds exactly if there is none and fragments have room for data |
| LinkSender.EmitFragments | lib/ipc/include/ipc.hpp:390-416 | the fragmentation loop emits the fragments in order and stops at the first that cannot be sent |
| LinkSender.LimitKept | lib/ipc/include/ipc.hpp:300-417 | under a valid limit every frame given to adapter or TX queue fits the buffers and the limit |
| LinkSender.FragmentsPartition | lib/ipc/include/ipc.hpp:391-414 | the chunks partition the raw frame, the first fragment alone carries Start and the last alone End |
| LinkSender.FragmentAt | lib/ipc/include/ipc.hpp:391-414 | there are as many fragments as full chunks begin within the raw frame, and each carries the bytes from its own multiple of the chunk size on |
| LinkSender.FragmentLayout | lib/ipc/include/ipc.hpp:393-406 | every byte of every fragment: magic pair, number, flags, total length, offset, chunk length, chunk |
| LinkSender.Decides | lib/ipc/include/ipc.hpp:361-384 | a raw frame is split exactly if with two bytes of framing it exceeds the limit, into chunks of 11 bytes less than that |
| LinkSender.WireArrives | lib/ipc/include/ipc.hpp:361-417 | what reaches the wire of a send delivers its payload, once, if the limit carries it, and nothing otherwise |
| LinkSender.FullBlockRefused | lib/ipc/include/ipc.hpp:300-342 | with COBS and a limit of 264, a payload of 261 ones is not sent: a full block takes its first fragment beyond the limit |
| LinkTheorems.StreamDelivers | lib/ipc/include/ipc.hpp:113-129 | under any frame limit, the bytes of any list of acceptable sends, fed one at a time to a receiver between frames, deliver exactly the carried payloads in order and leave it between frames |
| LinkTheorems.StreamRoundTrip | lib/ipc/include/ipc.hpp:113-129 | under a valid limit they deliver exactly that list |
| LinkTheorems.PayloadArrivesIff | lib/ipc/include/ipc.hpp:361-422 | over a lossless adapter, under any framing and limit, a payload arrives if and only if its raw frame does not look like a fragment and, by the sizes of its frames, the limit carries it |
| LinkTheorems.SendAllEmits | lib/ipc/include/ipc.hpp:113-129 | over a lossless adapter, consecutive sends put exactly these frames on the wire, each send's up to its first one beyond the limit |
| LinkTheorems.BadChannelSafety | lib/ipc/include/ipc.hpp:378-482 | if no two different payloads of one length were split under one number, any loss, repetition and reordering of frames delivers only payloads that were sent |
| LinkTheorems.FewSplitsSafe | lib/ipc/include/ipc.hpp:378-482 | so up to 256 split sends are safe, whatever they are |
| LinkTheorems.SafeIff | lib/ipc/include/ipc.hpp:378-482 | sends are safe if and only if every payload that can be put together from their fragments of one number and length was itself sent |
| LinkTheorems.ReusedNumberMixes | lib/ipc/include/ipc.hpp:390-411 | 257 split sends, the last of the length of the first, let some channel deliver a payload made of both and not sent |
| LinkTheorems.BoundIsTight | lib/ipc/include/ipc.hpp:390-411 | such sends in the CAN FD configuration |
| LinkTheorems.LogDistinct | lib/ipc/include/ipc.hpp:390 | up to 256 split sends use different sequence numbers |
| LinkTheorems.SelfStabilising | lib/ipc/include/ipc.hpp:591-654 | from any state, after any bytes and a delimiter, all following frames are delivered, but for the first one exactly when the delimiter found the buffer empty |
| TxQueue.QueuedSend | lib/ipc/include/ipc.hpp:270-282 | a send through an empty queue leaves there the frames of its plan as far as there is room, whatever their size, and succeeds exactly if there is room for all |
| TxQueue.QueuedSendFlushes | lib/ipc/include/ipc.hpp:131-172 | flushing it puts the same frames on the wire as sending at once, and succeeds if and only if all of them keep to the limit; otherwise the first that does not is left at the front |
| TxQueue.OversizedFrameBlocks | lib/ipc/include/ipc.hpp:131-143 | over any run of operations other than a reset or a new configuration, a frame beyond the limit stays at the front, and no flush sends anything |
| TxQueue.OversizedSendBlocks | lib/ipc/include/ipc.hpp:131-143 | a single queued send with such a frame is enough for that |
| TxQueue.NeverBlocked | lib/ipc/include/ipc.hpp:131-143 | over any run under valid limits every queued frame keeps to the limit, and a flush fails only for want of an adapter that takes the frames |
| TxQueue.TurnTransmits | lib/ipc/include/ipc.hpp:105-111 | a turn transmits the longest prefix of the queue that the adapter takes; under valid limits, and if it takes the frames, the queue is empty afterwards and all of it was sent |
| TxQueue.QueuedSendTurn | lib/ipc/include/ipc.hpp:105-143 | one turn after a queued send, its frames are on the wire, up to the first one beyond the limit |
| TxQueue.AsyncQueues | lib/ipc/include/ipc.hpp:166-172 | an asynchronous send queues its frames under any configuration, sends nothing and leaves the configuration as it was |
| QueueFlows.QueuesConserved | lib/ipc/include/ipc.hpp:131-161 | over any run both queues are FIFOs: pending plus queued is removed plus pending, the counters grow by what was queued, what left the TX queue was transmitted and what left the receive queue went to the callback or was returned by `receive`, in order |
| RxQueue.EveryPayloadTaken | lib/ipc/include/ipc.hpp:284-298 | of whatever comes out of the receiver, the receive queue takes in order what fits and it has room for, and every other payload is counted as an overrun; in a framed mode everything fits; without queueing, all goes to the callback |
| RxQueue.ReceiveIff | lib/ipc/include/ipc.hpp:145-161 | `receive` returns the oldest payload exactly if there is one and it fits; otherwise it stays queued |
| RxQueue.ReceivesInOrder | lib/ipc/include/ipc.hpp:145-161 | as many calls as payloads are queued return them in order and leave nothing |
| RxQueue.SentIsReceived | lib/ipc/include/ipc.hpp:113-161 | of the payloads sent, as many as the receiver's queue has room for are returned by its calls of `receive`, in order, and the others are counted |
| RxQueue.TurnReceives | lib/ipc/include/ipc.hpp:105-111 | a turn passes to the callback what comes out of the receiver and then what was queued, and leaves nothing; without one, or with queueing enabled, it fills the queue |
| LinkSides.TurnIs | lib/ipc/include/ipc.hpp:105-111 | a turn does to the TX side what a flush does, to the receiver what the bytes do, and drains the receive queue, whatever the other side is doing |
| LinkSides.ResetForgets | lib/ipc/include/ipc.hpp:189-196 | after a reset a link delivers just what a new one would, whatever was half received, reassembled or queued |
| LinkSides.ConfigurationForgets | lib/ipc/include/ipc.hpp:183-196 | so it does under a new configuration |
| LinkSides.BytesAlike | lib/ipc/include/ipc.hpp:89-103 | links that differ only in what sending reads and writes receive the same bytes alike |
| LinkSides.SendsAlike | lib/ipc/include/ipc.hpp:113-129 | links that differ only in what receiving reads and writes send alike, and sending leaves that side as it was |
| Counters.RunCounted | lib/ipc/include/ipc.hpp:300-319 | over any run, the counters of frames and bytes, received and sent, grow by what was delivered and what the adapter took |
| Counters.RejectedCounted | lib/ipc/include/ipc.hpp:537-589 | a raw frame that no sender built is counted once, as a framing error if its size is wrong and as a CRC error otherwise, and changes nothing else |
| Counters.FailedSendCounted | lib/ipc/include/ipc.hpp:113-129 | a send that fails is counted by exactly one error or overrun |
| LinkInvariants.AlwaysGood | lib/ipc/include/ipc.hpp:71-196 | from construction on, over any run of operations, all indices stay in bounds, reassembly never overruns, and a complete length prefix means bytes still to come |
| LinkInvariants.PrefixOverrunIsDead | lib/ipc/include/ipc.hpp:625-637 | the overrun branch behind a complete length prefix is never taken: only a full receive queue counts an overrun there |
| LinkInvariants.BytesGood | lib/ipc/include/ipc.hpp:578-654 | any bytes keep the bounds |
| LinkInvariants.FlushTakesPrefix | lib/ipc/include/ipc.hpp:131-143 | a flush transmits and removes exactly the longest prefix of the queue that the adapter takes |
| Buffers.RingPush | lib/ipc/include/ipc.hpp:276-280 | writing the slot at the head appends to the ring's items |
| Buffers.RingQueue.Push | lib/ipc/include/ipc.hpp:276-280 | head, tail and count keep head = (tail + count) mod 8 and the item is appended |
| Buffers.RingQueue.Pop | lib/ipc/include/ipc.hpp:139-140 | the oldest item is removed |
| Buffers.ReassemblyState.Append | lib/ipc/include/ipc.hpp:464-465 | a chunk is copied behind the bytes received so far |
| IpcLink.IPCLink.constructor | lib/ipc/include/ipc.hpp:71-87 | a new link is empty, idle and valid |
| IpcLink.IPCLink.OnRawByte | lib/ipc/include/ipc.hpp:89-103 | one byte changes the state as the state machine says, in each of the three modes |
| IpcLink.IPCLink.OnRawByteCobs | lib/ipc/include/ipc.hpp:591-605 | the COBS receiver's step |
| IpcLink.IPCLink.OnRawByteLengthPrefixed | lib/ipc/include/ipc.hpp:607-637 | the length-prefix receiver's step |
| IpcLink.IPCLink.HandleCompleteFrame | lib/ipc/include/ipc.hpp:645-654 | a frame is decoded and delivered, or counted as a framing error |
| IpcLink.IPCLink.StoreFragment | lib/ipc/include/ipc.hpp:436-479 | a fragment changes buffer and counters according to the verdict on it |
| IpcLink.IPCLink.HandleFragmentFrame | lib/ipc/include/ipc.hpp:431-482 | a fragment has the effect that the state machine gives it, redelivery included, and the recursion terminates |
| IpcLink.IPCLink.DeliverRawFrame | lib/ipc/include/ipc.hpp:578-589 | a raw frame has the effect that the state machine gives it |
| IpcLink.IPCLink.ExtractPayloadFromRaw | lib/ipc/include/ipc.hpp:537-576 | the payload is extracted, or the right error counted |
| IpcLink.IPCLink.DeliverPayload | lib/ipc/include/ipc.hpp:484-494 | a payload is counted, and queued or handed to the callback |
| IpcLink.IPCLink.QueuePayload | lib/ipc/include/ipc.hpp:284-298 | a payload is queued, or counted as an overrun |
| IpcLink.IPCLink.Receive | lib/ipc/include/ipc.hpp:145-161 | the oldest queued payload is returned if it fits, and stays queued otherwise |
| IpcLink.IPCLink.DrainRxQueue | lib/ipc/include/ipc.hpp:496-507 | all queued payloads are handed to the callback in order |
| IpcLink.IPCLink.BuildRawFrame | lib/ipc/include/ipc.hpp:509-535 | the raw frame is the payload, with its CRC behind it if configured |
| IpcLink.IPCLink.BuildFragment | lib/ipc/include/ipc.hpp:393-406 | the buffer holds the fragment for this offset |
| IpcLink.IPCLink.SendFragments | lib/ipc/include/ipc.hpp:391-416 | the loop sends the fragments as the state machine says |
| IpcLink.IPCLink.SendFragmentedRawFrame | lib/ipc/include/ipc.hpp:378-417 | a fragmented send, its refusals included |
| IpcLink.IPCLink.SendRawFrame | lib/ipc/include/ipc.hpp:329-359 | a raw frame is framed and sent or queued |
| IpcLink.IPCLink.SendPhysicalFrame | lib/ipc/include/ipc.hpp:300-319 | a frame within the limit goes to the adapter, and the outcome is counted |
| IpcLink.IPCLink.EnqueuePhysicalFrame | lib/ipc/include/ipc.hpp:270-282 | a frame is queued, or counted as an overrun |
| IpcLink.IPCLink.Send | lib/ipc/include/ipc.hpp:113-129 | a send, and its result for missing or oversized payloads |
| IpcLink.IPCLink.SendAsync | lib/ipc/include/ipc.hpp:166-172 | a send through the queue that leaves the configuration as it was |
| IpcLink.IPCLink.FlushTx | lib/ipc/include/ipc.hpp:131-143 | the flush loop |
| IpcLink.IPCLink.Process | lib/ipc/include/ipc.hpp:105-111 | one turn: polled bytes, flush, drain |
| IpcLink.IPCLink.SetConfig | lib/ipc/include/ipc.hpp:183-196 | a new configuration resets everything but statistics and sequence number |
| Messages.ParseInvertsEncode | lib/ipc/src/transport/can/can_communication.cpp:93-136 | a payload parses to a message exactly if it is that message's encoding |
| Messages.ArrivesIff | lib/ipc/src/transport/uart/uart_communication.cpp:41-53 | a message arrives, once and whole, exactly if its raw frame does not look like a fragment; otherwise nothing arrives |
| Messages.FragmentLookalikes | lib/ipc/src/transport/can/can_communication.cpp:103-110 | which messages have such raw frames |
| Messages.PollIsTurn | lib/ipc/src/transport/uart/uart_communication.cpp:55-65 | a poll leaves the receiving side as the link's turn does, and the callback gets the messages for the node among everything that the turn hands over |
| Messages.PollTransmits | lib/ipc/src/transport/uart/uart_communication.cpp:55-65 | answers that were queued are sent in the same poll, and nothing stays queued |
| Messages.PollsFollow | lib/ipc/src/transport/uart/uart_communication.cpp:55-65 | over any sequence of polls a node handles the messages that the link alone would have delivered from all bytes at once, and sends the answers to them |
| Messages.EndToEnd | lib/ipc/src/transport/can/can_communication.cpp:93-154 | whatever messages a node sends, and however their bytes are split over polls, the peer's callback receives exactly those addressed to it or to all that fit and are no lookalikes, once each, equal and in order |
| Messages.Exchange | lib/ipc/src/transport/uart/uart_communication.cpp:143-175 | of any messages sent, the peer's callback receives those for it while it is polled; a node that sends under its own id gets one reply for each request that the peer's handlers answer, in order, from the peer to itself, with the handler's data |
| Messages.AnswerIff | lib/ipc/src/transport/uart/uart_communication.cpp:154-175 | exactly state requests with a state handler that returns data, and commands with a command handler, are answered: from this node to the one that asked, with the right type and the handler's data |
| Messages.ConfigurationsInUse | lib/ipc/include/ipc.hpp:55-61 | the UART and the CAN FD configuration, and the buffer sizes that go with messages, meet the conditions of the theorems |
| Messages.ResponseCarries | lib/ipc/include/protocol.hpp:93-106 | a command response carries ids, type and status, and all data exactly if there are at most 255 bytes, 254 bytes of any more |
| Messages.FactoryFields | lib/ipc/include/protocol.hpp:54-91 | the other factories make messages with these ids, their own type and as much of the data as fits |
| Messages.EncodingLayout | lib/ipc/src/transport/can/can_communication.cpp:93-114 | every byte of an encoded message |
| Communications.Communication.EncodeMessagePayload | lib/ipc/src/transport/can/can_communication.cpp:93-114 | the buffer holds the message's encoding, unless message or buffer has the wrong size |
| Communications.Communication.HandleRawPayload | lib/ipc/src/transport/can/can_communication.cpp:116-136 | a payload that parses is handled as its message, any other is dropped |
| Communications.Communication.HandleIncomingMessage | lib/ipc/src/transport/can/can_communication.cpp:145-177 | a message for this node goes to the callback and is answered by the handlers |
| Communications.Communication.SendMessage | lib/ipc/src/transport/uart/uart_communication.cpp:41-53 | a message is encoded and sent over the link, whose result is returned |
| Communications.Communication.Poll | lib/ipc/src/transport/uart/uart_communication.cpp:55-65 | one turn of the link, every payload being handled and answered at the byte that delivers it |
| RxRing.Ring.PushRxByte | lib/ipc/src/transport/uart/stm32_uart_adapter.cpp:183-192 | a byte is appended, or counted as an overrun exactly when 255 are pending |
| RxRing.Ring.PopRxByte | lib/ipc/src/transport/uart/stm32_uart_adapter.cpp:194-202 | the oldest byte is removed and returned, if there is one |
| RxRing.Ring.Poll | lib/ipc/src/transport/uart/stm32_uart_adapter.cpp:91-98 | the handler receives all pending bytes in order |
| RxRing.StepKeeps | lib/ipc/src/transport/uart/stm32_uart_adapter.cpp:183-202 | every single read or write of interrupt and main loop keeps the ring's invariant |
| RxRing.LockFree | lib/ipc/src/transport/uart/stm32_uart_adapter.cpp:183-202 | under every interleaving, popped bytes are a prefix of accepted ones, which arrived in that order; at most 255 are pending, every byte is accepted, counted as an overrun or in flight, and an overrun is counted exactly when the interrupt finds 255 pending |
| RxRing.UndisturbedPush | lib/ipc/src/transport/uart/stm32_uart_adapter.cpp:183-192 | the steps of an undisturbed push have the effect of the push |
| RxRing.UndisturbedPop | lib/ipc/src/transport/uart/stm32_uart_adapter.cpp:194-202 | the steps of an undisturbed pop have the effect of the pop |

## Left out

- Wrap-around of the 32-bit statistics: counters are natural numbers.
- Callbacks that re-enter the link, other than by sending messages: `handed` logs the callback's calls. A node handles a
  call after the byte that led to it, where the code does so within that byte; since sending and receiving share
  nothing but counters (`BytesAlike`, `SendsAlike`), the state is the same.
- Mixing direct and queued sends while frames are pending can reorder frames; the theorems about whole streams are for
  direct sends, and `QueuedSend` and `QueuedSendFlushes` for an empty queue.
- Raw stream mode is part of the state machine and the class, but without framing there is no round trip to state.
- SendFragmentedRawFrame: requires a raw frame that needs fragmentation, as its only caller ensures; a fragment of a shorter
  one could exceed its buffer.
- SafeIff: with chunks of one byte, that only sent payloads can be put together does not suffice by itself, because a
  frame put together from several sends could be taken for a fragment; `NoLookalikes` rules that out.
- The fragment header carries no source, so the safety of reassembly is for one sending link.
- BurstRejected: the check comes after the test for a fragment, so that a burst that turns the first two bytes into the
  magic pair makes the raw frame a fragment instead; the burst must lie in the payload part, as the CRC field has its
  bytes in the other order.
- Overlapping input and output buffers of the COBS functions: no caller passes any. Bytes that a failed call leaves in the output
  buffer are not specified.
- Stale bytes in the slots of a queue, beyond the length of the item in them: a slot holds the item's bytes.
- Null `out_len` pointers, and `init` not having been called: the model's results are values, and a node is constructed
  ready.
- `STM32UARTAdapter` beyond the receive ring: HAL set-up, transmission, error interrupts, and the mode that hands bytes over
  within the interrupt. Reads and writes of one index are taken to be atomic, as `volatile size_t` is on that target. Only
  the indices are volatile (`lib/ipc/include/adapters/stm32_uart_adapter.hpp:59-61`): that a byte is stored before the
  head is advanced, and fetched before the tail is, is an assumption of the step model.
- The CAN, RS-485 and Arduino adapters, the RS-485 message layer (a copy of the UART one), `codec.hpp` (the same pipeline
  without state), the packet protocol and master/slave layers (placeholders), loggers and mocks.
