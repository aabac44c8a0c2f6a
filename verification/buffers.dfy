/** The fixed buffers of a link: copying between arrays, and the ring of eight queued items. */
module Buffers {
  import opened Bytes
  import opened LinkModel

  /** `memcpy` between two different arrays. */
  method Copy(src: array<byte>, from: nat, dst: array<byte>, to: nat, n: nat)
    requires src != dst && from + n <= src.Length && to + n <= dst.Length
    modifies dst
    ensures dst[to..to+n] == src[from..from+n]
    ensures dst[..to] == old(dst[..to]) && dst[to+n..] == old(dst[to+n..])
  {
    forall k | 0 <= k < n {
      dst[to + k] := src[from + k];
    }
  }

  /** An index one round ahead at most, brought back into the ring. */
  function Wrap(i: nat): (w: nat)
    requires i < 2 * QUEUE_DEPTH
    ensures w < QUEUE_DEPTH && w == i % QUEUE_DEPTH
  {
    if i < QUEUE_DEPTH then i else i - QUEUE_DEPTH
  }

  /** The `count` items of a ring with these slots, from index `tail` on. */
  function RingItems(slots: seq<bytes>, tail: nat, count: nat): (items: seq<bytes>)
    requires |slots| == QUEUE_DEPTH && tail < QUEUE_DEPTH && count <= QUEUE_DEPTH
    ensures |items| == count
    decreases count
  {
    if count == 0 then [] else [slots[tail]] + RingItems(slots, Wrap(tail + 1), count - 1)
  }

  lemma {:induction false} RingAt(slots: seq<bytes>, tail: nat, count: nat, i: nat)
    requires |slots| == QUEUE_DEPTH && tail < QUEUE_DEPTH && i < count <= QUEUE_DEPTH
    ensures RingItems(slots, tail, count)[i] == slots[Wrap(tail + i)]
    decreases i
  {
    if i > 0 {
      RingAt(slots, Wrap(tail + 1), count - 1, i - 1);
    }
  }

  lemma RingPush(slots: seq<bytes>, tail: nat, count: nat, x: bytes)
    requires |slots| == QUEUE_DEPTH && tail < QUEUE_DEPTH && count < QUEUE_DEPTH
    ensures RingItems(slots[Wrap(tail + count) := x], tail, count + 1) == RingItems(slots, tail, count) + [x]
  {
    hide RingItems;
    var after := slots[Wrap(tail + count) := x];
    forall i | 0 <= i < count + 1
      ensures RingItems(after, tail, count + 1)[i] == (RingItems(slots, tail, count) + [x])[i]
    {
      RingAt(after, tail, count + 1, i);
      if i < count {
        RingAt(slots, tail, count, i);
      }
    }
  }

  /**
   A queue of `QueuedFrame`s or `QueuedPayload`s: a ring of slots with the index of the next free one,
   the index of the oldest item, and the number of items. An item is the `data[..len]` of its slot.
   */
  class RingQueue {
    const slots: array<bytes>
    var head: nat
    var tail: nat
    var count: nat

    ghost predicate Valid()
      reads this
    {
      slots.Length == QUEUE_DEPTH && tail < QUEUE_DEPTH && count <= QUEUE_DEPTH && head == Wrap(tail + count)
    }

    /** The queued items, oldest first. */
    ghost function Items(): (items: seq<bytes>)
      requires Valid()
      reads this, slots
      ensures |items| == count
    {
      RingItems(slots[..], tail, count)
    }

    constructor ()
      ensures Valid() && fresh(slots) && Items() == []
    {
      slots := new bytes[QUEUE_DEPTH];
      head, tail, count := 0, 0, 0;
    }

    method Push(x: bytes)
      requires Valid() && count < QUEUE_DEPTH
      modifies this, slots
      ensures Valid() && Items() == old(Items()) + [x]
    {
      hide RingItems;
      RingPush(slots[..], tail, count, x);
      ghost var before := slots[..];
      slots[head] := x;
      assert slots[..] == before[head := x];
      head := (head + 1) % QUEUE_DEPTH;
      count := count + 1;
    }

    method Front() returns (x: bytes)
      requires Valid() && count > 0
      ensures x == Items()[0]
    {
      return slots[tail];
    }

    method Pop()
      requires Valid() && count > 0
      modifies this
      ensures Valid() && Items() == old(Items())[1..]
    {
      tail := (tail + 1) % QUEUE_DEPTH;
      count := count - 1;
    }

    method Clear()
      requires slots.Length == QUEUE_DEPTH
      modifies this
      ensures Valid() && Items() == []
    {
      head, tail, count := 0, 0, 0;
    }
  }

  /** The reassembly buffer. */
  class ReassemblyState {
    var active: bool
    var seqNo: byte
    var totalLen: nat
    var receivedLen: nat
    const data: array<byte>

    ghost predicate Valid()
      reads this
    {
      receivedLen <= data.Length
    }

    ghost function Value(): Assembly
      requires Valid()
      reads this, data
    {
      Assembly(active, seqNo, totalLen, data[..receivedLen])
    }

    constructor (capacity: nat)
      ensures Valid() && fresh(data) && data.Length == capacity && Value() == IDLE
    {
      data := new byte[capacity];
      active, seqNo, totalLen, receivedLen := false, 0, 0, 0;
    }

    method Reset()
      modifies this
      ensures Valid() && Value() == IDLE
    {
      active, seqNo, totalLen, receivedLen := false, 0, 0, 0;
    }

    method Start(seqNo: byte, totalLen: nat)
      modifies this
      ensures Valid() && Value() == Assembly(true, seqNo, totalLen, [])
    {
      Reset();
      active := true;
      this.seqNo := seqNo;
      this.totalLen := totalLen;
    }

    /** Copies a chunk behind the bytes received so far. */
    method Append(raw: array<byte>, from: nat, n: nat)
      requires Valid() && raw != data && from + n <= raw.Length && receivedLen + n <= data.Length
      modifies this`receivedLen, data
      ensures Valid() && Value() == old(Value()).(data := old(Value()).data + raw[from..from+n])
    {
      Copy(raw, from, data, receivedLen, n);
      assert data[..receivedLen+n] == data[..receivedLen] + data[receivedLen..receivedLen+n];
      receivedLen := receivedLen + n;
    }
  }

  /**
   The device behind the link. It takes or refuses a frame as a whole; `accepts` says which it does
   with the frame of each transmission.
   */
  class Adapter {
    const accepts: nat -> bool
    var attempts: nat
    var sent: seq<bytes>

    constructor (accepts: nat -> bool)
      ensures this.accepts == accepts && attempts == 0 && sent == []
    {
      this.accepts := accepts;
      attempts, sent := 0, [];
    }

    method Send(data: array<byte>, len: nat) returns (n: nat)
      requires len <= data.Length
      modifies this
      ensures attempts == old(attempts) + 1
      ensures n == (if accepts(old(attempts)) then len else 0)
      ensures sent == if accepts(old(attempts)) then old(sent) + [data[..len]] else old(sent)
    {
      attempts := attempts + 1;
      if accepts(attempts - 1) {
        sent := sent + [data[..len]];
        return len;
      }
      return 0;
    }
  }
}
