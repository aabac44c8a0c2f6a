/**
 The receive ring between the UART interrupt and the main loop: as a queue when its operations run one
 after the other, and step by step when the interrupt comes in between.
 */
module RxRing {
  import opened Bytes

  const RING_SIZE := 256

  function Next(i: nat): (n: nat)
    requires i < RING_SIZE
    ensures n < RING_SIZE && n == (i + 1) % RING_SIZE
  {
    if i + 1 == RING_SIZE then 0 else i + 1
  }

  /** How many bytes lie from `tail` up to `head`. */
  function Count(head: nat, tail: nat): (n: nat)
    requires head < RING_SIZE && tail < RING_SIZE
    ensures n < RING_SIZE && (n == 0 <==> head == tail)
  {
    if head >= tail then head - tail else head + RING_SIZE - tail
  }

  /** The `n` bytes from index `tail` on. */
  function Slots(buffer: bytes, tail: nat, n: nat): (s: bytes)
    requires |buffer| == RING_SIZE && tail < RING_SIZE && n <= RING_SIZE
    ensures |s| == n
    decreases n
  {
    if n == 0 then [] else [buffer[tail]] + Slots(buffer, Next(tail), n - 1)
  }

  /** Writing at the head changes none of the bytes before it. */
  lemma {:induction false} WriteAtHead(buffer: bytes, head: nat, tail: nat, b: byte)
    requires |buffer| == RING_SIZE && head < RING_SIZE && tail < RING_SIZE
    ensures Slots(buffer[head := b], tail, Count(head, tail)) == Slots(buffer, tail, Count(head, tail))
    decreases Count(head, tail)
  {
    if head != tail {
      WriteAtHead(buffer, head, Next(tail), b);
    }
  }

  /** Moving the head on takes in the byte that was at the head. */
  lemma {:induction false} AdvanceHead(buffer: bytes, head: nat, tail: nat)
    requires |buffer| == RING_SIZE && head < RING_SIZE && tail < RING_SIZE && Next(head) != tail
    ensures Count(Next(head), tail) == Count(head, tail) + 1
    ensures Slots(buffer, tail, Count(head, tail) + 1) == Slots(buffer, tail, Count(head, tail)) + [buffer[head]]
    decreases Count(head, tail)
  {
    if head != tail {
      AdvanceHead(buffer, head, Next(tail));
    } else {
      assert Slots(buffer, Next(tail), 0) == [];
    }
  }

  // ---------------------------------------------------------------------------------------------
  // The operations one after the other

  class Ring {
    const buffer: array<byte>
    var head: nat
    var tail: nat
    var overruns: nat

    ghost predicate Valid()
      reads this
    {
      buffer.Length == RING_SIZE && head < RING_SIZE && tail < RING_SIZE
    }

    /** The bytes received and not yet polled. */
    ghost function Contents(): bytes
      requires Valid()
      reads this, buffer
    {
      Slots(buffer[..], tail, Count(head, tail))
    }

    constructor ()
      ensures Valid() && fresh(buffer) && Contents() == [] && overruns == 0
    {
      buffer := new byte[RING_SIZE];
      head, tail, overruns := 0, 0, 0;
    }

    /** The receive interrupt: a byte that finds 255 others pending is counted and dropped. */
    method PushRxByte(b: byte)
      requires Valid()
      modifies this`head, this`overruns, buffer
      ensures Valid()
      ensures |old(Contents())| < 255 ==> Contents() == old(Contents()) + [b] && overruns == old(overruns)
      ensures |old(Contents())| == 255 ==> Contents() == old(Contents()) && overruns == old(overruns) + 1
    {
      hide Slots;
      var nextHead := (head + 1) % RING_SIZE;
      assert nextHead == Next(head);
      if nextHead == tail {
        overruns := overruns + 1;
        return;
      }
      ghost var before := buffer[..];
      WriteAtHead(before, head, tail, b);
      buffer[head] := b;
      assert buffer[..] == before[head := b];
      AdvanceHead(buffer[..], head, tail);
      head := nextHead;
    }

    method PopRxByte() returns (ok: bool, b: byte)
      requires Valid()
      modifies this`tail
      ensures Valid() && ok == (old(Contents()) != [])
      ensures ok ==> b == old(Contents())[0] && Contents() == old(Contents())[1..]
      ensures !ok ==> Contents() == []
    {
      b := 0;
      if tail == head {
        return false, b;
      }
      b := buffer[tail];
      tail := (tail + 1) % RING_SIZE;
      ok := true;
    }

    /** Drains the ring; `handled` are the bytes passed to the receive handler. */
    method Poll() returns (handled: bytes)
      requires Valid()
      modifies this`tail
      ensures Valid() && handled == old(Contents()) && Contents() == []
    {
      handled := [];
      var ok, b := PopRxByte();
      while ok
        invariant Valid() && (if ok then handled + [b] + Contents() else handled) == old(Contents())
        invariant !ok ==> Contents() == []
        decreases if ok then 1 + |Contents()| else 0
      {
        handled := handled + [b];
        ghost var rest := Contents();
        ok, b := PopRxByte();
        assert ok ==> [b] + Contents() == rest;
      }
    }
  }

  // ---------------------------------------------------------------------------------------------
  // Every read and write a step of its own

  /** Where the interrupt is in `push_rx_byte_`. */
  datatype Producer =
    | Quiet
    | Arrived(b: byte)               // before rx_tail_ is read
    | Checked(b: byte, next: nat)    // there is room; before the byte is stored
    | Written(b: byte, next: nat)    // before rx_head_ is advanced

  /** Where the main loop is in `pop_rx_byte_`. */
  datatype Consumer =
    | Away
    | Checking                       // before rx_head_ is read
    | Nonempty                       // before the byte is fetched
    | Fetched(b: byte)               // before rx_tail_ is advanced

  datatype State = State(
    buffer: bytes, head: nat, tail: nat, overruns: nat, producer: Producer, consumer: Consumer,
    arrived: bytes,    // bytes for which the interrupt was raised
    accepted: bytes,   // bytes that were stored
    popped: bytes)     // bytes that `pop_rx_byte_` returned

  datatype Step = Interrupt(b: byte) | ProducerStep | CallPop | ConsumerStep

  /** One step; a step that is not possible changes nothing. */
  function Take(s: State, step: Step): State
    requires Shaped(s)
  {
    match step
    case Interrupt(b) =>
      if s.producer.Quiet? then s.(producer := Arrived(b), arrived := s.arrived + [b]) else s
    case ProducerStep =>
      (match s.producer
       case Quiet => s
       case Arrived(b) =>
         if Next(s.head) == s.tail then s.(producer := Quiet, overruns := s.overruns + 1)
         else s.(producer := Checked(b, Next(s.head)))
       case Checked(b, next) => s.(producer := Written(b, next), buffer := s.buffer[s.head := b])
       case Written(b, next) => s.(producer := Quiet, head := next, accepted := s.accepted + [b]))
    case CallPop =>
      if s.consumer.Away? then s.(consumer := Checking) else s
    case ConsumerStep =>
      (match s.consumer
       case Away => s
       case Checking => if s.tail == s.head then s.(consumer := Away) else s.(consumer := Nonempty)
       case Nonempty => s.(consumer := Fetched(s.buffer[s.tail]))
       case Fetched(b) => s.(consumer := Away, tail := Next(s.tail), popped := s.popped + [b]))
  }

  predicate Shaped(s: State) {
    && |s.buffer| == RING_SIZE && s.head < RING_SIZE && s.tail < RING_SIZE
    && (s.producer.Checked? || s.producer.Written? ==> s.producer.next < RING_SIZE)
  }

  function Pending(s: State): bytes
    requires Shaped(s)
  {
    Slots(s.buffer, s.tail, Count(s.head, s.tail))
  }

  /** The byte that the interrupt is working on. */
  function InFlight(p: Producer): bytes {
    if p.Quiet? then [] else [p.b]
  }

  /**
   What holds between any two steps. The producer, once it has seen room, keeps it, because the
   consumer only makes more; the consumer, once it has seen a byte, keeps it.
   */
  ghost predicate Inv(s: State) {
    && Shaped(s)
    && s.accepted == s.popped + Pending(s)
    && (s.producer.Checked? || s.producer.Written? ==> s.producer.next == Next(s.head) != s.tail)
    && (s.producer.Written? ==> s.buffer[s.head] == s.producer.b)
    && (s.consumer.Nonempty? || s.consumer.Fetched? ==> s.tail != s.head)
    && (s.consumer.Fetched? ==> s.consumer.b == s.buffer[s.tail])
    && |s.arrived| == |s.accepted| + |InFlight(s.producer)| + s.overruns
    && Within(s.accepted + InFlight(s.producer), s.arrived)
  }

  lemma {:induction false} WithinFront(a: bytes, x: bytes, b: bytes)
    requires Within(a + x, b)
    ensures Within(a, b)
    decreases |b|
  {
    if a != [] && b != [] {
      assert (a + x)[1..] == a[1..] + x;
      if a[0] == b[0] && Within((a + x)[1..], b[1..]) {
        WithinFront(a[1..], x, b[1..]);
      } else {
        WithinFront(a, x, b[1..]);
      }
    }
  }

  lemma InterruptKeeps(s: State, b: byte)
    requires Inv(s)
    ensures Inv(Take(s, Interrupt(b)))
  {
    hide Slots, Within;
    if s.producer.Quiet? {
      assert s.accepted + [] == s.accepted;
      WithinSelf([b]);
      WithinConcat(s.accepted, s.arrived, [b], [b]);
    }
  }

  lemma ProducerKeeps(s: State)
    requires Inv(s)
    ensures Inv(Take(s, ProducerStep))
  {
    hide Slots, Within;
    match s.producer
    case Quiet =>
    case Arrived(b) =>
      WithinFront(s.accepted, [b], s.arrived);
      assert s.accepted + [] == s.accepted;
    case Checked(b, next) =>
      WriteAtHead(s.buffer, s.head, s.tail, b);
    case Written(b, next) =>
      AdvanceHead(s.buffer, s.head, s.tail);
      assert s.accepted + [b] + [] == s.accepted + [b];
      assert s.popped + (Pending(s) + [b]) == s.popped + Pending(s) + [b];
  }

  lemma ConsumerKeeps(s: State)
    requires Inv(s)
    ensures Inv(Take(s, ConsumerStep))
  {
    hide Within;
    if s.consumer.Fetched? {
      var b := s.consumer.b;
      assert Pending(s) == [b] + Slots(s.buffer, Next(s.tail), Count(s.head, s.tail) - 1);
      assert s.popped + ([b] + Pending(s)[1..]) == s.popped + [b] + Pending(s)[1..];
    }
  }

  lemma StepKeeps(s: State, step: Step)
    requires Inv(s)
    ensures Inv(Take(s, step))
  {
    hide Slots, Within;
    match step
    case Interrupt(b) => InterruptKeeps(s, b);
    case ProducerStep => ProducerKeeps(s);
    case CallPop =>
    case ConsumerStep => ConsumerKeeps(s);
  }

  /** A schedule of steps, from a state that satisfies the invariant. */
  ghost function Play(s: State, schedule: seq<Step>): State
    requires Inv(s)
    decreases |schedule|
  {
    if schedule == [] then s
    else
      StepKeeps(s, schedule[0]);
      Play(Take(s, schedule[0]), schedule[1..])
  }

  lemma {:induction false} PlayKeeps(s: State, schedule: seq<Step>)
    requires Inv(s)
    ensures Inv(Play(s, schedule))
    decreases |schedule|
  {
    hide Slots, Within;
    if schedule != [] {
      StepKeeps(s, schedule[0]);
      PlayKeeps(Take(s, schedule[0]), schedule[1..]);
    }
  }

  function Empty(buffer: bytes): State {
    State(buffer, 0, 0, 0, Quiet, Away, [], [], [])
  }

  lemma EmptyInv(buffer: bytes)
    requires |buffer| == RING_SIZE
    ensures Inv(Empty(buffer))
  {
  }

  /**
   However the interrupt and the main loop interleave: what was popped is a prefix of what was
   accepted, the rest of it is pending, no more than 255 bytes are; what was accepted arrived in that
   order; and every byte that arrived was accepted, counted as an overrun, or is being handled. Whatever
   step comes next, it counts an overrun exactly if the interrupt finds 255 bytes pending, and
   `pop_rx_byte_` gives up exactly if it finds none.
   */
  lemma LockFree(buffer: bytes, schedule: seq<Step>, step: Step)
    requires |buffer| == RING_SIZE
    ensures Inv(Empty(buffer))
    ensures var s := Play(Empty(buffer), schedule);
      && Shaped(s)
      && s.popped <= s.accepted && s.accepted[|s.popped|..] == Pending(s) && |Pending(s)| <= 255
      && Within(s.accepted, s.arrived)
      && |s.arrived| == |s.accepted| + s.overruns + |InFlight(s.producer)| <= |s.accepted| + s.overruns + 1
      && (Take(s, step).overruns > s.overruns <==>
           step.ProducerStep? && s.producer.Arrived? && |Pending(s)| == 255)
      && (step.ConsumerStep? && s.consumer.Checking? ==> (Take(s, step).consumer.Away? <==> Pending(s) == []))
  {
    hide Slots, Within;
    EmptyInv(buffer);
    PlayKeeps(Empty(buffer), schedule);
    var s := Play(Empty(buffer), schedule);
    WithinFront(s.accepted, InFlight(s.producer), s.arrived);
  }

  // ---------------------------------------------------------------------------------------------
  // The steps of one call, undisturbed

  lemma PlayOne(s: State, step: Step, rest: seq<Step>)
    requires Inv(s)
    ensures Inv(Take(s, step)) && Play(s, [step] + rest) == Play(Take(s, step), rest)
  {
    hide Inv;
    StepKeeps(s, step);
    assert ([step] + rest)[1..] == rest;
  }

  /** An undisturbed push has the effect that `PushRxByte` has on the queue. */
  lemma UndisturbedPush(s: State, b: byte)
    requires Inv(s) && s.producer.Quiet?
    ensures var t := Play(s, [Interrupt(b), ProducerStep, ProducerStep, ProducerStep]);
      && Shaped(t) && t.producer.Quiet? && t.tail == s.tail
      && (|Pending(s)| < 255 ==> Pending(t) == Pending(s) + [b] && t.overruns == s.overruns)
      && (|Pending(s)| == 255 ==> Pending(t) == Pending(s) && t.overruns == s.overruns + 1)
  {
    hide Slots, Within;
    PlayOne(s, Interrupt(b), [ProducerStep, ProducerStep, ProducerStep]);
    var s1 := Take(s, Interrupt(b));
    PlayOne(s1, ProducerStep, [ProducerStep, ProducerStep]);
    var s2 := Take(s1, ProducerStep);
    PlayOne(s2, ProducerStep, [ProducerStep]);
    var s3 := Take(s2, ProducerStep);
    PlayOne(s3, ProducerStep, []);
    var s4 := Take(s3, ProducerStep);
    assert [Interrupt(b)] + [ProducerStep, ProducerStep, ProducerStep] == [Interrupt(b), ProducerStep, ProducerStep, ProducerStep];
    assert [ProducerStep] + [ProducerStep, ProducerStep] == [ProducerStep, ProducerStep, ProducerStep];
    assert [ProducerStep] + [ProducerStep] == [ProducerStep, ProducerStep] && [ProducerStep] + [] == [ProducerStep];
    if Next(s.head) != s.tail {
      WriteAtHead(s.buffer, s.head, s.tail, b);
      AdvanceHead(s.buffer[s.head := b], s.head, s.tail);
    }
  }

  /** The pending bytes are the one at the tail, and those behind it. */
  lemma OldestFirst(buffer: bytes, head: nat, tail: nat)
    requires |buffer| == RING_SIZE && head < RING_SIZE && tail < RING_SIZE && head != tail
    ensures Count(head, Next(tail)) == Count(head, tail) - 1
    ensures Slots(buffer, tail, Count(head, tail)) == [buffer[tail]] + Slots(buffer, Next(tail), Count(head, tail) - 1)
  {
  }

  /** An undisturbed pop has the effect that `PopRxByte` has on the queue. */
  lemma UndisturbedPop(s: State)
    requires Inv(s) && s.consumer.Away?
    ensures var t := Play(s, [CallPop, ConsumerStep, ConsumerStep, ConsumerStep]);
      && Shaped(t) && t.consumer.Away?
      && (Pending(s) != [] ==> Pending(t) == Pending(s)[1..] && t.popped == s.popped + [Pending(s)[0]])
      && (Pending(s) == [] ==> Pending(t) == [] && t.popped == s.popped)
  {
    hide Within, Slots;
    if Pending(s) != [] {
      OldestFirst(s.buffer, s.head, s.tail);
    }
    PlayOne(s, CallPop, [ConsumerStep, ConsumerStep, ConsumerStep]);
    var s1 := Take(s, CallPop);
    PlayOne(s1, ConsumerStep, [ConsumerStep, ConsumerStep]);
    var s2 := Take(s1, ConsumerStep);
    PlayOne(s2, ConsumerStep, [ConsumerStep]);
    var s3 := Take(s2, ConsumerStep);
    PlayOne(s3, ConsumerStep, []);
    assert [CallPop] + [ConsumerStep, ConsumerStep, ConsumerStep] == [CallPop, ConsumerStep, ConsumerStep, ConsumerStep];
    assert [ConsumerStep] + [ConsumerStep, ConsumerStep] == [ConsumerStep, ConsumerStep, ConsumerStep];
    assert [ConsumerStep] + [ConsumerStep] == [ConsumerStep, ConsumerStep] && [ConsumerStep] + [] == [ConsumerStep];
  }
}
