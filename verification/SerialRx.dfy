/** Interrupt-driven serial reception: a 64-slot ring that drops its oldest byte when it
    is full, filled by the interrupt handler and emptied by the reading thread. */
module SerialRx {
  import opened Common
  import opened RingBuffer

  const SLOTS: nat := 64              // UART_RX_BUFFER_SIZE
  const CAPACITY: nat := SLOTS - 1

  // ----- the queue the ring stands for

  /** Every byte that arrived, the bytes waiting to be read, and the positions (in
      arrival order) of the bytes read so far. */
  datatype State = State(arrived: seq<byte>, queue: seq<byte>, taken: seq<nat>)

  datatype Event = Byte(b: byte) | ReadOne

  function Init(): State { State([], [], []) }

  function Step(s: State, e: Event): State
  {
    match e
    case Byte(b) =>
      State(s.arrived + [b], if |s.queue| < CAPACITY then s.queue + [b] else (s.queue + [b])[1..], s.taken)
    case ReadOne =>
      if s.queue == [] || |s.arrived| < |s.queue| then s
      else s.(queue := s.queue[1..], taken := s.taken + [|s.arrived| - |s.queue|])
  }

  function Run(s: State, es: seq<Event>): State
  {
    if es == [] then s else Step(Run(s, es[..|es| - 1]), es[|es| - 1])
  }

  lemma ThenRun(s: State, es: seq<Event>, e: Event)
    ensures Run(s, es + [e]) == Step(Run(s, es), e)
  {
    assert (es + [e])[..|es|] == es;
  }

  /** The position after the last byte read. */
  function NextUnread(s: State): nat
  {
    if s.taken == [] then 0 else s.taken[|s.taken| - 1] + 1
  }

  function Max(a: int, b: int): int { if a < b then b else a }

  /** The queue holds the newest unread bytes, at most 63 of them, and nothing else. */
  predicate HoldsNewest(s: State)
  {
    NextUnread(s) <= |s.arrived| &&
    s.queue == s.arrived[Max(NextUnread(s), |s.arrived| - CAPACITY)..]
  }

  predicate Ascending(s: seq<nat>) { forall i, j :: 0 <= i < j < |s| ==> s[i] < s[j] }

  /** Bytes are read in arrival order, none twice. */
  predicate TakenInOrder(s: State)
  {
    Ascending(s.taken) &&
    forall i :: 0 <= i < |s.taken| ==> s.taken[i] < |s.arrived|
  }

  lemma StepKeeps(s: State, e: Event)
    requires HoldsNewest(s) && TakenInOrder(s)
    ensures HoldsNewest(Step(s, e)) && TakenInOrder(Step(s, e))
  {
    match e
    case Byte(b) => ByteKeeps(s, b);
    case ReadOne => ReadKeeps(s);
  }

  lemma ByteKeeps(s: State, b: byte)
    requires HoldsNewest(s) && TakenInOrder(s)
    ensures HoldsNewest(Step(s, Byte(b))) && TakenInOrder(Step(s, Byte(b)))
  {
    var start := Max(NextUnread(s), |s.arrived| - CAPACITY);
    assert (s.arrived + [b])[start..] == s.queue + [b];
    assert (s.queue + [b])[1..] == (s.arrived + [b])[start + 1..];
  }

  lemma ReadKeeps(s: State)
    requires HoldsNewest(s) && TakenInOrder(s)
    ensures HoldsNewest(Step(s, ReadOne)) && TakenInOrder(Step(s, ReadOne))
  {
  }

  /** In every interleaving of arriving bytes and single reads the queue is the newest
      unread bytes, and what has been read is a subsequence of what arrived. */
  lemma {:induction false} QueueIsNewestUnread(es: seq<Event>)
    ensures HoldsNewest(Run(Init(), es)) && TakenInOrder(Run(Init(), es))
    ensures |Run(Init(), es).queue| <= 63
  {
    if es != [] {
      QueueIsNewestUnread(es[..|es| - 1]);
      StepKeeps(Run(Init(), es[..|es| - 1]), es[|es| - 1]);
    }
  }

  /** A byte is lost only by being the oldest of 63 unread bytes when another one arrives. */
  lemma OnlyOldestIsLost(es: seq<Event>, e: Event)
    ensures var s, s' := Run(Init(), es), Step(Run(Init(), es), e);
            s'.queue == s.queue + s'.arrived[|s.arrived|..] ||
            (e.ReadOne? && s.queue != [] && s.queue == [s.queue[0]] + s'.queue &&
             s'.taken[|s.taken|] < |s.arrived| && s.arrived[s'.taken[|s.taken|]] == s.queue[0]) ||
            (e.Byte? && |s.queue| == 63 && s'.queue == (s.queue + [e.b])[1..])
  {
    QueueIsNewestUnread(es);
    var s := Run(Init(), es);
    if e.Byte? {
      assert (s.arrived + [e.b])[|s.arrived|..] == [e.b];
    } else if s.queue == [] {
      assert Step(s, e).arrived[|s.arrived|..] == [];
    }
  }

  // ----- the driver

  /** out starts with the arrivals at the given positions. */
  predicate CopiedFrom(out: seq<byte>, positions: seq<nat>, arrived: seq<byte>)
  {
    |positions| <= |out| &&
    forall i :: 0 <= i < |positions| ==> positions[i] < |arrived| && out[i] == arrived[positions[i]]
  }

  lemma ThenRead(es: seq<Event>)
    requires Run(Init(), es).queue != []
    ensures var s := Run(Init(), es);
            var p := |s.arrived| - |s.queue|;
            0 <= p < |s.arrived| && s.arrived[p] == s.queue[0] &&
            Run(Init(), es + [ReadOne]) == State(s.arrived, s.queue[1..], s.taken + [p])
  {
    QueueIsNewestUnread(es);
    ThenRun(Init(), es, ReadOne);
  }

  lemma QueueLength(buf: seq<byte>, read: nat, save: nat)
    requires read < |buf| && save < |buf|
    ensures |Contents(buf, read, save)| == if read > save then |buf| - read + save else save - read
  {
  }

  class Receiver {
    const buffer: array<byte>
    var readIndex: nat
    var saveIndex: nat
    ghost var arrived: seq<byte>
    ghost var taken: seq<nat>
    ghost var history: seq<Event>

    ghost predicate InRange()
      reads this
    {
      buffer.Length == SLOTS && readIndex < SLOTS && saveIndex < SLOTS
    }

    ghost function Queue(): seq<byte>
      requires InRange()
      reads this, buffer
    {
      Contents(buffer[..], readIndex, saveIndex)
    }

    ghost predicate Valid()
      reads this, buffer
    {
      InRange() && State(arrived, Queue(), taken) == Run(Init(), history)
    }

    /** rt_serial_init. */
    constructor ()
      ensures Valid() && fresh(buffer) && history == []
    {
      buffer := new byte[SLOTS](_ => 0);
      readIndex, saveIndex := 0, 0;
      arrived, taken, history := [], [], [];
    }

    /** One turn of the handler's loop, a critical section. */
    method Save(b: byte)
      requires Valid()
      modifies this, buffer
      ensures Valid() && history == old(history) + [Byte(b)] && taken == old(taken)
      ensures arrived == old(arrived) + [b]
      ensures var q := old(Queue()) + [b]; Queue() == if |q| <= CAPACITY then q else q[1..]
    {
      hide Run;
      ThenRun(Init(), history, Byte(b));
      SaveAppends(buffer[..], readIndex, saveIndex, b);
      ghost var was := buffer[..];
      buffer[saveIndex] := b;
      assert buffer[..] == was[saveIndex := b];
      saveIndex := saveIndex + 1;
      if saveIndex >= SLOTS {
        saveIndex := 0;
      }
      if saveIndex == readIndex {
        readIndex := readIndex + 1;
        if readIndex >= SLOTS {
          readIndex := 0;
        }
      }
      arrived, history := arrived + [b], history + [Byte(b)];
    }

    function Bytes(bs: seq<byte>): seq<Event>
    {
      seq(|bs|, i requires 0 <= i < |bs| => Byte(bs[i]))
    }

    /** rt_hw_serial_isr: saves what the receiver holds and reports the queue's length. */
    method Isr(fifo: seq<byte>) returns (rxLength: nat)
      requires Valid()
      modifies this, buffer
      ensures Valid() && taken == old(taken) && arrived == old(arrived) + fifo
      ensures history == old(history) + Bytes(fifo) && rxLength == |Queue()|
    {
      hide Run, Contents;
      for i := 0 to |fifo|
        invariant Valid() && taken == old(taken) && arrived == old(arrived) + fifo[..i]
        invariant history == old(history) + Bytes(fifo[..i])
      {
        Save(fifo[i]);
        assert fifo[..i + 1] == fifo[..i] + [fifo[i]];
        assert Bytes(fifo[..i + 1]) == Bytes(fifo[..i]) + [Byte(fifo[i])];
      }
      assert fifo[..|fifo|] == fifo;
      QueueLength(buffer[..], readIndex, saveIndex);
      rxLength := if readIndex > saveIndex then SLOTS - readIndex + saveIndex else saveIndex - readIndex;
    }

    /** rt_serial_read in interrupt mode. Before each turn of its loop the handler may run
        with whatever the receiver holds. Every byte stored comes from its own position
        of the arrivals, later than all before, and the read ends early only on an empty queue. */
    method Read(out: array<byte>, size: nat, arrivals: nat -> seq<byte>)
      returns (count: nat, empty: bool, ghost positions: seq<nat>)
      requires Valid() && size <= out.Length && out != buffer
      modifies this, buffer, out
      ensures Valid() && count <= size && (empty <==> count < size) && (empty ==> Queue() == [])
      ensures old(arrived) <= arrived && taken == old(taken) + positions
      ensures count == |positions| && CopiedFrom(out[..], positions, arrived) && Ascending(old(taken) + positions)
      ensures forall i :: count <= i < out.Length ==> out[i] == old(out[i])
    {
      hide Run;
      count, empty, positions := 0, false, [];
      var left := size;
      while left > 0
        invariant Valid() && count + left == size
        invariant old(arrived) <= arrived && taken == old(taken) + positions
        invariant count == |positions| && CopiedFrom(out[..], positions, arrived)
        invariant forall i :: count <= i < out.Length ==> out[i] == old(out[i])
        invariant !empty
        decreases left
      {
        var _ := Isr(arrivals(count));
        if readIndex != saveIndex {
          ghost var before := taken;
          var b := TakeOne();
          ghost var p: nat :| p < |arrived| && b == arrived[p] && taken == before + [p];
          out[count] := b;
          positions := positions + [p];
          count, left := count + 1, left - 1;
        } else {
          empty := true;
          break;
        }
      }
      QueueIsNewestUnread(history);
    }

    /** The critical section that removes one byte. */
    method TakeOne() returns (b: byte)
      requires Valid() && readIndex != saveIndex
      modifies this
      ensures Valid() && history == old(history) + [ReadOne] && arrived == old(arrived)
      ensures old(Queue()) == [b] + Queue()
      ensures exists p {:trigger arrived[p]} :: 0 <= p < |arrived| && b == arrived[p] && taken == old(taken) + [p]
    {
      hide Run, Step, Contents;
      AloneInRing(buffer[..], readIndex, saveIndex);
      ThenRead(history);
      ReadRemoves(buffer[..], readIndex, saveIndex);
      taken := taken + [|arrived| - |Queue()|];
      b := buffer[readIndex];
      readIndex := readIndex + 1;
      if readIndex >= SLOTS {
        readIndex := 0;
      }
      history := history + [ReadOne];
    }
  }
}
