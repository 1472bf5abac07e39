/** The audio codec's transmit queue: one client thread (write, set sample rate, close),
    the DMA stream and its transfer-complete interrupt share a ring of five nodes and the
    MS bit of the shadow register r06. The codec is the clock master and a completion
    callback is installed. */
module Codec {
  import opened Common
  import opened RingBuffer

  const SLOTS: nat := 5               // DATA_NODE_MAX
  const MS: bv16 := 1

  datatype Node = Node(ptr: nat, size: nat)

  function Pointers(q: seq<Node>): seq<nat>
  {
    seq(|q|, i requires 0 <= i < |q| => q[i].ptr)
  }

  // ----- the MS bit of register 6

  predicate Master(r06: bv16) { r06 & MS != 0 }

  function WithMs(r06: bv16): (r: bv16)
    ensures Master(r)
    ensures Master(r06) ==> r == r06
  {
    r06 | MS
  }

  function WithoutMs(r06: bv16): (r: bv16)
    ensures !Master(r)
  {
    r06 & !MS
  }

  /** r06 for each sample rate that sample_rate() knows, without the MS bit: page address,
      PLL clock, bit clock divided by 8, and the MCLK divider. */
  function ClockBits(rate: int): (r: Option<bv16>)
    ensures r.Some? ==> !Master(r.value)
  {
    var base: bv16 := 0x0D0C;
    match rate
    case 8000 => Some(base | 0xE0)
    case 11025 => Some(base | 0xC0)
    case 12000 => Some(base | 0xC0)
    case 16000 => Some(base | 0xA0)
    case 22050 => Some(base | 0x80)
    case 24000 => Some(base | 0x80)
    case 32000 => Some(base | 0x60)
    case 44100 => Some(base | 0x40)
    case 48000 => Some(base | 0x40)
    case 96000 => Some(base)
    case _ => None
  }

  /** The divider that the MCLKDIV field, bits 5 to 7, stands for, in halves. */
  function MclkHalves(field: bv16): nat
  {
    match field
    case 0 => 2
    case 1 => 3
    case 2 => 4
    case 3 => 6
    case 4 => 8
    case 5 => 12
    case 6 => 16
    case _ => 24
  }

  /** For each rate the divider makes 256 times the rate out of the PLL's 22.5792 MHz or
      24.576 MHz. All other bits are the same for every rate: register 6, clock from the PLL,
      bit clock divided by 8, MS clear. */
  lemma DividerFitsRate(rate: int)
    ensures ClockBits(rate).Some? <==>
              rate in {8000, 11025, 12000, 16000, 22050, 24000, 32000, 44100, 48000, 96000}
    ensures ClockBits(rate).Some? ==>
              var r06 := ClockBits(rate).value;
              r06 & 0xFF1F == 0x0D0C &&
              256 * rate * MclkHalves((r06 >> 5) & 7) == 2 * if rate % 11025 == 0 then 22_579_200 else 24_576_000
  {
  }

  /** The clock bits with the MS bit that was read before. */
  function Merged(clock: bv16, ms: bool): (r: bv16)
    ensures !Master(clock) ==> (Master(r) <==> ms)
  {
    if ms then clock | MS else clock
  }

  /** Setting, clearing and merging MS leaves the clock bits alone. */
  lemma ClockUntouched(r06: bv16, ms: bool)
    ensures WithoutMs(WithMs(r06)) == WithoutMs(r06) && WithoutMs(WithoutMs(r06)) == WithoutMs(r06)
    ensures WithoutMs(Merged(r06, ms)) == WithoutMs(r06)
  {
    hide Master;
    SetKeepsClock(r06);
    ClearKeepsClock(r06);
    assert Merged(r06, ms) == if ms then WithMs(r06) else r06;
  }

  lemma SetKeepsClock(r06: bv16)
    ensures WithoutMs(WithMs(r06)) == WithoutMs(r06)
  {
    hide Master;
    assert (r06 | MS) & !MS == r06 & !MS;
  }

  lemma ClearKeepsClock(r06: bv16)
    ensures WithoutMs(WithoutMs(r06)) == WithoutMs(r06)
  {
    hide Master;
    assert r06 & !MS & !MS == r06 & !MS;
  }

  /** What register 6 says: the lowest bit makes the codec the clock master, the others
      select the clocks. */
  predicate Leads(r06: bv16) { r06 & 1 == 1 }

  function Clocks(r06: bv16): bv16 { r06 & 0xFFFE }

  lemma MsIsLowestBit(r06: bv16)
    ensures Master(r06) <==> Leads(r06)
    ensures WithoutMs(r06) == Clocks(r06)
  {
  }

  // ----- the ring

  datatype Queue = Queue(
    list: seq<Node>,
    read: nat,
    put: nat,
    written: seq<Node>,               // every accepted buffer
    completed: seq<nat>)              // pointers passed to the callback
  {
    predicate InBounds() { |list| == SLOTS && read < SLOTS && put < SLOTS }

    function Waiting(): seq<Node>
      requires InBounds()
    {
      Contents(list, read, put)
    }

    /** Every accepted buffer is completed once, in order; the rest is waiting. */
    predicate Fifo()
    {
      InBounds() && |completed| <= |written| && Waiting() == written[|completed|..] &&
      completed == Pointers(written[..|completed|])
    }
  }

  function Push(q: Queue, n: Node): (q': Queue)
    requires q.InBounds()
    ensures q'.InBounds()
  {
    q.(list := q.list[q.put := n], put := Next(q.put, SLOTS), written := q.written + [n])
  }

  function Pop(q: Queue): (q': Queue)
    requires q.InBounds()
    ensures q'.InBounds()
  {
    q.(read := Next(q.read, SLOTS), completed := q.completed + [q.list[q.read].ptr])
  }

  function Drain(q: Queue): (q': Queue)
    requires q.InBounds()
    ensures q'.InBounds() && q'.read == q'.put
  {
    q.(read := q.put, completed := q.completed + Pointers(q.Waiting()))
  }

  lemma PointersAppend(q: seq<Node>, r: seq<Node>)
    ensures Pointers(q + r) == Pointers(q) + Pointers(r)
  {
  }

  lemma PushKeepsFifo(q: Queue, n: Node)
    requires q.Fifo() && Next(q.put, SLOTS) != q.read
    ensures Push(q, n).Fifo() && Push(q, n).Waiting() == q.Waiting() + [n]
    ensures q.read == q.put <==> Next(q.read, SLOTS) == Push(q, n).put
    ensures |Push(q, n).Waiting()| < SLOTS
  {
    var q', k := Push(q, n), |q.completed|;
    SaveAppends(q.list, q.read, q.put, n);
    AloneInRing(q'.list, q.read, q'.put);
    AloneInRing(q.list, q.read, q.put);
    assert q'.written[k..] == q.written[k..] + [n];
    assert q'.written[..k] == q.written[..k];
  }

  lemma PopKeepsFifo(q: Queue)
    requires q.Fifo() && q.read != q.put
    ensures Pop(q).Fifo() && q.Waiting() == [q.list[q.read]] + Pop(q).Waiting()
  {
    var k := |q.completed|;
    ReadRemoves(q.list, q.read, q.put);
    assert q.written[k..][0] == q.written[k];
    assert q.written[..k + 1] == q.written[..k] + [q.written[k]];
    PointersAppend(q.written[..k], [q.written[k]]);
    assert q.written[k..][1..] == q.written[k + 1..];
  }

  lemma DrainKeepsFifo(q: Queue)
    requires q.Fifo()
    ensures Drain(q).Fifo() && Drain(q).completed == Pointers(q.written)
  {
    var k := |q.completed|;
    PointersAppend(q.written[..k], q.written[k..]);
    assert q.written == q.written[..k] + q.written[k..];
    assert q.written[..|q.written|] == q.written;
  }

  // ----- the machine

  /** Where the client thread is. */
  datatype Pc =
    | Idle
    | Checked(n: Node)                // write found room
    | Loaded(clock: bv16, ms: bool)   // sample_rate has r06 & MS in a register
    | Stored                          // sample_rate wrote r06 back, not sent yet
    | CloseTested                     // close saw MS set
    | CloseMasked                     // close disabled the interrupt

  datatype State = State(
    q: Queue,
    r06: bv16,
    chip: bv16,                       // register 6 of the codec, as last sent
    i2s: bool,                        // I2S peripheral enabled
    irq: bool,                        // stream interrupt enabled
    stream: Option<Node>,             // what the DMA stream is set up with
    tc: bool,                         // its transfer is complete
    pc: Pc)

  datatype Event = Write(n: Node) | SetRate(rate: int) | Close | Thread | TransferDone | Isr

  function Init(): (s: State)
    ensures s.q.InBounds()
  {
    State(Queue(seq(SLOTS, _ => Node(0, 0)), 0, 0, [], []), 0x0D4C, 0x0D4C, false, true, None, false, Idle)
  }

  predicate Pending(s: State) { s.tc && s.irq }

  /** The critical section of codec_write, after the test for a full list. */
  function Commit(s: State, n: Node): (s': State)
    requires s.q.InBounds()
    ensures s'.q.InBounds() && s'.pc == Idle
  {
    var t := s.(q := Push(s.q, n), pc := Idle);
    if Next(t.q.read, SLOTS) == t.q.put then
      var u := t.(chip := WithoutMs(t.r06), i2s := false, irq := true, stream := Some(n), tc := false);
      if Master(u.r06) then u else u.(i2s := true, r06 := WithMs(u.r06), chip := WithMs(u.r06))
    else t
  }

  /** codec_close with the interrupt disabled: stop the stream, clear MS, and complete
      everything that is still queued. */
  function Stop(s: State): (s': State)
    requires s.q.InBounds()
    ensures s'.q.InBounds() && s'.pc == Idle
  {
    s.(stream := None, tc := false, i2s := false, r06 := WithoutMs(s.r06), chip := WithoutMs(s.r06),
       q := Drain(s.q), pc := Idle)
  }

  function ThreadStep(s: State): (s': State)
    requires s.q.InBounds()
    ensures s'.q.InBounds()
  {
    match s.pc
    case Idle => s
    case Checked(n) => Commit(s, n)
    case Loaded(clock, ms) => s.(r06 := Merged(clock, ms), pc := Stored)
    case Stored => s.(chip := s.r06, pc := Idle)
    case CloseTested => s.(irq := false, pc := CloseMasked)
    case CloseMasked => Stop(s)
  }

  /** codec_dma_isr, entered through the handler that clears the complete flag. */
  function IsrStep(s: State): (s': State)
    requires s.q.InBounds()
    ensures s'.q.InBounds() && s'.pc == s.pc && !s'.tc
  {
    var t := s.(q := Pop(s.q), tc := false);
    if t.q.read != t.q.put then t.(stream := Some(t.q.list[t.q.read]), r06 := WithMs(t.r06))
    else if Master(t.r06) then t.(stream := None, i2s := false, r06 := WithoutMs(t.r06))
    else t
  }

  /** Calls enter at an idle client; a pending interrupt is served before the client moves. */
  function Step(s: State, e: Event): (s': State)
    requires s.q.InBounds()
    ensures s'.q.InBounds()
  {
    match e
    case Isr => if Pending(s) then IsrStep(s) else s
    case TransferDone => if s.stream.Some? && s.i2s && !s.tc then s.(tc := true) else s
    case Thread => if Pending(s) then s else ThreadStep(s)
    case Write(n) =>
      if s.pc.Idle? && !Pending(s) && Next(s.q.put, SLOTS) != s.q.read then s.(pc := Checked(n)) else s
    case SetRate(rate) =>
      if s.pc.Idle? && !Pending(s) && ClockBits(rate).Some?
      then s.(pc := Loaded(ClockBits(rate).value, Master(s.r06))) else s
    case Close =>
      if s.pc.Idle? && !Pending(s) && Master(s.r06) then s.(pc := CloseTested) else s
  }

  function Run(s: State, es: seq<Event>): (s': State)
    requires s.q.InBounds()
    ensures s'.q.InBounds()
  {
    if es == [] then s else Step(Run(s, es[..|es| - 1]), es[|es| - 1])
  }

  lemma ThenRun(s: State, es: seq<Event>, e: Event)
    requires s.q.InBounds()
    ensures Run(s, es + [e]) == Step(Run(s, es), e)
  {
    assert (es + [e])[..|es|] == es;
  }

  lemma {:induction false} RunAppend(s: State, es: seq<Event>, fs: seq<Event>)
    requires s.q.InBounds()
    ensures Run(s, es + fs) == Run(Run(s, es), fs)
  {
    if fs == [] {
      assert es + fs == es;
    } else {
      RunAppend(s, es, fs[..|fs| - 1]);
      assert (es + fs)[..|es + fs| - 1] == es + fs[..|fs| - 1];
    }
  }

  // ----- the invariant

  /** MS is set exactly while something is queued, and exactly then the stream is set up,
      with the buffer at the read index. */
  predicate Coupled(s: State)
    requires s.q.InBounds()
  {
    (Master(s.r06) <==> s.q.read != s.q.put) &&
    s.stream == (if s.q.read != s.q.put then Some(s.q.list[s.q.read]) else None)
  }

  /** While the stream is set up it runs, and its interrupt will be served, unless close
      has just disabled it. */
  predicate Alive(s: State)
  {
    (s.i2s <==> s.stream.Some?) && (s.tc ==> s.stream.Some?) &&
    (s.stream.Some? && !s.pc.CloseMasked? ==> s.irq)
  }

  predicate Client(s: State)
  {
    match s.pc
    case Checked(n) => Next(s.q.put, SLOTS) != s.q.read
    case Loaded(clock, ms) => !Master(clock)
    case _ => true
  }

  predicate Inv(s: State) { s.q.Fifo() && Coupled(s) && Alive(s) && Client(s) }

  lemma CommitKeepsInv(s: State)
    requires Inv(s) && s.pc.Checked?
    ensures Inv(Commit(s, s.pc.n))
  {
    hide Master, WithMs, WithoutMs, Contents, Pointers;
    PushKeepsFifo(s.q, s.pc.n);
  }

  lemma StopKeepsInv(s: State)
    requires s.q.Fifo() && s.pc.CloseMasked?
    ensures Inv(Stop(s)) && Stop(s).q.completed == Pointers(s.q.written)
  {
    hide Master, WithMs, WithoutMs, Contents, Pointers;
    DrainKeepsFifo(s.q);
  }

  lemma IsrKeepsInv(s: State)
    requires Inv(s) && Pending(s)
    ensures Inv(IsrStep(s)) && s.q.Waiting() == [s.stream.value] + IsrStep(s).q.Waiting()
  {
    hide Master, WithMs, WithoutMs, Contents, Pointers;
    PopKeepsFifo(s.q);
  }

  /** The write-back of the sample rate keeps the invariant exactly if MS has not changed
      since it was read. */
  lemma StoreKeepsInvExactly(s: State)
    requires Inv(s) && s.pc.Loaded?
    ensures Inv(ThreadStep(s)) <==> (s.pc.ms <==> Master(s.r06))
  {
    hide Master, Merged, Contents, Pointers;
  }

  /** A sample rate change that starts while nothing is queued. */
  predicate Harmless(s: State, e: Event)
    requires s.q.InBounds()
  {
    e.SetRate? ==> s.q.read == s.q.put || Step(s, e) == s
  }

  predicate Polite(es: seq<Event>)
  {
    es == [] || (Polite(es[..|es| - 1]) && Harmless(Run(Init(), es[..|es| - 1]), es[|es| - 1]))
  }

  predicate Strong(s: State) { Inv(s) && (s.pc.Loaded? ==> !s.pc.ms && s.q.read == s.q.put) }

  lemma StepKeepsStrong(s: State, e: Event)
    requires Strong(s) && Harmless(s, e)
    ensures Strong(Step(s, e))
  {
    hide Master, WithMs, WithoutMs, Merged, Contents, Pointers, Commit, IsrStep, Stop;
    match e
    case Thread =>
      if !Pending(s) {
        match s.pc
        case Checked(n) => CommitKeepsInv(s);
        case CloseMasked => StopKeepsInv(s);
        case Loaded(clock, ms) => StoreKeepsInvExactly(s);
        case _ =>
      }
    case Isr => if Pending(s) { IsrKeepsInv(s); }
    case _ =>
  }

  /** In every interleaving of the client, the stream and the interrupt in which sample
      rates change only on an empty queue: MS, the ring and the stream agree, the stream
      runs while something is queued, and buffers complete once and in order. */
  lemma {:induction false} EveryPoliteRunKeepsInv(es: seq<Event>)
    requires Polite(es)
    ensures Strong(Run(Init(), es))
  {
    if es != [] {
      EveryPoliteRunKeepsInv(es[..|es| - 1]);
      StepKeepsStrong(Run(Init(), es[..|es| - 1]), es[|es| - 1]);
    }
  }

  // ----- the race of sample_rate with the interrupt

  predicate Hardware(es: seq<Event>) { forall e :: e in es ==> e.TransferDone? || e.Isr? }

  function Rounds(k: nat): (es: seq<Event>)
    ensures Hardware(es)
  {
    if k == 0 then [] else Rounds(k - 1) + [TransferDone, Isr]
  }

  /** As many interrupts as there are waiting buffers empty the ring. */
  lemma {:induction false} RoundsDrain(s: State, k: nat)
    requires Inv(s) && !s.pc.CloseMasked? && !s.tc && k <= |s.q.Waiting()|
    ensures var s' := Run(s, Rounds(k));
            Inv(s') && !s'.tc && s'.pc == s.pc && |s'.q.Waiting()| == |s.q.Waiting()| - k
  {
    hide Master, WithMs, WithoutMs, Merged, ClockBits, Contents, Pointers, IsrStep, ThreadStep;
    if k > 0 {
      RoundsDrain(s, k - 1);
      var t := Run(s, Rounds(k - 1));
      ThenRun(s, Rounds(k - 1), TransferDone);
      ThenRun(s, Rounds(k - 1) + [TransferDone], Isr);
      assert Rounds(k - 1) + [TransferDone] + [Isr] == Rounds(k);
      AloneInRing(t.q.list, t.q.read, t.q.put);
      var u := t.(tc := true);
      IsrKeepsInv(u);
    }
  }

  /** While nothing is queued the hardware is at rest. */
  lemma {:induction false} Rests(s: State, hw: seq<Event>)
    requires Inv(s) && s.q.read == s.q.put && Hardware(hw)
    ensures Run(s, hw) == s
  {
    if hw != [] {
      Rests(s, hw[..|hw| - 1]);
      assert hw[|hw| - 1] in hw;
    }
  }

  /** Changing the sample rate is safe against every behaviour of the hardware before the
      write-back exactly when nothing is queued at the call. */
  lemma SampleRateSafeIffEmpty(s: State, rate: int)
    requires Inv(s) && s.pc.Idle? && !Pending(s) && ClockBits(rate).Some?
    ensures (forall hw :: Hardware(hw) ==> Inv(Step(Run(Step(s, SetRate(rate)), hw), Thread)))
            <==> s.q.read == s.q.put
  {
    hide Master, Merged, ClockBits, Contents, Pointers;
    var t := Step(s, SetRate(rate));
    if s.q.read == s.q.put {
      forall hw | Hardware(hw)
        ensures Inv(Step(Run(t, hw), Thread))
      {
        Rests(t, hw);
        StoreKeepsInvExactly(t);
      }
    } else {
      var hw := Rounds(|t.q.Waiting()|);
      RoundsDrain(t, |t.q.Waiting()|);
      var u := Run(t, hw);
      AloneInRing(u.q.list, u.q.read, u.q.put);
      StoreKeepsInvExactly(u);
      assert !Inv(Step(u, Thread));
    }
  }

  /** MS is set although I2S is off: every later write takes the stream for running. */
  predicate Stuck(s: State)
  {
    s.q.InBounds() && Master(s.r06) && !s.i2s && !s.tc && !s.pc.CloseTested? && !s.pc.CloseMasked? &&
    (s.pc.Loaded? ==> s.pc.ms && !Master(s.pc.clock))
  }

  lemma StaleStoreSticks(s: State)
    requires Inv(s) && s.pc.Loaded? && s.pc.ms && s.q.read == s.q.put
    ensures Stuck(ThreadStep(s))
  {
    hide Master, Merged;
  }

  /** Until the device is closed, nothing completes any more, whatever is written. */
  lemma {:induction false} StuckUntilClose(s: State, es: seq<Event>)
    requires Stuck(s) && Close !in es
    ensures Stuck(Run(s, es)) && Run(s, es).q.completed == s.q.completed
  {
    hide Step, Master;
    if es != [] {
      StuckUntilClose(s, es[..|es| - 1]);
      assert es[|es| - 1] in es;
      StepStaysStuck(Run(s, es[..|es| - 1]), es[|es| - 1]);
    }
  }

  lemma StepStaysStuck(s: State, e: Event)
    requires Stuck(s) && !e.Close?
    ensures Stuck(Step(s, e)) && Step(s, e).q.completed == s.q.completed
  {
    hide Master, Merged, WithMs, WithoutMs, ClockBits, Contents, ThreadStep, IsrStep;
    match e
    case Thread => if !Pending(s) { ThreadStaysStuck(s); }
    case _ =>
  }

  lemma ThreadStaysStuck(s: State)
    requires Stuck(s)
    ensures Stuck(ThreadStep(s)) && ThreadStep(s).q.completed == s.q.completed
  {
    hide Master, Merged, WithMs, WithoutMs, Contents, Commit;
    if s.pc.Checked? {
      CommitStaysStuck(s, s.pc.n);
    }
  }

  lemma CommitStaysStuck(s: State, n: Node)
    requires Stuck(s) && s.pc.Checked?
    ensures Stuck(Commit(s, n)) && Commit(s, n).q.completed == s.q.completed
  {
    hide Master, WithMs, WithoutMs, Contents;
  }

  lemma OneBufferPlays(n: Node)
    ensures var s := Run(Init(), [Write(n), Thread]);
            Inv(s) && s.pc.Idle? && !s.tc && |s.q.Waiting()| == 1
  {
    ThenRun(Init(), [], Write(n));
    ThenRun(Init(), [Write(n)], Thread);
    assert [] + [Write(n)] == [Write(n)] && [Write(n)] + [Thread] == [Write(n), Thread];
    CommitKeepsInv(Step(Init(), Write(n)));
  }

  /** A run that gets there: one buffer, its interrupt between the read of r06 and its
      write-back. */
  lemma StuckIsReachable(n: Node)
    ensures Stuck(Run(Init(), [Write(n), Thread, SetRate(44100), TransferDone, Isr, Thread]))
  {
    hide Master, Merged, WithMs, WithoutMs, IsrStep, Contents;
    var es := [Write(n), Thread, SetRate(44100)];
    OneBufferPlays(n);
    ThenRun(Init(), [Write(n), Thread], SetRate(44100));
    assert [Write(n), Thread] + [SetRate(44100)] == es;
    var t := Run(Init(), es);
    AloneInRing(t.q.list, t.q.read, t.q.put);
    RoundsDrain(t, 1);
    RunAppend(Init(), es, Rounds(1));
    var u := Run(t, Rounds(1));
    AloneInRing(u.q.list, u.q.read, u.q.put);
    StaleStoreSticks(u);
    ThenRun(Init(), es + Rounds(1), Thread);
    assert Rounds(1) == Rounds(0) + [TransferDone, Isr];
    assert es + Rounds(1) + [Thread] == [Write(n), Thread, SetRate(44100), TransferDone, Isr, Thread];
  }

  /** Closing ends even that: everything queued completes and the invariant holds again. */
  lemma CloseCompletesAll(s: State)
    requires s.q.Fifo() && s.pc.Idle? && !s.tc && Master(s.r06)
    ensures var s' := Run(s, [Close, Thread, Thread]);
            Inv(s') && s'.pc.Idle? && s'.q.written == s.q.written && s'.q.completed == Pointers(s.q.written)
  {
    hide Master, Contents, Pointers, Step, Inv;
    ThenRun(s, [], Close);
    ThenRun(s, [Close], Thread);
    ThenRun(s, [Close, Thread], Thread);
    assert [] + [Close] == [Close] && [Close] + [Thread] == [Close, Thread];
    assert [Close, Thread] + [Thread] == [Close, Thread, Thread];
    CloseSteps(s);
    StopKeepsInv(s.(irq := false, pc := CloseMasked));
  }

  lemma CloseSteps(s: State)
    requires s.q.InBounds() && s.pc.Idle? && !s.tc && Master(s.r06)
    ensures var t := s.(irq := false, pc := CloseMasked);
            Step(Step(Step(s, Close), Thread), Thread) == Stop(t) && Stop(t).q.written == s.q.written
  {
    hide Master, WithMs, WithoutMs, Merged, ClockBits, Contents, Pointers, Commit, IsrStep;
  }

  // ----- all runs

  /** What a lost update of MS leaves: MS is set although the stream is off. The queue is
      as it should be. */
  predicate Stale(s: State)
  {
    s.q.Fifo() && Master(s.r06) && !s.i2s && !s.tc && (s.pc.Checked? ==> Next(s.q.put, SLOTS) != s.q.read) &&
    (s.pc.Loaded? ==> s.pc.ms && !Master(s.pc.clock))
  }

  /** The invariant, with a sample rate change that read a clear MS only on an empty queue,
      or what a lost update leaves. */
  predicate Sane(s: State)
  {
    (Inv(s) && (s.pc.Loaded? && !s.pc.ms ==> s.q.read == s.q.put)) || Stale(s)
  }

  lemma StoreKeepsSane(s: State)
    requires Inv(s) && s.pc.Loaded? && (!s.pc.ms ==> s.q.read == s.q.put)
    ensures Sane(ThreadStep(s))
  {
    hide Master, Merged, Contents, Pointers;
  }

  lemma SoundStepKeepsSane(s: State, e: Event)
    requires Inv(s) && (s.pc.Loaded? && !s.pc.ms ==> s.q.read == s.q.put)
    ensures Sane(Step(s, e))
  {
    hide Master, WithMs, WithoutMs, Merged, ClockBits, Contents, Pointers, Commit, IsrStep, Stop, Stuck;
    match e
    case Thread =>
      if !Pending(s) {
        match s.pc
        case Checked(n) => CommitKeepsInv(s);
        case CloseMasked => StopKeepsInv(s);
        case Loaded(clock, ms) => StoreKeepsSane(s);
        case _ =>
      }
    case Isr =>
      if Pending(s) {
        IsrKeepsInv(s);
      }
    case _ =>
  }

  lemma StaleStepKeepsSane(s: State, e: Event)
    requires Stale(s)
    ensures Sane(Step(s, e))
  {
    hide Master, WithMs, WithoutMs, Merged, ClockBits, Contents, Pointers, Commit, IsrStep, Stop;
    match e
    case Thread =>
      match s.pc {
        case Checked(n) =>
          CommitStaysStuck(s, n);
          CommitKeepsFifo(s, n);
        case CloseMasked => StopKeepsInv(s);
        case _ =>
      }
    case _ =>
  }

  lemma CommitKeepsFifo(s: State, n: Node)
    requires s.q.Fifo() && Next(s.q.put, SLOTS) != s.q.read
    ensures Commit(s, n).q.Fifo()
  {
    hide Master, WithMs, WithoutMs, Contents, Pointers;
    PushKeepsFifo(s.q, n);
  }

  /** In every interleaving, sample rate changes included: MS, the ring and the stream agree,
      unless an update of MS was lost; then MS is set and the stream off until a close. */
  lemma {:induction false} EveryRunKeepsSane(es: seq<Event>)
    ensures Sane(Run(Init(), es))
  {
    hide Sane, Step;
    if es == [] {
      InitIsSane();
    } else {
      EveryRunKeepsSane(es[..|es| - 1]);
      StepKeepsSane(Run(Init(), es[..|es| - 1]), es[|es| - 1]);
    }
  }

  lemma InitIsSane()
    ensures Sane(Init())
  {
    hide Stale;
  }

  lemma StepKeepsSane(s: State, e: Event)
    requires Sane(s)
    ensures Sane(Step(s, e))
  {
    hide Step, Inv, Stale;
    if Stale(s) {
      StaleStepKeepsSane(s, e);
    } else {
      SoundStepKeepsSane(s, e);
    }
  }

  /** In every run, whatever the sample rate changes, every accepted buffer is completed once
      and in order or is still queued, and at most four are queued. */
  lemma EveryRunIsFifo(es: seq<Event>)
    ensures var q := Run(Init(), es).q;
            q.Fifo() && |q.Waiting()| <= 4 && |q.written| == |q.completed| + |q.Waiting()|
  {
    hide Run, Coupled, Alive, Client, Stuck, Pointers;
    EveryRunKeepsSane(es);
  }

  // ----- the codec's own register

  /** What was sent: while the I2S is on the codec is clock master, and outside a sample rate
      change the codec has the clock bits of r06. */
  predicate Sent(s: State)
  {
    (s.i2s ==> Master(s.chip)) && (!s.pc.Stored? ==> WithoutMs(s.chip) == WithoutMs(s.r06))
  }

  lemma CommitKeepsSent(s: State, n: Node)
    requires s.q.InBounds() && Sent(s) && !s.pc.Stored?
    ensures Sent(Commit(s, n))
  {
    hide Push, Master, WithMs, WithoutMs;
    ClockUntouched(s.r06, false);
  }

  lemma CommitKeepsClock(s: State, n: Node)
    requires s.q.InBounds()
    ensures WithoutMs(Commit(s, n).r06) == WithoutMs(s.r06)
  {
    hide Push, Master, WithMs, WithoutMs;
    ClockUntouched(s.r06, false);
  }

  lemma ThreadKeepsSent(s: State)
    requires Sane(s) && Sent(s)
    ensures Sent(ThreadStep(s))
  {
    hide Push, Drain, Commit, Master, WithMs, WithoutMs, Merged, Contents, Pointers;
    if s.pc.Loaded? {
      ClockUntouched(s.pc.clock, s.pc.ms);
    }
    ClockUntouched(s.r06, false);
    match s.pc
    case Checked(n) => CommitKeepsSent(s, n);
    case _ =>
  }

  lemma IsrKeepsSent(s: State)
    requires s.q.InBounds() && Sent(s)
    ensures Sent(IsrStep(s))
  {
    hide Pop, Master, WithMs, WithoutMs;
    ClockUntouched(s.r06, false);
  }

  lemma StepKeepsSent(s: State, e: Event)
    requires Sane(s) && Sent(s)
    ensures Sent(Step(s, e))
  {
    hide Push, ThreadStep, IsrStep, ClockBits, Master, WithoutMs, Contents, Pointers;
    match e
    case Thread => ThreadKeepsSent(s);
    case Isr => IsrKeepsSent(s);
    case _ =>
  }

  lemma {:induction false} RunKeepsSent(es: seq<Event>)
    ensures Sent(Run(Init(), es))
  {
    hide Sane, Step, Sent;
    if es == [] {
      InitIsSent();
    } else {
      RunKeepsSent(es[..|es| - 1]);
      EveryRunKeepsSane(es[..|es| - 1]);
      StepKeepsSent(Run(Init(), es[..|es| - 1]), es[|es| - 1]);
    }
  }

  /** In every run, whatever the sample rate changes: while the I2S is on, the codec's own
      register says that it is clock master, and its other bits are those of r06, except
      between the write-back of a sample rate and its transmission. */
  lemma CodecFollows(es: seq<Event>)
    ensures var s := Run(Init(), es);
            (s.i2s ==> Leads(s.chip)) && (!s.pc.Stored? ==> Clocks(s.chip) == Clocks(s.r06))
  {
    hide *;
    RunKeepsSent(es);
    SentMeans(Run(Init(), es));
  }

  lemma SentMeans(s: State)
    requires Sent(s)
    ensures (s.i2s ==> Leads(s.chip)) && (!s.pc.Stored? ==> Clocks(s.chip) == Clocks(s.r06))
  {
    hide Master, WithoutMs, Leads, Clocks;
    MsIsLowestBit(s.chip);
    MsIsLowestBit(s.r06);
  }

  lemma InitIsSent()
    ensures Sent(Init())
  {
  }
}
