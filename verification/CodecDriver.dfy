/** The audio codec driver on its own fields. Between two steps of the client the stream
    may finish transfers, and each pending interrupt is served. Every method stays on a
    run of the machine in module Codec. */
module CodecDriver {
  import opened Common
  import opened RingBuffer
  import opened Codec

  lemma PoliteThen(es: seq<Event>, e: Event)
    requires Polite(es) && Harmless(Run(Init(), es), e)
    ensures Polite(es + [e])
  {
    assert (es + [e])[..|es|] == es;
  }

  class Device {
    const dataList: array<Node>
    var readIndex: nat
    var putIndex: nat
    var r06: bv16
    var chip: bv16
    var i2s: bool
    var irq: bool
    var stream: Option<Node>
    var tc: bool
    ghost var pc: Pc
    ghost var written: seq<Node>
    ghost var completed: seq<nat>
    ghost var history: seq<Event>

    ghost predicate InRange()
      reads this
    {
      dataList.Length == SLOTS && readIndex < SLOTS && putIndex < SLOTS
    }

    ghost function Abs(): State
      reads this, dataList
    {
      State(Queue(dataList[..], readIndex, putIndex, written, completed), r06, chip, i2s, irq, stream, tc, pc)
    }

    ghost predicate Valid()
      reads this, dataList
    {
      InRange() && Abs() == Run(Init(), history)
    }

    /** The client may move: no interrupt is waiting to be served. */
    ghost predicate Quiet()
      reads this
    {
      !(tc && irq)
    }

    /** codec_hw_init. */
    constructor ()
      ensures Valid() && Quiet() && pc == Idle && history == [] && fresh(dataList)
      ensures Some(r06) == Some(chip) == ClockBits(44100)
    {
      dataList := new Node[SLOTS](_ => Node(0, 0));
      readIndex, putIndex := 0, 0;
      r06, chip, i2s, irq, stream, tc := 0x0D4C, 0x0D4C, false, true, None, false;
      pc, written, completed, history := Idle, [], [], [];
    }

    /** Appending an event that is no sample rate change. */
    ghost method Log(e: Event)
      requires InRange() && Abs() == Step(Run(Init(), history), e) && !e.SetRate?
      modifies this`history
      ensures Valid() && history == old(history) + [e] && (Polite(old(history)) ==> Polite(history))
    {
      hide Run, Step;
      ThenRun(Init(), history, e);
      if Polite(history) {
        PoliteThen(history, e);
      }
      history := history + [e];
    }

    ghost method LogThread(s: State)
      requires s == Run(Init(), history) && !Pending(s)
      requires InRange() && Abs() == ThreadStep(s)
      modifies this`history
      ensures Valid() && history == old(history) + [Thread] && (Polite(old(history)) ==> Polite(history))
    {
      hide Run, ThreadStep;
      Log(Thread);
    }

    /** The stream finishes its transfer, if one is running. */
    method Transfer()
      requires Valid()
      modifies this`tc, this`history
      ensures Valid() && history == old(history) + [TransferDone] && (Polite(old(history)) ==> Polite(history))
    {
      hide Run, Polite;
      if stream.Some? && i2s && !tc {
        tc := true;
      }
      Log(TransferDone);
    }

    /** codec_dma_isr with the callback; done is the pointer it reports. */
    method CodecDmaIsr() returns (done: nat)
      requires Valid() && !Quiet()
      modifies this
      ensures Valid() && Quiet() && history == old(history) + [Isr] && (Polite(old(history)) ==> Polite(history))
      ensures pc == old(pc) && written == old(written) && completed == old(completed) + [done]
      ensures done == old(dataList[readIndex]).ptr && WithoutMs(r06) == WithoutMs(old(r06)) && chip == old(chip)
    {
      ghost var s := Abs();
      done := PlayNext();
      ClockKept(s);
      hide *;
      assert Abs() == Step(s, Isr) by {
        IsrServed(s);
      }
      Log(Isr);
    }

    /** Its effect on the ring, the stream and MS. */
    method PlayNext() returns (done: nat)
      requires InRange()
      modifies `tc, `readIndex, `stream, `r06, `i2s, `completed
      ensures InRange() && Abs() == IsrStep(old(Abs())) && completed == old(completed) + [done]
      ensures !tc && done == old(dataList[readIndex]).ptr
    {
      hide Master, WithMs, WithoutMs, Contents;
      tc := false;
      var nextIndex := readIndex + 1;
      if nextIndex >= SLOTS {
        nextIndex := 0;
      }
      done := dataList[readIndex].ptr;
      readIndex := nextIndex;
      if nextIndex != putIndex {
        stream := Some(dataList[readIndex]);
        if !Master(r06) {
          r06 := WithMs(r06);
        }
      } else if Master(r06) {
        stream, i2s := None, false;
        r06 := WithoutMs(r06);
      }
      completed := completed + [done];
    }

    /** What happens between two steps of the client: the hardware as scheduled, every
        pending interrupt served before the client moves. */
    method Gap(schedule: seq<bool>)
      requires Valid()
      modifies this
      ensures Valid() && Quiet() && pc == old(pc) && written == old(written)
      ensures old(history) <= history && Hardware(history[|old(history)|..])
      ensures Polite(old(history)) ==> Polite(history)
      ensures WithoutMs(r06) == WithoutMs(old(r06)) && chip == old(chip)
    {
      hide Run, Polite, WithoutMs;
      for i := 0 to |schedule|
        invariant Valid() && pc == old(pc) && written == old(written)
        invariant WithoutMs(r06) == WithoutMs(old(r06)) && chip == old(chip)
        invariant old(history) <= history && Hardware(history[|old(history)|..])
        invariant Polite(old(history)) ==> Polite(history)
      {
        if schedule[i] {
          Transfer();
        } else if tc && irq {
          var _ := CodecDmaIsr();
        }
      }
      if tc && irq {
        var _ := CodecDmaIsr();
      }
    }

    /** Its first half: the node goes to the put index. */
    method Enqueue(n: Node)
      requires InRange()
      modifies this`putIndex, this`written, dataList
      ensures InRange() && Abs().q == Push(old(Abs()).q, n)
      ensures written == old(written) + [n] && dataList[old(putIndex)] == n
    {
      hide Contents;
      var slot := putIndex;
      putIndex := if putIndex + 1 >= SLOTS then 0 else putIndex + 1;
      ghost var was := dataList[..];
      dataList[slot] := n;
      assert dataList[..] == was[slot := n];
      written := written + [n];
    }

    /** The critical section of codec_write. */
    method CommitWrite(n: Node)
      requires Valid() && Quiet() && pc == Checked(n)
      modifies this, dataList
      ensures Valid() && Quiet() && pc == Idle && history == old(history) + [Thread]
      ensures written == old(written) + [n] && (Polite(old(history)) ==> Polite(history))
      ensures WithoutMs(r06) == WithoutMs(old(r06))
    {
      ghost var s := Abs();
      CommitKeepsClock(s, n);
      var slot := putIndex;
      Enqueue(n);
      pc := Idle;
      Start(s, n, slot);
      hide *;
      LogThread(s);
    }

    /** Its second half: if the node is the only one, the stream and the codec start. */
    method Start(ghost s: State, n: Node, slot: nat)
      requires InRange() && s.q.InBounds() && slot < SLOTS && dataList[slot] == n
      requires Abs() == s.(q := Push(s.q, n), pc := Idle) && Quiet()
      modifies this`chip, this`i2s, this`irq, this`stream, this`tc, this`r06
      ensures Abs() == Commit(s, n) && Quiet()
    {
      hide Master, WithMs, WithoutMs, Push, Contents;
      var nextIndex := readIndex + 1;
      if nextIndex >= SLOTS {
        nextIndex := 0;
      }
      if nextIndex == putIndex {
        chip, i2s := WithoutMs(r06), false;
        irq := true;
        stream, tc := Some(dataList[slot]), false;
        if !Master(r06) {
          i2s := true;
          r06 := WithMs(r06);
          chip := r06;
        }
      }
    }

    /** codec_write. size is a number of bytes; the node holds half words. */
    method CodecWrite(ptr: nat, size: nat, gap: seq<bool>) returns (count: nat)
      requires Valid() && Quiet() && pc == Idle
      modifies this, dataList
      ensures Valid() && Quiet() && pc == Idle
      ensures Polite(old(history)) ==> Polite(history) && Inv(Abs())
      ensures if Next(old(putIndex), SLOTS) == old(readIndex)
              then count == 0 && history == old(history) && written == old(written)
              else count == size && old(history) < history && written == old(written) + [Node(ptr, size / 2)]
      ensures (i2s ==> Leads(chip)) && Clocks(chip) == Clocks(r06) == Clocks(old(r06))
    {
      hide Run, Polite, Inv, Step, WithoutMs, Leads, Clocks;
      MsIsLowestBit(r06);
      CodecFollows(history);
      var nextIndex := putIndex + 1;
      if nextIndex >= SLOTS {
        nextIndex := 0;
      }
      if nextIndex == readIndex {
        if Polite(history) {
          EveryPoliteRunKeepsInv(history);
        }
        return 0;
      }
      var n := Node(ptr, size / 2);
      Check(n);
      Gap(gap);
      CommitWrite(n);
      MsIsLowestBit(r06);
      CodecFollows(history);
      count := size;
      if Polite(history) {
        EveryPoliteRunKeepsInv(history);
      }
    }

    ghost method Check(n: Node)
      requires Valid() && Quiet() && pc == Idle && Next(putIndex, SLOTS) != readIndex
      modifies this`pc, this`history
      ensures Valid() && Quiet() && pc == Checked(n) && history == old(history) + [Write(n)]
      ensures Polite(old(history)) ==> Polite(history)
    {
      hide Run, Polite;
      pc := Checked(n);
      Log(Write(n));
    }

    /** The read half of sample_rate's update of r06. */
    method Load(rate: int) returns (ms: bool)
      requires Valid() && Quiet() && pc == Idle && ClockBits(rate).Some?
      modifies this`pc, this`history
      ensures Valid() && Quiet() && ms == Master(r06) && pc == Loaded(ClockBits(rate).value, ms)
      ensures history == old(history) + [SetRate(rate)]
      ensures Polite(old(history)) && readIndex == putIndex ==> Polite(history)
    {
      hide Run, Master, ClockBits;
      ms := Master(r06);
      ThenRun(Init(), history, SetRate(rate));
      if Polite(history) && readIndex == putIndex {
        PoliteThen(history, SetRate(rate));
      }
      pc := Loaded(ClockBits(rate).value, ms);
      history := history + [SetRate(rate)];
    }

    /** sample_rate; ok is false for RT_ERROR. The interrupt may come between the read and
        the write of r06 (gap1) and before the register is sent (gap2). */
    method SampleRate(rate: int, gap1: seq<bool>, gap2: seq<bool>) returns (ok: bool)
      requires Valid() && Quiet() && pc == Idle
      modifies this
      ensures Valid() && Quiet() && pc == Idle && written == old(written)
      ensures ok <==> ClockBits(rate).Some?
      ensures !ok ==> history == old(history) && r06 == old(r06) && chip == old(chip)
      ensures ok ==> chip == r06 && Clocks(r06) == ClockBits(rate).value
      ensures i2s ==> Leads(chip)
      ensures Polite(old(history)) && old(readIndex == putIndex) ==>
                Polite(history) && Inv(Abs()) && (ok ==> r06 == ClockBits(rate).value && chip == r06 && !Master(chip))
    {
      hide Run, Polite, Master, ClockBits, Merged, WithoutMs, Step, Strong, Inv, Leads, Clocks;
      var clock := ClockBits(rate);
      if clock.None? {
        CodecFollows(history);
        if Polite(history) {
          EveryPoliteRunKeepsInv(history);
        }
        return false;
      }
      ClockUntouched(clock.value, Master(r06));
      var ms := Load(rate);
      ghost var polite := Polite(history);
      Gap(gap1);
      if polite {
        EveryPoliteRunKeepsInv(history);
        LoadedAtRest(Abs());
      }
      Store(clock.value, ms);
      if polite {
        MergedPlain(clock.value);
        EveryPoliteRunKeepsInv(history);
      }
      Settle(gap2);
      Send();
      if polite {
        EveryPoliteRunKeepsInv(history);
        StrongIsInv(Abs());
      }
      CodecFollows(history);
      MsIsLowestBit(r06);
      RatesLeaveMs(rate);
      ok := true;
    }

    method Store(clock: bv16, ms: bool)
      requires Valid() && Quiet() && pc == Loaded(clock, ms)
      modifies this
      ensures Valid() && Quiet() && pc == Stored && history == old(history) + [Thread]
      ensures written == old(written) && r06 == Merged(clock, ms)
      ensures readIndex == old(readIndex) && putIndex == old(putIndex)
      ensures Polite(old(history)) ==> Polite(history)
    {
      hide Run, Polite, Merged, Inv;
      r06, pc := Merged(clock, ms), Stored;
      Log(Thread);
    }

    method Send()
      requires Valid() && Quiet() && pc == Stored
      modifies this
      ensures Valid() && Quiet() && pc == Idle && history == old(history) + [Thread]
      ensures written == old(written) && r06 == old(r06) && chip == r06
      ensures Polite(old(history)) ==> Polite(history)
    {
      hide Run, Polite, Inv;
      chip, pc := r06, Idle;
      Log(Thread);
    }

    /** A gap in which, if the queue is empty in a polite run, nothing happens. */
    method Settle(schedule: seq<bool>)
      requires Valid()
      modifies this
      ensures Valid() && Quiet() && pc == old(pc) && written == old(written)
      ensures Polite(old(history)) ==> Polite(history)
      ensures Polite(old(history)) && old(readIndex == putIndex) ==> r06 == old(r06)
      ensures WithoutMs(r06) == WithoutMs(old(r06))
    {
      hide Polite, Step, Inv, WithoutMs;
      ghost var was := Abs();
      if Polite(history) {
        EveryPoliteRunKeepsInv(history);
      }
      label before:
      Gap(schedule);
      ghost var hw := history[|old@before(history)|..];
      assert history == old@before(history) + hw;
      RunAppend(Init(), old@before(history), hw);
      if Polite(old(history)) && old(readIndex == putIndex) {
        Rests(was, hw);
      }
    }

    /** The loop of codec_close that completes every queued buffer. */
    method RemoveAll()
      requires InRange()
      modifies this`readIndex, this`completed
      ensures InRange() && readIndex == putIndex
      ensures completed == old(completed) + Pointers(Contents(dataList[..], old(readIndex), putIndex))
    {
      hide Contents;
      AloneInRing(dataList[..], readIndex, putIndex);
      while readIndex != putIndex
        invariant InRange()
        invariant completed + Pointers(Contents(dataList[..], readIndex, putIndex))
                  == old(completed) + Pointers(Contents(dataList[..], old(readIndex), putIndex))
        decreases |Contents(dataList[..], readIndex, putIndex)|
      {
        ghost var q := Contents(dataList[..], readIndex, putIndex);
        ReadRemoves(dataList[..], readIndex, putIndex);
        PointersAppend([q[0]], q[1..]);
        assert q == [q[0]] + q[1..];
        completed := completed + [dataList[readIndex].ptr];
        readIndex := readIndex + 1;
        if readIndex >= SLOTS {
          readIndex := 0;
        }
      }
      AloneInRing(dataList[..], readIndex, putIndex);
    }

    /** codec_close. Afterwards everything written is completed, and the invariant holds,
        whatever happened before. */
    method CodecClose(gap: seq<bool>)
      requires Valid() && Quiet() && pc == Idle
      modifies this
      ensures Valid() && Quiet() && pc == Idle && written == old(written)
      ensures !Leads(r06) && (old(Leads(r06)) ==> chip == r06)
      ensures Inv(Abs()) && readIndex == putIndex && completed == Pointers(written)
      ensures Polite(old(history)) ==> Polite(history)
    {
      hide Run, Polite, Master, Pointers, Step, Sane, Inv, Queue.Fifo, Leads;
      MsIsLowestBit(r06);
      if Master(r06) {
        SawMaster();
        Gap(gap);
        Mask();
        Shut();
      }
      MsIsLowestBit(r06);
      EveryRunKeepsSane(history);
      AllCompleted(Abs());
    }

    ghost method SawMaster()
      requires Valid() && Quiet() && pc == Idle && Master(r06)
      modifies this`pc, this`history
      ensures Valid() && Quiet() && pc == CloseTested && history == old(history) + [Close]
      ensures Polite(old(history)) ==> Polite(history)
    {
      hide Run, Polite, Master, Inv;
      pc := CloseTested;
      Log(Close);
    }

    method Mask()
      requires Valid() && Quiet() && pc == CloseTested
      modifies this`irq, this`pc, this`history
      ensures Valid() && Quiet() && pc == CloseMasked && history == old(history) + [Thread]
      ensures Polite(old(history)) ==> Polite(history)
    {
      hide Run, Polite, Inv;
      irq, pc := false, CloseMasked;
      Log(Thread);
    }

    /** codec_close once the interrupt is disabled. */
    method Shut()
      requires Valid() && Quiet() && pc == CloseMasked
      modifies this
      ensures Valid() && Quiet() && pc == Idle && history == old(history) + [Thread]
      ensures written == old(written) && !Master(r06) && chip == r06 && readIndex == putIndex
      ensures completed == old(completed) + Pointers(old(Contents(dataList[..], readIndex, putIndex)))
      ensures Polite(old(history)) ==> Polite(history)
    {
      hide Run, Polite, Master, WithoutMs, Pointers, Contents, Inv, Step;
      ghost var s := Abs();
      stream, tc := None, false;
      i2s := false;
      r06 := WithoutMs(r06);
      chip := r06;
      RemoveAll();
      pc := Idle;
      assert Abs().q == Drain(s.q);
      assert Abs() == Stop(s);
      LogThread(s);
    }
  }

  lemma IsrServed(s: State)
    requires s.q.InBounds() && Pending(s)
    ensures Step(s, Isr) == IsrStep(s)
  {
  }

  lemma ClockKept(s: State)
    requires s.q.InBounds()
    ensures WithoutMs(IsrStep(s).r06) == WithoutMs(s.r06)
  {
    hide Master, WithMs, WithoutMs;
    ClockUntouched(s.r06, false);
  }

  lemma RatesLeaveMs(rate: int)
    ensures ClockBits(rate).Some? ==> WithoutMs(ClockBits(rate).value) == ClockBits(rate).value
  {
  }

  lemma MergedPlain(clock: bv16)
    ensures Merged(clock, false) == clock
  {
  }

  lemma LoadedAtRest(s: State)
    requires Strong(s) && s.pc.Loaded?
    ensures !s.pc.ms && s.q.read == s.q.put
  {
  }

  lemma StrongIsInv(s: State)
    requires Strong(s)
    ensures Inv(s)
  {
  }

  lemma AllCompleted(s: State)
    requires Sane(s) && !Master(s.r06)
    ensures Inv(s) && s.q.read == s.q.put && s.q.completed == Pointers(s.q.written)
  {
    assert s.q.written[..|s.q.written|] == s.q.written;
  }
}
