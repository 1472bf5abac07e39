/** The transmit driver as the source writes it: descriptors in an array, a flag and a
    semaphore in fields, and a transmit method with its loops. The transition system of
    module EthTx is its specification: every atomic piece is one event of a run. */
module EthTxDriver {
  import opened Common
  import EthDesc
  import opened EthTx

  /** What the hardware does at a preemption point. The interrupt handler has two gaps
      in which the engine can complete more frames. */
  datatype Activity = Complete | RunDry | FrameReceived | Interrupt(first: nat, second: nat)

  datatype Outcome = Sent | StillWaiting

  class Driver {
    const desc: array<Desc>     // DMATxDscrTab
    var toSet: nat              // DMATxDescToSet
    var waiting: bool           // tx_is_waiting
    var sem: nat                // tx_wait
    var blocked: bool           // the transmitting thread is on the semaphore's list
    var dma: nat
    var suspended: bool
    var tbus: bool
    var t: bool
    var nis: bool
    ghost var pc: Pc
    ghost var isr: IsrPc
    ghost var submitted: seq<Pbufs>
    ghost var accepted: seq<seq<byte>>
    ghost var wire: seq<seq<byte>>
    ghost var history: seq<Event>

    ghost function Abs(): State
      reads this, desc
    {
      State(Ring(desc[..], toSet, dma, accepted, wire), suspended, tbus, t, nis, waiting, sem, pc, isr, submitted)
    }

    /** The state is the one the run in history leads to. */
    ghost predicate Valid()
      reads this, desc
    {
      desc.Length > 0 && Abs() == Reached(desc.Length, history) && (blocked <==> pc.Blocked?)
    }

    ghost predicate Ready()
      reads this, desc
    {
      Valid() && ThreadMayRun(Abs())
    }

    /** ETH_DMATxDescChainInit, with table indices for the addresses it writes. */
    constructor (count: nat, table: nat, buffers: nat)
      requires count > 0 && EthDesc.Fits(table, buffers, count)
      ensures Valid() && fresh(desc) && desc.Length == count && history == []
    {
      var chain := new EthDesc.Descriptor[count](_ => EthDesc.Descriptor(false, false, false, 0, 0));
      EthDesc.ChainInit(chain, table, buffers, false);
      var made := chain[..];
      forall i: nat | i < count
        ensures !made[i].own && EthDesc.Index(table, made[i].second) == Wrap(i + 1, count)
      {
        EthDesc.ChainIsCycle(table, buffers, count, false, i);
      }
      desc := new Desc[count](i requires 0 <= i < |made| =>
                                Desc(made[i].own, false, false, 0, seq(BUFFER_SIZE, _ => 0),
                                     EthDesc.Index(table, made[i].second)));
      toSet, waiting, sem, blocked := 0, false, 0, false;
      dma, suspended, tbus, t, nis := 0, false, false, false, false;
      pc, isr, submitted, accepted, wire, history := Idle, Out, [], [], [], [];
      new;
      assert desc[..] == Init(count).ring.d;
    }

    /** Valid() gives the invariant of every reachable state. */
    lemma Reachable()
      requires Valid()
      ensures Inv(Abs())
    {
      ReachableInv(desc.Length, history);
    }

    // ----- the thread's atomic pieces

    method ReadOwn() returns (own: bool)
      requires Ready() && pc.TestOwn?
      modifies this
      ensures Ready() && Abs() == ThreadStep(old(Abs())) && submitted == old(submitted)
      ensures own == desc[toSet].own
      ensures pc == if own then SetFlag(old(pc).p) else Copy(old(pc).p, 0, 0)
      ensures history == old(history) + [Thread]
    {
      hide Reached;
      Reachable();
      own := desc[toSet].own;
      ghost var next := ThreadStep(Abs());
      ThenReached(desc.Length, history, Thread);
      pc, history := next.pc, history + [Thread];
    }

    method RaiseFlag()
      requires Ready() && pc.SetFlag?
      modifies this
      ensures Ready() && Abs() == ThreadStep(old(Abs())) && submitted == old(submitted)
      ensures pc == Take(old(pc).p)
      ensures history == old(history) + [Thread]
    {
      hide Reached;
      Reachable();
      ThenReached(desc.Length, history, Thread);
      waiting := true;
      pc, history := Take(pc.p), history + [Thread];
    }

    method TakeSemaphore()
      requires Ready() && pc.Take?
      modifies this
      ensures Ready() && Abs() == ThreadStep(old(Abs())) && submitted == old(submitted)
      ensures pc == if old(sem) > 0 then Copy(old(pc).p, 0, 0) else EthTx.Blocked(old(pc).p)
      ensures history == old(history) + [Thread]
    {
      hide Reached;
      Reachable();
      ghost var p := pc.p;
      ThenReached(desc.Length, history, Thread);
      if sem > 0 {
        sem := sem - 1;
        pc := Copy(p, 0, 0);
      } else {
        blocked := true;
        pc := EthTx.Blocked(p);
      }
      history := history + [Thread];
    }

    method CopyOne(payload: seq<byte>, offset: nat)
      requires Ready() && pc.Copy? && pc.link < |pc.p| && payload == pc.p[pc.link] && offset == pc.offset
      modifies this, desc
      ensures Ready() && Abs() == ThreadStep(old(Abs())) && submitted == old(submitted)
      ensures pc == Copy(old(pc).p, old(pc).link + 1, offset + |payload|)
      ensures history == old(history) + [Thread]
    {
      hide Reached;
      Reachable();
      ConcatNext(pc.p, pc.link);
      ConcatPrefix(pc.p, pc.link + 1);
      ghost var next := ThreadStep(Abs());
      ThenReached(desc.Length, history, Thread);
      desc[toSet] := CopyLink(desc[toSet], payload, offset);
      assert desc[..] == next.ring.d;
      pc, history := next.pc, history + [Thread];
    }

    method EndOfChain()
      requires Ready() && pc.Copy? && pc.link == |pc.p|
      modifies this
      ensures Ready() && Abs() == ThreadStep(old(Abs())) && submitted == old(submitted)
      ensures pc == Mark(old(pc).p)
      ensures history == old(history) + [Thread]
    {
      hide Reached;
      Reachable();
      ThenReached(desc.Length, history, Thread);
      pc, history := Mark(pc.p), history + [Thread];
    }

    method WriteControl(totalLength: nat)
      requires Ready() && pc.Mark? && totalLength == |Concat(pc.p)|
      modifies this, desc
      ensures Ready() && Abs() == ThreadStep(old(Abs())) && submitted == old(submitted)
      ensures pc == Clean(old(pc).p)
      ensures accepted == old(accepted)
      ensures history == old(history) + [Thread]
    {
      hide Reached;
      Reachable();
      ghost var next := ThreadStep(Abs());
      ThenReached(desc.Length, history, Thread);
      desc[toSet] := desc[toSet].(len := totalLength % 0x2000, segmentBits := true, ic := true);
      assert desc[..] == next.ring.d;
      pc, history := next.pc, history + [Thread];
    }

    method ZeroChecksum()
      requires Ready() && pc.Clean?
      modifies this, desc
      ensures Ready() && Abs() == ThreadStep(old(Abs())) && submitted == old(submitted)
      ensures pc == GiveOwn(old(pc).p)
      ensures accepted == old(accepted)
      ensures history == old(history) + [Thread]
    {
      hide Reached;
      Reachable();
      ghost var next := ThreadStep(Abs());
      ThenReached(desc.Length, history, Thread);
      desc[toSet] := desc[toSet].(buf := CleanChecksum(desc[toSet].buf));
      assert desc[..] == next.ring.d;
      pc, history := next.pc, history + [Thread];
    }

    method SetOwn()
      requires Ready() && pc.GiveOwn?
      modifies this, desc
      ensures Ready() && Abs() == ThreadStep(old(Abs())) && submitted == old(submitted)
      ensures pc.TestTbus?
      ensures accepted == old(accepted) + [Framed(Concat(old(pc).p))]
      ensures history == old(history) + [Thread]
    {
      hide Reached;
      Reachable();
      ghost var next := ThreadStep(Abs());
      ThenReached(desc.Length, history, Thread);
      desc[toSet] := desc[toSet].(own := true);
      assert desc[..] == next.ring.d;
      accepted := next.ring.accepted;
      pc, history := next.pc, history + [Thread];
    }

    method ReadTbus() returns (unavailable: bool)
      requires Ready() && pc.TestTbus?
      modifies this
      ensures Ready() && Abs() == ThreadStep(old(Abs())) && submitted == old(submitted)
      ensures unavailable == tbus
      ensures pc == if unavailable then ClearTbus else Advance
      ensures toSet == old(toSet) && desc[..] == old(desc[..])
      ensures history == old(history) + [Thread]
    {
      hide Reached;
      Reachable();
      ghost var next := ThreadStep(Abs());
      ThenReached(desc.Length, history, Thread);
      unavailable := tbus;
      pc, history := next.pc, history + [Thread];
    }

    method WriteTbus()
      requires Ready() && pc.ClearTbus?
      modifies this
      ensures Ready() && Abs() == ThreadStep(old(Abs())) && submitted == old(submitted)
      ensures pc.Poll?
      ensures toSet == old(toSet) && desc[..] == old(desc[..])
      ensures history == old(history) + [Thread]
    {
      hide Reached;
      Reachable();
      ThenReached(desc.Length, history, Thread);
      tbus := false;
      pc, history := Poll, history + [Thread];
    }

    method PollDemand()
      requires Ready() && pc.Poll?
      modifies this
      ensures Ready() && Abs() == ThreadStep(old(Abs())) && submitted == old(submitted)
      ensures pc.Advance?
      ensures toSet == old(toSet) && desc[..] == old(desc[..])
      ensures history == old(history) + [Thread]
    {
      hide Reached;
      Reachable();
      ThenReached(desc.Length, history, Thread);
      suspended := false;
      pc, history := Advance, history + [Thread];
    }

    method NextDescriptor()
      requires Ready() && pc.Advance?
      modifies this
      ensures Ready() && Abs() == ThreadStep(old(Abs())) && submitted == old(submitted)
      ensures pc.Idle?
      ensures old(toSet) < desc.Length && toSet == old(desc[toSet]).next
      ensures history == old(history) + [Thread]
    {
      hide Reached;
      Reachable();
      ThenReached(desc.Length, history, Thread);
      toSet := desc[toSet].next;
      pc, history := Idle, history + [Thread];
    }

    // ----- the hardware

    /** What any hardware activity leaves alone: it can only let a suspended thread go on. */
    twostate predicate OnlyWakes()
      reads this, desc
    {
      submitted == old(submitted) && accepted == old(accepted) && toSet == old(toSet) &&
      (forall i :: 0 <= i < desc.Length ==> desc[i].next == old(desc[i].next)) &&
      (pc == old(pc) || (old(pc.Blocked?) && pc == Copy(old(pc).p, 0, 0)))
    }

    /** The engine's own work on the descriptor at its pointer. */
    method SendCurrent()
      requires Abs().ring.InBounds()
      modifies this, desc
      ensures Abs() == SendStep(old(Abs()))
      ensures history == old(history) && blocked == old(blocked)
    {
      ghost var s := Abs();
      var x := desc[dma];
      if !suspended && x.own && x.len <= BUFFER_SIZE {
        wire := wire + [x.buf[..x.len]];
        desc[dma] := x.(own := false);
        dma := x.next;
        t, nis := t || x.ic, nis || x.ic;
        assert desc[..] == Send(s.ring).d;
      }
    }

    method CompleteFrame()
      requires Valid()
      modifies this, desc
      ensures Valid() && Abs() == SendStep(old(Abs())) && OnlyWakes() && isr == old(isr)
      ensures history == old(history) + [DmaSend]
    {
      hide Reached;
      ThenReached(desc.Length, history, DmaSend);
      SendCurrent();
      history := history + [DmaSend];
    }

    method RunsDry()
      requires Valid()
      modifies this
      ensures Valid() && Abs() == SuspendStep(old(Abs())) && OnlyWakes() && isr == old(isr)
      ensures history == old(history) + [DmaSuspend]
    {
      hide Reached;
      ThenReached(desc.Length, history, DmaSuspend);
      if !suspended && !desc[dma].own {
        suspended, tbus := true, true;
      }
      history := history + [DmaSuspend];
    }

    method ReceiveInterrupt()
      requires Valid()
      modifies this
      ensures Valid() && nis && OnlyWakes() && isr == old(isr)
      ensures history == old(history) + [RxInterrupt]
    {
      hide Reached;
      ThenReached(desc.Length, history, RxInterrupt);
      nis := true;
      history := history + [RxInterrupt];
    }

    method CompleteFrames(count: nat)
      requires Valid()
      modifies this, desc
      ensures Valid() && OnlyWakes() && isr == old(isr)
      ensures history == old(history) + seq(count, _ => DmaSend)
      ensures count == 0 ==> nis == old(nis)
    {
      hide Reached, SendStep;
      for i := 0 to count
        invariant Valid() && OnlyWakes() && isr == old(isr)
        invariant history == old(history) + seq(i, _ => DmaSend)
        invariant i == 0 ==> nis == old(nis)
      {
        CompleteFrame();
      }
    }

    method EnterInterrupt()
      requires Valid() && isr.Out? && nis
      modifies this
      ensures Valid() && Abs() == IsrStep(old(Abs())) && OnlyWakes() && isr.Entered? && !nis
      ensures history == old(history) + [Isr]
    {
      hide Reached;
      ThenReached(desc.Length, history, Isr);
      nis := false;
      isr, history := Entered, history + [Isr];
    }

    /** rt_sem_release: a suspended thread goes on, otherwise the value counts up. */
    method ReleaseSemaphore()
      requires blocked <==> pc.Blocked?
      modifies this`blocked, this`pc, this`sem
      ensures Abs() == Release(old(Abs())) && (blocked <==> pc.Blocked?)
      ensures pc == old(pc) || (old(pc.Blocked?) && pc == Copy(old(pc).p, 0, 0))
    {
      if blocked {
        blocked := false;
        pc := Copy(pc.p, 0, 0);
      } else {
        sem := sem + 1;
      }
    }

    method ServeTransmission() returns (transmitted: bool)
      requires Valid() && isr.Entered?
      modifies this
      ensures Valid() && Abs() == IsrStep(old(Abs())) && OnlyWakes() && nis == old(nis)
      ensures transmitted == old(t) && isr == if transmitted then Leaving else Out
      ensures history == old(history) + [Isr]
    {
      hide Reached, Release;
      ThenReached(desc.Length, history, Isr);
      transmitted := t;
      if !t {
        isr := Out;
      } else {
        if waiting {
          waiting := false;
          ReleaseSemaphore();
        }
        isr := Leaving;
      }
      history := history + [Isr];
    }

    method LeaveInterrupt()
      requires Valid() && isr.Leaving?
      modifies this
      ensures Valid() && Abs() == IsrStep(old(Abs())) && OnlyWakes() && isr.Out? && nis == old(nis)
      ensures history == old(history) + [Isr]
    {
      hide Reached;
      ThenReached(desc.Length, history, Isr);
      t := false;
      isr, history := Out, history + [Isr];
    }

    /** ETH_IRQHandler, restricted to what concerns transmission. */
    method InterruptHandler(first: nat, second: nat)
      requires Valid() && isr.Out? && nis
      modifies this, desc
      ensures Valid() && OnlyWakes() && isr.Out?
      ensures first == 0 && second == 0 ==> !nis
      ensures var h := old(history) + [Isr] + seq(first, _ => DmaSend) + [Isr];
              history == h || history == h + seq(second, _ => DmaSend) + [Isr]
    {
      EnterInterrupt();
      CompleteFrames(first);
      var transmitted := ServeTransmission();
      if transmitted {
        CompleteFrames(second);
        LeaveInterrupt();
      }
    }

    /** A preemption point: whatever the schedule says happens, and then a pending
        interrupt is served before the thread goes on. */
    method Preempt(activities: seq<Activity>)
      requires Valid() && isr.Out?
      modifies this, desc
      ensures Ready() && OnlyWakes()
    {
      for i := 0 to |activities|
        invariant Valid() && isr.Out? && OnlyWakes()
      {
        match activities[i]
        case Complete => CompleteFrame();
        case RunDry => RunsDry();
        case FrameReceived => ReceiveInterrupt();
        case Interrupt(first, second) => if nis { InterruptHandler(first, second); }
      }
      if nis {
        InterruptHandler(0, 0);
      }
    }

    // ----- rt_stm32_eth_tx

    method Begin(p: Pbufs)
      requires Ready() && pc.Idle? && Fits(p)
      modifies this
      ensures Ready() && pc == EthTx.TestOwn(p) && submitted == old(submitted) + [p]
      ensures history == old(history) + [Call(p)]
    {
      hide Reached;
      ThenReached(desc.Length, history, Call(p));
      pc, submitted, history := EthTx.TestOwn(p), submitted + [p], history + [Call(p)];
    }

    /** Suspended on the semaphore, or about to go on; gives up watching after so many
        preemption points without a wake-up. */
    method AwaitSemaphore(p: Pbufs, schedule: nat -> seq<Activity>, patience: nat)
      requires Ready() && (pc == EthTx.Blocked(p) || pc == Copy(p, 0, 0))
      modifies this, desc
      ensures Ready() && submitted == old(submitted) && (pc == EthTx.Blocked(p) || pc == Copy(p, 0, 0))
    {
      var i := 0;
      while blocked && i < patience
        invariant Ready() && submitted == old(submitted)
        invariant pc == EthTx.Blocked(p) || pc == Copy(p, 0, 0)
        decreases patience - i
      {
        Preempt(schedule(i));
        i := i + 1;
      }
    }

    /** The wait loop. Its body runs once at most: the semaphore is never detached, so
        taking it succeeds and the loop is left without another look at OWN. */
    method WaitForDescriptor(p: Pbufs, schedule: nat -> seq<Activity>, patience: nat) returns (outcome: Outcome)
      requires Ready() && pc == EthTx.TestOwn(p)
      modifies this, desc
      ensures Ready() && submitted == old(submitted)
      ensures outcome.Sent? ==> pc == Copy(p, 0, 0) && toSet < desc.Length && !desc[toSet].own
      ensures outcome.StillWaiting? ==> pc == EthTx.Blocked(p)
    {
      hide Reached, ThreadStep;
      var own := ReadOwn();
      if own {
        Preempt(schedule(0));
        RaiseFlag();
        Preempt(schedule(1));
        TakeSemaphore();
        AwaitSemaphore(p, (i: nat) => schedule(2 + i), patience);
      }
      Reachable();
      outcome := if blocked then StillWaiting else Sent;
    }

    /** The copy loop over the links of the chain. */
    method CopyChain(p: Pbufs, schedule: nat -> seq<Activity>)
      requires Ready() && pc == Copy(p, 0, 0)
      modifies this, desc
      ensures Ready() && submitted == old(submitted) && pc == EthTx.Mark(p)
      ensures toSet < desc.Length && Concat(p) <= desc[toSet].buf
    {
      hide Reached, ThreadStep, Inv;
      var offset: nat := 0;
      for i := 0 to |p|
        invariant Ready() && submitted == old(submitted)
        invariant pc == Copy(p, i, offset)
      {
        CopyOne(p[i], offset);
        offset := offset + |p[i]|;
        Preempt(schedule(i));
      }
      EndOfChain();
      Reachable();
      Filled(Abs());
    }

    /** Control word, ICMP checksum and OWN. */
    method HandOver(p: Pbufs, schedule: nat -> seq<Activity>)
      requires Ready() && pc == EthTx.Mark(p)
      modifies this, desc
      ensures Ready() && pc.TestTbus? && submitted == old(submitted)
      ensures exists w :: OnWire(Concat(p), w) && accepted == old(accepted) + [w]
    {
      hide Reached, ThreadStep, Framed, OnWire;
      FramedOnWire(Concat(p));
      WriteControl(|Concat(p)|);
      Preempt(schedule(0));
      ZeroChecksum();
      Preempt(schedule(1));
      SetOwn();
      Preempt(schedule(2));
    }

    /** The poll demand, where the engine reported that it ran dry, and the next descriptor. */
    method WakeEngine(schedule: nat -> seq<Activity>)
      requires Ready() && pc.TestTbus?
      modifies this, desc
      ensures Ready() && pc.Idle? && submitted == old(submitted)
      ensures old(toSet) < desc.Length && toSet == old(desc[toSet]).next
      ensures dma < desc.Length && !(suspended && desc[dma].own)
    {
      hide Reached, ThreadStep, Inv;
      var unavailable := ReadTbus();
      Preempt(schedule(0));
      if unavailable {
        WriteTbus();
        Preempt(schedule(1));
        PollDemand();
        Preempt(schedule(2));
      }
      NextDescriptor();
      Reachable();
      AtReturn(Abs());
    }

    /** What follows the wait loop. */
    method FillAndHandOver(p: Pbufs, schedule: (nat, nat) -> seq<Activity>)
      requires Ready() && pc == Copy(p, 0, 0)
      modifies this, desc
      ensures Ready() && pc.Idle? && submitted == old(submitted)
    {
      hide Reached, ThreadStep, Inv;
      Preempt(schedule(0, 0));
      CopyChain(p, (i: nat) => schedule(1, i));
      Preempt(schedule(2, 0));
      HandOver(p, (i: nat) => schedule(3, i));
      WakeEngine((i: nat) => schedule(4, i));
    }

    /** rt_stm32_eth_tx under an arbitrary schedule of hardware activity. */
    method Transmit(p: Pbufs, schedule: (nat, nat) -> seq<Activity>, patience: nat) returns (outcome: Outcome)
      requires Ready() && pc.Idle? && Fits(p)
      modifies this, desc
      ensures Ready() && submitted == old(submitted) + [p] && wire <= accepted
      ensures outcome.Sent? ==> pc.Idle? && exists w :: OnWire(Concat(p), w) && accepted == old(accepted) + [w]
      ensures outcome.Sent? ==> dma < desc.Length && !(suspended && desc[dma].own)
      ensures outcome.StillWaiting? ==> pc == EthTx.Blocked(p) && accepted == old(accepted)
    {
      hide Reached, ThreadStep, Inv, Framed, OnWire;
      FramedOnWire(Concat(p));
      Reachable();
      Begin(p);
      outcome := WaitForDescriptor(p, (i: nat) => schedule(0, i), patience);
      if outcome.Sent? {
        FillAndHandOver(p, (k: nat, i: nat) => schedule(1 + k, i));
      }
      Reachable();
      SameLogs(old(Abs()), Abs(), p);
      AtReturn(Abs());
    }
  }

  lemma AtReturn(s: State)
    requires Inv(s)
    ensures s.ring.wire <= s.ring.accepted
    ensures s.pc.Idle? ==> s.ring.dma < |s.ring.d| && !(s.suspended && s.ring.d[s.ring.dma].own)
  {
  }

  lemma Filled(s: State)
    requires Inv(s) && s.pc.Mark?
    ensures s.ring.toSet < |s.ring.d| && Concat(s.pc.p) <= s.ring.d[s.ring.toSet].buf
  {
  }

  /** With one more chain submitted, one more frame is accepted once the transmission is over. */
  lemma SameLogs(s: State, s': State, p: Pbufs)
    requires Inv(s) && Inv(s') && s.pc.Idle? && s'.submitted == s.submitted + [p]
    ensures s'.pc.Idle? ==> s'.ring.accepted == s.ring.accepted + [Framed(Concat(p))]
    ensures s'.pc.Blocked? ==> s'.ring.accepted == s.ring.accepted
  {
  }
}
