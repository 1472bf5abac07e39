/** The receive driver as the source writes it: descriptors in an array and one receive
    method, run against an engine that may fill descriptors at every preemption point.
    The transition system of module EthRx is its specification. */
module EthRxDriver {
  import opened Common
  import opened EthDesc
  import opened EthRx

  datatype Activity = FrameIn(a: Arrival) | EngineRunsDry | Interrupt

  function Sum(lens: seq<nat>): nat
  {
    if lens == [] then 0 else Sum(lens[..|lens| - 1]) + lens[|lens| - 1]
  }

  /** The copy loop: the buffer's bytes, distributed over the links of the allocated chain. */
  method CopyToChain(buf: seq<byte>, lens: seq<nat>) returns (links: seq<seq<byte>>)
    requires Sum(lens) <= |buf|
    ensures |links| == |lens| && forall i :: 0 <= i < |lens| ==> |links[i]| == lens[i]
    ensures Concat(links) == buf[..Sum(lens)]
  {
    links := [];
    var offset := 0;
    for i := 0 to |lens|
      invariant offset == Sum(lens[..i])
      invariant |links| == i && forall j :: 0 <= j < i ==> |links[j]| == lens[j]
      invariant offset <= |buf| && Concat(links) == buf[..offset]
    {
      PartialSum(lens, i);
      ConcatAppend(links, [buf[offset..offset + lens[i]]]);
      assert Concat([buf[offset..offset + lens[i]]]) == buf[offset..offset + lens[i]] + Concat([]);
      links := links + [buf[offset..offset + lens[i]]];
      offset := offset + lens[i];
    }
    assert lens[..|lens|] == lens;
  }

  lemma {:induction false} PartialSum(lens: seq<nat>, i: nat)
    requires i < |lens|
    ensures Sum(lens[..i + 1]) == Sum(lens[..i]) + lens[i] <= Sum(lens)
    decreases |lens|
  {
    assert lens[..i + 1][..i] == lens[..i];
    if i + 1 < |lens| {
      var init := lens[..|lens| - 1];
      PartialSum(init, i);
      assert init[..i + 1] == lens[..i + 1] && init[..i] == lens[..i];
    } else {
      assert lens[..i + 1] == lens;
    }
  }

  class Driver {
    const desc: array<Desc>     // DMARxDscrTab
    var toGet: nat              // DMARxDescToGet
    var dma: nat
    var suspended: bool
    var rbus: bool
    ghost var pc: Pc
    ghost var arrivals: seq<Arrival>
    ghost var returned: nat
    ghost var verdicts: seq<bool>
    ghost var delivered: seq<seq<byte>>
    ghost var history: seq<Event>

    ghost function Abs(): State
      reads this, desc
    {
      State(Ring(desc[..], toGet, dma, arrivals, returned), suspended, rbus, pc, verdicts, delivered)
    }

    ghost predicate Valid()
      reads this, desc
    {
      desc.Length > 0 && Abs() == Reached(desc.Length, history)
    }

    /** ETH_DMARxDescChainInit, with table indices for the addresses it writes. */
    constructor (count: nat, table: nat, buffers: nat)
      requires count > 0 && Fits(table, buffers, count)
      ensures Valid() && fresh(desc) && desc.Length == count && history == []
    {
      var chain := new Descriptor[count](_ => Descriptor(false, false, false, 0, 0));
      ChainInit(chain, table, buffers, true);
      var made := chain[..];
      forall i: nat | i < count
        ensures made[i].own && Index(table, made[i].second) == Wrap(i + 1, count)
      {
        ChainIsCycle(table, buffers, count, true, i);
      }
      desc := new Desc[count](i requires 0 <= i < |made| =>
                                Desc(made[i].own, Blank(), Index(table, made[i].second)));
      toGet, dma, suspended, rbus := 0, 0, false, false;
      pc, arrivals, returned, verdicts, delivered, history := Idle, [], 0, [], [], [];
      new;
      assert desc[..] == Init(count).ring.d;
    }

    lemma Reachable()
      requires Valid()
      ensures Inv(Abs())
    {
      ReachableInv(desc.Length, history);
    }

    // ----- the engine

    /** What the engine never touches; a current descriptor that is the CPU's is part of it. */
    twostate predicate ThreadUntouched()
      reads this, desc
    {
      pc == old(pc) && toGet == old(toGet) && returned == old(returned) &&
      verdicts == old(verdicts) && delivered == old(delivered) &&
      (toGet < desc.Length && !old(desc[toGet].own) ==> desc[toGet] == old(desc[toGet]))
    }

    method FillCurrent(a: Arrival)
      requires Valid() && Plausible(a)
      modifies this, desc
      ensures Valid() && Abs() == Step(old(Abs()), Arrive(a)) && ThreadUntouched()
      ensures history == old(history) + [Arrive(a)]
    {
      hide Reached;
      ghost var s := Abs();
      ThenReached(desc.Length, history, Arrive(a));
      if !suspended && desc[dma].own {
        var next := desc[dma].next;
        desc[dma] := desc[dma].(own := false, a := a);
        assert desc[..] == Fill(s.ring, a).d;
        dma, arrivals := next, arrivals + [a];
      }
      history := history + [Arrive(a)];
    }

    method RunsDry()
      requires Valid()
      modifies this
      ensures Valid() && Abs() == Step(old(Abs()), RunDry) && ThreadUntouched()
      ensures history == old(history) + [RunDry]
    {
      hide Reached;
      ThenReached(desc.Length, history, RunDry);
      if !suspended && !desc[dma].own {
        suspended, rbus := true, true;
      }
      history := history + [RunDry];
    }

    /** What ETH_IRQHandler does to the status that the thread tests. */
    method InterruptHandler()
      requires Valid()
      modifies `rbus, `history
      ensures Valid() && Abs() == Step(old(Abs()), EthRx.Interrupt) && ThreadUntouched()
      ensures history == old(history) + [EthRx.Interrupt]
    {
      hide Reached;
      ThenReached(desc.Length, history, EthRx.Interrupt);
      rbus := false;
      history := history + [EthRx.Interrupt];
    }

    method Preempt(activities: seq<Activity>)
      requires Valid() && forall i :: 0 <= i < |activities| && activities[i].FrameIn? ==> Plausible(activities[i].a)
      modifies this, desc
      ensures Valid() && ThreadUntouched()
    {
      hide Reached;
      for i := 0 to |activities|
        invariant Valid() && ThreadUntouched()
      {
        match activities[i]
        case FrameIn(a) => FillCurrent(a);
        case EngineRunsDry => RunsDry();
        case Interrupt => InterruptHandler();
      }
    }

    // ----- the thread's atomic pieces

    method Begin()
      requires Valid() && pc.Idle?
      modifies this
      ensures Valid() && Abs() == Step(old(Abs()), Call) && pc.TestOwn?
      ensures delivered == old(delivered) && returned == old(returned)
      ensures toGet == old(toGet) && desc[..] == old(desc[..])
      ensures history == old(history) + [Call]
    {
      hide Reached;
      ThenReached(desc.Length, history, Call);
      pc, history := TestOwn, history + [Call];
    }

    method ReadOwn() returns (own: bool)
      requires Valid() && pc.TestOwn?
      modifies this
      ensures Valid() && Abs() == ThreadStep(old(Abs()), true)
      ensures toGet < desc.Length && own == desc[toGet].own && pc == if own then Idle else EthRx.Fetch
      ensures delivered == old(delivered) && returned == old(returned)
      ensures toGet == old(toGet) && desc[..] == old(desc[..])
      ensures history == old(history) + [Thread(true)]
    {
      hide Reached;
      ThenReached(desc.Length, history, Thread(true));
      own := desc[toGet].own;
      pc, history := if own then Idle else EthRx.Fetch, history + [Thread(true)];
    }

    /** Status test, allocation and copy. The descriptor is the CPU's, so the engine does
        not interfere. lens are the links of the chain if there is memory for one. */
    method FetchPacket(memory: bool, lens: seq<nat>) returns (p: Option<seq<byte>>)
      requires Valid() && pc.Fetch?
      requires forall a :: a == desc[toGet].a && Good(a) ==> Sum(lens) == a.frameLength - CRC_SIZE
      modifies this
      ensures Valid() && Abs() == ThreadStep(old(Abs()), memory) && pc == EthRx.GiveBack(p)
      ensures toGet < desc.Length && Plausible(desc[toGet].a) && p == Verdict(desc[toGet].a, memory)
      ensures delivered == old(delivered) && returned == old(returned)
      ensures toGet == old(toGet) && desc[..] == old(desc[..])
      ensures history == old(history) + [Thread(memory)]
    {
      hide Reached;
      Reachable();
      ThenReached(desc.Length, history, Thread(memory));
      var a := desc[toGet].a;
      p := None;
      if !a.error && a.last && a.first {
        if memory {
          var links := CopyToChain(a.bytes, lens);
          p := Some(Concat(links));
        }
      }
      pc, verdicts, history := EthRx.GiveBack(p), verdicts + [memory], history + [Thread(memory)];
    }

    method SetOwn()
      requires Valid() && pc.GiveBack?
      modifies this, desc
      ensures Valid() && Abs() == ThreadStep(old(Abs()), true) && pc == TestRbus(old(pc).p)
      ensures delivered == old(delivered) && returned == old(returned) + 1
      ensures history == old(history) + [Thread(true)]
    {
      hide Reached;
      ghost var s := Abs();
      ThenReached(desc.Length, history, Thread(true));
      desc[toGet] := desc[toGet].(own := true);
      assert desc[..] == Return(s.ring).d;
      pc, returned, history := TestRbus(pc.p), returned + 1, history + [Thread(true)];
    }

    method ReadRbus() returns (unavailable: bool)
      requires Valid() && pc.TestRbus?
      modifies this
      ensures Valid() && Abs() == ThreadStep(old(Abs()), true)
      ensures pc == if unavailable then ClearRbus(old(pc).p) else Advance(old(pc).p)
      ensures delivered == old(delivered) && returned == old(returned)
      ensures history == old(history) + [Thread(true)]
    {
      hide Reached;
      ThenReached(desc.Length, history, Thread(true));
      unavailable := rbus;
      pc, history := if rbus then ClearRbus(pc.p) else Advance(pc.p), history + [Thread(true)];
    }

    method WriteRbus()
      requires Valid() && pc.ClearRbus?
      modifies this
      ensures Valid() && Abs() == ThreadStep(old(Abs()), true) && pc == Poll(old(pc).p)
      ensures delivered == old(delivered) && returned == old(returned)
      ensures history == old(history) + [Thread(true)]
    {
      hide Reached;
      ThenReached(desc.Length, history, Thread(true));
      rbus := false;
      pc, history := Poll(pc.p), history + [Thread(true)];
    }

    method PollDemand()
      requires Valid() && pc.Poll?
      modifies this
      ensures Valid() && Abs() == ThreadStep(old(Abs()), true) && pc == Advance(old(pc).p)
      ensures delivered == old(delivered) && returned == old(returned)
      ensures history == old(history) + [Thread(true)]
    {
      hide Reached;
      ThenReached(desc.Length, history, Thread(true));
      suspended := false;
      pc, history := Advance(pc.p), history + [Thread(true)];
    }

    method NextDescriptor()
      requires Valid() && pc.Advance?
      modifies this
      ensures Valid() && Abs() == ThreadStep(old(Abs()), true) && pc.Idle?
      ensures delivered == old(delivered) + if old(pc).p.Some? then [old(pc).p.value] else []
      ensures returned == old(returned) && history == old(history) + [Thread(true)]
    {
      hide Reached;
      ThenReached(desc.Length, history, Thread(true));
      toGet := desc[toGet].next;
      delivered := if pc.p.Some? then delivered + [pc.p.value] else delivered;
      pc, history := Idle, history + [Thread(true)];
    }

    // ----- rt_stm32_eth_rx

    /** Giving the descriptor back, restarting the engine if it ran dry, moving on. */
    method GiveBackAndAdvance(schedule: nat -> seq<Activity>)
      requires Valid() && pc.GiveBack?
      requires forall k: nat, i: nat :: i < |schedule(k)| && schedule(k)[i].FrameIn? ==> Plausible(schedule(k)[i].a)
      modifies this, desc
      ensures Valid() && pc.Idle? && returned == old(returned) + 1
      ensures delivered == old(delivered) + if old(pc).p.Some? then [old(pc).p.value] else []
    {
      hide Reached, ThreadStep;
      SetOwn();
      Preempt(schedule(0));
      var unavailable := ReadRbus();
      Preempt(schedule(1));
      if unavailable {
        WriteRbus();
        Preempt(schedule(2));
        PollDemand();
        Preempt(schedule(3));
      }
      NextDescriptor();
    }

    /** One call: the oldest arrival is handled, whatever becomes of it; a packet returned
        is the packet delivered. */
    method Receive(memory: bool, lens: Arrival -> seq<nat>, schedule: nat -> seq<Activity>)
      returns (p: Option<seq<byte>>)
      requires Valid() && pc.Idle?
      requires forall a {:trigger lens(a)} :: Plausible(a) && Good(a) ==> Sum(lens(a)) == a.frameLength - CRC_SIZE
      requires forall k: nat, i: nat :: i < |schedule(k)| && schedule(k)[i].FrameIn? ==> Plausible(schedule(k)[i].a)
      modifies this, desc
      ensures Valid() && pc.Idle?
      ensures delivered == old(delivered) + if p.Some? then [p.value] else []
      ensures returned == old(returned) + 1 || (returned == old(returned) && p.None?)
      ensures var x := old(desc[..]);
              old(toGet) < |x| && !x[old(toGet)].own ==>
                returned == old(returned) + 1 && Plausible(x[old(toGet)].a) &&
                forall f :: p == Some(f) <==> memory && CarriesFrame(x[old(toGet)].a, f)
      ensures PlausibleAll(arrivals) && returned == |verdicts| <= |arrivals|
      ensures delivered == Kept(arrivals[..returned], verdicts)
    {
      hide Reached, ThreadStep, CarriesFrame;
      p := None;
      Begin();
      Preempt(schedule(0));
      var own := ReadOwn();
      if !own {
        Preempt(schedule(1));
        Reachable();
        VerdictIsFrame(desc[toGet].a, memory);
        p := FetchPacket(memory, lens(desc[toGet].a));
        Preempt(schedule(2));
        GiveBackAndAdvance((k: nat) => schedule(3 + k));
      }
      DeliversInOrder(desc.Length, history);
    }
  }
}
