/** What a call of the transmit function can lead to when the engine's fetch and its
    suspension are two steps: an engine that stays suspended on a frame of its own, and a
    thread that waits for ever. Both are decided by what the caller finds. */
module EthTxStall {
  import opened Common
  import opened EthTx
  import opened EthTxFetch

  /** The same state with a running engine. */
  function Awake(b: State): State { b.(suspended := false) }

  predicate OwnsNext(b: State)
    requires b.ring.InBounds()
  {
    b.ring.d[b.ring.dma].own
  }

  // ----- what every run keeps

  /** All of the transmit path's invariant except the poll demand, which can be lost. */
  predicate EngineInv(s: Engine)
  {
    s.base.ring.InBounds() && Inv(Awake(s.base)) &&
    (s.base.suspended ==> s.base.tbus || s.base.pc.Poll?) && (s.fetched ==> !s.base.suspended)
  }

  lemma InitEngineInv(n: nat)
    requires n > 0
    ensures EngineInv(Engine(Init(n), false))
  {
    hide Inv;
    InitInv(n);
    assert Awake(Init(n)) == Init(n);
  }

  /** Only the poll demand and the two steps of the engine concern the suspension. */
  lemma ThreadStepAwake(b: State)
    requires b.ring.InBounds()
    ensures Awake(ThreadStep(b)) == ThreadStep(Awake(b))
    ensures ThreadStep(b).suspended == (b.suspended && !b.pc.Poll?)
    ensures b.pc.ClearTbus? ==> ThreadStep(b).pc.Poll?
    ensures ThreadStep(b).tbus == (b.tbus && !b.pc.ClearTbus?)
  {
    hide WaitStep, FillStep, TailStep;
    if Preparing(b.pc) {
      FillStepAwake(b);
    } else if GaveAway(b.pc) {
      hide FillStep;
      TailStepAwake(b);
    } else if WaitLoop(b.pc) {
      WaitStepAwake(b);
    }
  }

  lemma WaitStepAwake(b: State)
    requires b.ring.InBounds() && WaitLoop(b.pc)
    ensures var t := WaitStep(b);
            Awake(t) == WaitStep(Awake(b)) && t.suspended == b.suspended && t.tbus == b.tbus
  {
    if b.pc.Take? {
      TakeAwake(b);
    }
  }

  lemma TakeAwake(b: State)
    requires b.ring.InBounds() && b.pc.Take?
    ensures var t := WaitStep(b);
            Awake(t) == WaitStep(Awake(b)) && t.suspended == b.suspended && t.tbus == b.tbus
  {
  }

  lemma FillStepAwake(b: State)
    requires b.ring.InBounds() && Preparing(b.pc)
    ensures var t := FillStep(b);
            Awake(t) == FillStep(Awake(b)) && t.suspended == b.suspended && t.tbus == b.tbus
  {
    hide CopyLink, MarkDesc, CleanChecksum, Framed, Concat, Ring.Write, Give;
    if b.pc.Copy? {
      CopyStepAwake(b);
    }
  }

  lemma CopyStepAwake(b: State)
    requires b.ring.InBounds() && b.pc.Copy?
    ensures var t := FillStep(b);
            Awake(t) == FillStep(Awake(b)) && t.suspended == b.suspended && t.tbus == b.tbus
  {
    hide CopyLink, Ring.Write;
  }

  lemma TailStepAwake(b: State)
    requires b.ring.InBounds() && GaveAway(b.pc)
    ensures var t := TailStep(b);
            Awake(t) == TailStep(Awake(b)) && t.suspended == (b.suspended && !b.pc.Poll?) &&
            t.tbus == (b.tbus && !b.pc.ClearTbus?) && (b.pc.ClearTbus? ==> t.pc.Poll?)
  {
  }

  lemma OtherStepAwake(b: State, e: Event)
    requires b.ring.InBounds() && (e.Call? || e.Isr? || e.RxInterrupt?)
    ensures Awake(Step(b, e)) == Step(Awake(b), e)
    ensures Step(b, e).suspended == b.suspended && Step(b, e).tbus == b.tbus && Step(b, e).ring == b.ring
    ensures b.pc.Poll? ==> Step(b, e).pc.Poll?
  {
    hide Concat, IsrStep, Ring.InBounds;
    IsrStepAwake(b);
  }

  lemma IsrStepAwake(b: State)
    ensures var t := IsrStep(b);
            Awake(t) == IsrStep(Awake(b)) && t.suspended == b.suspended && t.tbus == b.tbus && t.ring == b.ring &&
            (b.pc.Poll? ==> t.pc.Poll?)
  {
    hide Release;
    ReleaseAwake(b.(waiting := false));
    assert Awake(b).(waiting := false) == Awake(b.(waiting := false));
  }

  lemma ReleaseAwake(b: State)
    ensures var t := Release(b);
            Awake(t) == Release(Awake(b)) && t.suspended == b.suspended && t.tbus == b.tbus && t.ring == b.ring &&
            (b.pc.Poll? ==> t.pc.Poll?)
  {
  }

  lemma BaseKeepsEngineInv(s: Engine, e: Event)
    requires EngineInv(s)
    ensures EngineInv(Act(s, Base(e)))
  {
    hide Inv, ThreadStep, IsrStep, SendStep;
    var b := s.base;
    StepKeepsInv(Awake(b), e);
    match e
    case Thread => if ThreadMayRun(b) { ThreadStepAwake(b); }
    case DmaSend =>
      SendStepSuspended(b);
      if !b.suspended { assert Awake(b) == b; }
    case DmaSuspend =>
    case _ => OtherStepAwake(b, e);
  }

  lemma SendStepSuspended(b: State)
    requires b.ring.InBounds()
    ensures SendStep(b).suspended == b.suspended
    ensures b.suspended ==> SendStep(b) == b
  {
  }

  lemma ActKeepsEngineInv(s: Engine, a: Action)
    requires EngineInv(s)
    ensures EngineInv(Act(s, a))
  {
    hide Inv, Step;
    match a
    case Base(e) => BaseKeepsEngineInv(s, e);
    case Fetch =>
    case Suspend => TbusKeepsInv(Awake(s.base));
  }

  lemma TbusKeepsInv(b: State)
    requires Inv(b) && !b.suspended
    ensures Inv(b.(tbus := true))
  {
    hide Segment, Prepared;
  }

  lemma {:induction false} ActsKeepEngineInv(s: Engine, xs: seq<Action>)
    requires EngineInv(s)
    ensures EngineInv(Acts(s, xs))
  {
    hide Inv, Act;
    if xs != [] {
      ActsKeepEngineInv(s, xs[..|xs| - 1]);
      ActKeepsEngineInv(Acts(s, xs[..|xs| - 1]), xs[|xs| - 1]);
    }
  }

  /** From power-up everything but the poll demand is kept, whenever the engine suspends
      itself. */
  lemma EveryRunKeepsEngineInv(n: nat, xs: seq<Action>)
    requires n > 0
    ensures EngineInv(Acts(Engine(Init(n), false), xs))
  {
    InitEngineInv(n);
    ActsKeepEngineInv(Engine(Init(n), false), xs);
  }

  // ----- runs

  function Bases(es: seq<Event>): seq<Action> { seq(|es|, i requires 0 <= i < |es| => Base(es[i])) }

  predicate NoCall(xs: seq<Action>) { forall x :: x in xs ==> !(x.Base? && x.e.Call?) }

  lemma {:induction false} ActsAppend(s: Engine, xs: seq<Action>, ys: seq<Action>)
    requires s.base.ring.InBounds()
    ensures Acts(s, xs + ys) == Acts(Acts(s, xs), ys)
  {
    hide Act;
    if ys == [] {
      assert xs + ys == xs;
    } else {
      ActsAppend(s, xs, ys[..|ys| - 1]);
      assert (xs + ys)[..|xs + ys| - 1] == xs + ys[..|ys| - 1];
    }
  }

  lemma ActFirst(s: Engine, a: Action, xs: seq<Action>)
    requires s.base.ring.InBounds()
    ensures Acts(s, [a] + xs) == Acts(Act(s, a), xs)
  {
    hide Act;
    ActsAppend(s, [a], xs);
    ThenAct(s, [], a);
    assert [] + [a] == [a];
  }

  /** A run of the engine with one step for fetch and suspension is a run here, as long as it
      neither suspends nor, after a fetch, sends. */
  lemma {:induction false} Lift(s: Engine, es: seq<Event>)
    requires s.base.ring.InBounds()
    requires forall e :: e in es ==> !e.DmaSuspend? && (s.fetched ==> !e.DmaSend?)
    ensures Acts(s, Bases(es)) == s.(base := Run(s.base, es))
  {
    hide Step;
    if es != [] {
      var fs := es[..|es| - 1];
      Lift(s, fs);
      assert es[|es| - 1] in es;
      assert Bases(es)[..|Bases(es)| - 1] == Bases(fs);
    }
  }

  lemma BasesNoCall(es: seq<Event>)
    requires CallFree(es)
    ensures NoCall(Bases(es))
  {
    forall x | x in Bases(es)
      ensures !(x.Base? && x.e.Call?)
    {
      var i :| 0 <= i < |es| && x == Base(es[i]);
      assert es[i] in es;
    }
  }

  // ----- an engine that stays suspended on a frame of its own

  /** Without a further call the engine stays suspended on a descriptor that it owns. */
  ghost predicate Stalled(s: Engine)
    requires s.base.ring.InBounds()
  {
    forall xs | NoCall(xs) :: Acts(s, xs).base.suspended && OwnsNext(Acts(s, xs).base)
  }

  /** The engine is suspended on its own descriptor, and the thread does nothing. */
  predicate Asleep(s: Engine)
    requires s.base.ring.InBounds()
  {
    var b := s.base;
    b.suspended && !s.fetched && OwnsNext(b) && (b.pc.Idle? || (b.pc.Blocked? && !b.t))
  }

  lemma ActStaysAsleep(s: Engine, a: Action)
    requires s.base.ring.InBounds() && Asleep(s) && !(a.Base? && a.e.Call?)
    ensures Asleep(Act(s, a))
  {
  }

  lemma {:induction false} StaysAsleep(s: Engine, xs: seq<Action>)
    requires s.base.ring.InBounds() && Asleep(s) && NoCall(xs)
    ensures Asleep(Acts(s, xs))
  {
    hide Act, Asleep;
    if xs != [] {
      var ys := xs[..|xs| - 1];
      StaysAsleep(s, ys);
      assert xs[|xs| - 1] in xs;
      ActStaysAsleep(Acts(s, ys), xs[|xs| - 1]);
    }
  }

  lemma AsleepIsStalled(s: Engine)
    requires s.base.ring.InBounds() && Asleep(s)
    ensures Stalled(s)
  {
    hide Acts;
    forall xs | NoCall(xs)
      ensures Acts(s, xs).base.suspended && OwnsNext(Acts(s, xs).base)
    {
      StaysAsleep(s, xs);
    }
  }

  // a call on an engine that is suspended already

  /** From a call on a suspended engine with a free descriptor on: whenever the engine is
      suspended on a descriptor that it owns, the thread has the poll demand still before it. */
  predicate WillPoll(s: Engine)
  {
    var b := s.base;
    b.ring.InBounds() && EngineInv(s) && NeverWaits(b) &&
    (s.fetched ==> !OwnsNext(b)) &&
    (b.pc.TestOwn? || Preparing(b.pc) ==> b.suspended) &&
    (b.pc.Advance? || b.pc.Idle? ==> !(b.suspended && OwnsNext(b)))
  }

  lemma ThreadWillPoll(s: Engine)
    requires WillPoll(s) && ThreadMayRun(s.base)
    ensures WillPoll(Act(s, Base(Thread)))
  {
    hide EngineInv;
    ActKeepsEngineInv(s, Base(Thread));
    ThreadNeverWaits(s.base);
    hide NeverWaits;
    ThreadStepAwake(s.base);
    ThreadKeepsPoll(s);
  }

  lemma ThreadKeepsPoll(s: Engine)
    requires WillPoll(s)
    ensures var b := ThreadStep(s.base);
            (s.fetched ==> !OwnsNext(b)) &&
            (b.pc.TestOwn? || Preparing(b.pc) ==> s.base.suspended) &&
            (b.pc.Advance? || b.pc.Idle? ==> !(b.suspended && OwnsNext(b)))
  {
    hide Inv, WaitStep, FillStep, TailStep;
    var b := s.base;
    if Preparing(b.pc) {
      FillMovesOn(b);
    } else if GaveAway(b.pc) {
      TailMovesOn(b);
    } else if WaitLoop(b.pc) {
      LoopMovesOn(b);
    }
  }

  lemma LoopMovesOn(b: State)
    requires b.ring.InBounds() && NeverWaits(b) && WaitLoop(b.pc)
    ensures var t := WaitStep(b);
            b.pc.TestOwn? && t.pc == Copy(b.pc.p, 0, 0) && t.suspended == b.suspended
  {
  }

  lemma FillMovesOn(b: State)
    requires b.ring.InBounds() && Preparing(b.pc)
    ensures Preparing(FillStep(b).pc) || FillStep(b).pc.TestTbus?
  {
    hide CopyLink, MarkDesc, CleanChecksum, Framed, Concat, Give;
  }

  lemma TailMovesOn(b: State)
    requires b.ring.InBounds() && GaveAway(b.pc)
    ensures var t := TailStep(b);
            OwnsNext(t) == OwnsNext(b) && (t.pc.Idle? || GaveAway(t.pc)) && (t.pc.Idle? ==> b.pc.Advance?) &&
            (t.suspended ==> b.suspended) && (t.pc.Advance? ==> !t.suspended || (b.pc.TestTbus? && !b.tbus))
  {
  }

  lemma IsrWillPoll(s: Engine)
    requires WillPoll(s)
    ensures WillPoll(Act(s, Base(Isr))) && Act(s, Base(Isr)).base.pc == s.base.pc
  {
    hide EngineInv;
    ActKeepsEngineInv(s, Base(Isr));
    OtherStepAwake(s.base, Isr);
  }

  lemma ActWillPoll(s: Engine, a: Action)
    requires WillPoll(s) && !(a.Base? && a.e.Call?)
    ensures WillPoll(Act(s, a))
  {
    hide EngineInv, ThreadStep, IsrStep;
    ActKeepsEngineInv(s, a);
    match a
    case Base(Thread) => if ThreadMayRun(s.base) { ThreadWillPoll(s); }
    case Base(Isr) => IsrWillPoll(s);
    case Base(DmaSend) =>
      StepNeverWaits(s.base, DmaSend);
      SendStepSuspended(s.base);
    case _ =>
  }

  lemma {:induction false} ActsWillPoll(s: Engine, xs: seq<Action>)
    requires WillPoll(s) && NoCall(xs)
    ensures WillPoll(Acts(s, xs))
  {
    hide Act, EngineInv;
    if xs != [] {
      var ys := xs[..|xs| - 1];
      ActsWillPoll(s, ys);
      assert xs[|xs| - 1] in xs;
      ActWillPoll(Acts(s, ys), xs[|xs| - 1]);
    }
  }

  /** An upper bound on the steps of handler and thread up to the poll demand. */
  ghost function Left(s: Engine): nat
    requires WillPoll(s)
  {
    var b := s.base;
    10 * (if b.pc.TestOwn? then 10 + |b.pc.p| else StepsLeft(Awake(b))) +
    IsrLeft(b)
  }

  function IsrLeft(b: State): nat
  {
    (match b.isr case Out => 0 case Entered => 2 case Leaving => 1) + (if b.nis then 3 else 0)
  }

  lemma IsrCounts(b: State)
    requires !ThreadMayRun(b)
    ensures IsrLeft(IsrStep(b)) < IsrLeft(b)
  {
  }

  lemma IsrLeftIsSmall(b: State)
    ensures IsrLeft(b) <= 5 && (ThreadMayRun(b) ==> IsrLeft(b) == 0)
  {
  }

  lemma IsrProgresses(s: Engine)
    requires WillPoll(s) && !ThreadMayRun(s.base)
    ensures WillPoll(Act(s, Base(Isr))) && Left(Act(s, Base(Isr))) < Left(s)
  {
    hide Inv, NeverWaits, IsrLeft, IsrStep, OwnsNext, Ring.InBounds;
    IsrWillPoll(s);
    IsrCounts(s.base);
  }

  lemma ThreadProgresses(s: Engine)
    requires WillPoll(s) && ThreadMayRun(s.base) && !s.base.pc.Idle?
    ensures WillPoll(Act(s, Base(Thread))) && Left(Act(s, Base(Thread))) < Left(s)
  {
    hide Inv, NeverWaits, WaitStep, FillStep, TailStep;
    ThreadWillPoll(s);
    var b := s.base;
    ThreadStepAwake(b);
    NothingSignalled(b);
    if Preparing(b.pc) {
      FillProgresses(Awake(b));
    } else if GaveAway(b.pc) {
      TailProgresses(Awake(b));
    } else {
      LoopMovesOn(b);
    }
  }

  lemma NothingSignalled(b: State)
    requires Inv(Awake(b)) && ThreadMayRun(b)
    ensures Quiet(Awake(b)) && b.sem == (if b.pc.Take? && !b.waiting then 1 else 0)
  {
    hide RingInv, Prepared, Demand, Logged;
  }

  lemma {:induction false} Polls(s: Engine) returns (xs: seq<Action>)
    requires WillPoll(s)
    ensures NoCall(xs)
    ensures var b := Acts(s, xs).base; !(b.suspended && OwnsNext(b))
    decreases Left(s)
  {
    hide Act, EngineInv, Left;
    xs := [];
    if s.base.suspended && OwnsNext(s.base) {
      var a := if ThreadMayRun(s.base) then Base(Thread) else Base(Isr);
      if ThreadMayRun(s.base) { ThreadProgresses(s); } else { IsrProgresses(s); }
      var ys := Polls(Act(s, a));
      ActFirst(s, a, ys);
      xs := [a] + ys;
    }
  }

  /** A call on a suspended engine with a free descriptor never leaves the engine stalled. */
  lemma SuspendedCallIsServed(s: Engine, p: Pbufs, xs: seq<Action>)
    requires EngineInv(s) && s.base.pc.Idle? && ThreadMayRun(s.base) && Fits(p) && NoCall(xs)
    requires s.base.suspended && !s.base.ring.Current().own
    ensures !Stalled(Acts(s, [Base(Call(p))] + xs))
  {
    hide Act, Acts, Inv;
    var t := Act(s, Base(Call(p)));
    CallWillPoll(s, p);
    ActFirst(s, Base(Call(p)), xs);
    ActsWillPoll(t, xs);
    var ys := Polls(Acts(t, xs));
  }

  lemma CallWillPoll(s: Engine, p: Pbufs)
    requires EngineInv(s) && s.base.pc.Idle? && ThreadMayRun(s.base) && Fits(p)
    requires s.base.suspended && !s.base.ring.Current().own
    ensures WillPoll(Act(s, Base(Call(p))))
  {
    hide Inv;
    ActKeepsEngineInv(s, Base(Call(p)));
  }

  // a call on a running engine, or one that finds a full ring

  /** A thread in the loop test on a full ring ends up suspended; three steps. */
  lemma FullRingBlocks(s: Engine)
    requires EngineInv(s) && s.base.pc.TestOwn? && ThreadMayRun(s.base) && s.base.ring.Current().own
    ensures var t := Acts(s, Bases([Thread, Thread, Thread]));
            t == s.(base := s.base.(waiting := true, pc := Blocked(s.base.pc.p))) && !t.base.t && OwnsNext(t.base)
  {
    hide Acts, Inv, ThreadStep;
    var b := s.base;
    NothingSignalled(b);
    FullRingOwnsNext(b);
    Lift(s, [Thread, Thread, Thread]);
    var c := b.(pc := SetFlag(b.pc.p));
    TestsOwn(b);
    FlagsAndBlocks(c);
    hide Step;
    ThenStep(b, [], Thread);
    ThenStep(b, [Thread], Thread);
    ThenStep(b, [Thread, Thread], Thread);
    assert [] + [Thread] == [Thread] && [Thread] + [Thread] == [Thread, Thread];
    assert [Thread, Thread] + [Thread] == [Thread, Thread, Thread];
  }

  lemma TestsOwn(b: State)
    requires b.ring.InBounds() && b.pc.TestOwn? && ThreadMayRun(b) && b.ring.Current().own
    ensures Step(b, Thread) == b.(pc := SetFlag(b.pc.p))
  {
  }

  lemma FullRingOwnsNext(b: State)
    requires Inv(Awake(b)) && b.pc.TestOwn? && b.ring.Current().own
    ensures OwnsNext(b) && InFlight(b.ring) > 0
  {
    hide Prepared, Handshake, Demand, Logged;
    OwnedMeansFull(b.ring);
  }

  /** On a full ring with the engine suspended, or about to be, both sides sleep. */
  lemma FullRingStalls(s: Engine) returns (xs: seq<Action>)
    requires EngineInv(s) && s.base.pc.TestOwn? && ThreadMayRun(s.base) && s.base.ring.Current().own
    requires s.base.suspended || s.fetched
    ensures NoCall(xs) && Asleep(Acts(s, xs)) && Acts(s, xs).base.pc.Blocked?
  {
    hide Acts, Inv;
    var es := [Thread, Thread, Thread];
    FullRingBlocks(s);
    BasesNoCall(es);
    xs := Bases(es);
    if s.fetched {
      ThenAct(s, xs, Suspend);
      xs := xs + [Suspend];
    }
  }

  /** After a fetch the whole transmission may pass before the engine suspends itself. */
  lemma FetchedStalls(s: Engine) returns (xs: seq<Action>)
    requires EngineInv(s) && s.base.pc.TestOwn? && ThreadMayRun(s.base) && !s.base.ring.Current().own && s.fetched
    ensures NoCall(xs) && Asleep(Acts(s, xs))
  {
    hide Acts, Act, Inv;
    var b := s.base;
    assert Awake(b) == b;
    NothingSignalled(b);
    var c := Step(b, Thread);
    LeavesTheLoop(b);
    var es := Finishes(c);
    StepFirst(b, Thread, es);
    es := [Thread] + es;
    Lift(s, es);
    BasesNoCall(es);
    ThenAct(s, Bases(es), Suspend);
    xs := Bases(es) + [Suspend];
    SleepsAfterSuspend(Acts(s, Bases(es)));
  }

  lemma LeavesTheLoop(b: State)
    requires Quiet(b) && b.pc.TestOwn? && !b.ring.Current().own
    ensures var c := Step(b, Thread); Quiet(c) && c.pc.Copy? && InFlight(c.ring) == InFlight(b.ring) >= 0
  {
    StepKeepsInv(b, Thread);
  }

  lemma SleepsAfterSuspend(s: Engine)
    requires Inv(s.base) && s.base.pc.Idle? && s.fetched && InFlight(s.base.ring) > 0
    ensures Asleep(Act(s, Suspend))
  {
    assert Distance(s.base.ring.dma, s.base.ring.dma, |s.base.ring.d|) == 0;
  }

  /** Before a fetch everything may be sent and served first. */
  lemma RunningStalls(s: Engine) returns (xs: seq<Action>)
    requires EngineInv(s) && s.base.pc.TestOwn? && ThreadMayRun(s.base) && !s.base.suspended && !s.fetched
    ensures NoCall(xs) && Asleep(Acts(s, xs))
  {
    hide Acts, Act, Inv;
    var es := Drains(s.base);
    Lift(s, es);
    BasesNoCall(es);
    var t := Acts(s, Bases(es));
    FetchesFree(t);
    var u := Act(t, Fetch);
    var ys := FetchedStalls(u);
    ActFirst(t, Fetch, ys);
    ActsAppend(s, Bases(es), [Fetch] + ys);
    xs := Bases(es) + ([Fetch] + ys);
  }

  lemma FetchesFree(s: Engine)
    requires Inv(s.base) && InFlight(s.base.ring) == 0 && !s.base.suspended
    ensures var t := Act(s, Fetch);
            t == Engine(s.base, true) && EngineInv(t) && !s.base.ring.Current().own
  {
    assert Awake(s.base) == s.base;
    SegmentIsOwned(s.base.ring);
  }

  /** Everything in flight is sent and the interrupt served before the thread looks at OWN. */
  lemma Drains(b: State) returns (es: seq<Event>)
    requires Inv(Awake(b)) && b.pc.TestOwn? && ThreadMayRun(b) && !b.suspended
    ensures CallFree(es) && forall e :: e in es ==> !e.DmaSuspend?
    ensures var c := Run(b, es);
            Inv(c) && c.pc == b.pc && ThreadMayRun(c) && InFlight(c.ring) == 0 && !c.suspended
  {
    hide Inv, Step;
    assert Awake(b) == b;
    es := [];
    InvBasics(b);
    if InFlight(b.ring) > 0 {
      var gs := SendsAll(b);
      var c := Run(b, gs);
      ServedWithoutFlag(c);
      StepFirst(c, Isr, [Isr] + ([Isr] + []));
      StepFirst(Step(c, Isr), Isr, [Isr] + []);
      StepFirst(Step(Step(c, Isr), Isr), Isr, []);
      var hs := [Isr] + ([Isr] + ([Isr] + []));
      RunAppend(b, gs, hs);
      es := gs + hs;
      RunKeepsInv(b, es);
      NotCalls(gs);
    }
  }

  lemma InvBasics(b: State)
    requires Inv(b)
    ensures b.ring.InBounds() && InFlight(b.ring) >= 0
  {
  }

  lemma NotCalls(gs: seq<Event>)
    requires forall e :: e in gs ==> e.DmaSend?
    ensures var es := gs + ([Isr] + ([Isr] + ([Isr] + [])));
            CallFree(es) && forall e :: e in es ==> !e.DmaSuspend?
  {
  }

  /** A call from which the engine can end up suspended on a frame of its own, until a
      further call: exactly a call that finds the engine running, or its descriptor still
      owned. The state is any that a run can lead to, a lost poll demand included. */
  lemma MayStallIff(s: Engine, p: Pbufs)
    requires EngineInv(s) && s.base.pc.Idle? && ThreadMayRun(s.base) && Fits(p)
    ensures (exists xs :: NoCall(xs) && Stalled(Acts(s, [Base(Call(p))] + xs))) <==>
            !s.base.suspended || s.base.ring.Current().own
  {
    hide Acts, Inv, Stalled, Asleep;
    if !s.base.suspended || s.base.ring.Current().own {
      var t := Act(s, Base(Call(p)));
      ActKeepsEngineInv(s, Base(Call(p)));
      var xs;
      if !s.base.suspended && !s.fetched {
        xs := RunningStalls(t);
      } else if s.base.ring.Current().own {
        xs := FullRingStalls(t);
      } else {
        xs := FetchedStalls(t);
      }
      AsleepIsStalled(Acts(t, xs));
      ActFirst(s, Base(Call(p)), xs);
    } else {
      forall xs | NoCall(xs)
        ensures !Stalled(Acts(s, [Base(Call(p))] + xs))
      {
        SuspendedCallIsServed(s, p, xs);
      }
    }
  }

  // ----- a thread that waits for ever

  /** A suspended thread that no run of the two-step engine can wake. */
  ghost predicate Hung(s: Engine)
    requires s.base.ring.InBounds()
  {
    forall xs :: Acts(s, xs).base.pc.Blocked?
  }

  /** No completion will be signalled. */
  predicate NoMoreSignals(s: Engine)
  {
    !s.base.t && (InFlight(s.base.ring) == 0 || s.base.suspended || s.fetched)
  }

  lemma ActWakesNobody(s: Engine, a: Action)
    requires EngineInv(s) && s.base.pc.Blocked? && NoMoreSignals(s)
    ensures Act(s, a).base.pc.Blocked? && NoMoreSignals(Act(s, a))
  {
    hide Prepared, Handshake, Demand, Logged, Concat;
    var r := s.base.ring;
    assert Distance(r.dma, r.dma, |r.d|) == 0;
  }

  lemma {:induction false} RunWakesNobody(s: Engine, xs: seq<Action>)
    requires EngineInv(s) && s.base.pc.Blocked? && NoMoreSignals(s)
    ensures Acts(s, xs).base.pc.Blocked? && NoMoreSignals(Acts(s, xs))
  {
    hide Act, Inv, NoMoreSignals;
    if xs != [] {
      var ys := xs[..|xs| - 1];
      RunWakesNobody(s, ys);
      ActsKeepEngineInv(s, ys);
      ActWakesNobody(Acts(s, ys), xs[|xs| - 1]);
    }
  }

  /** A suspended thread is lost exactly when no completion is signalled and the engine has
      nothing to send, or will not send. */
  lemma HungExactlyWhen(s: Engine)
    requires EngineInv(s) && s.base.pc.Blocked?
    ensures Hung(s) <==> NoMoreSignals(s)
  {
    hide Acts, Inv;
    if NoMoreSignals(s) {
      forall xs
        ensures Acts(s, xs).base.pc.Blocked?
      {
        RunWakesNobody(s, xs);
      }
    } else if s.base.t {
      SignalWakesHere(s);
    } else {
      SendWakes(s);
    }
  }

  lemma SignalWakesHere(s: Engine)
    requires EngineInv(s) && s.base.pc.Blocked? && s.base.t
    ensures !Hung(s)
  {
    hide Acts, Inv;
    var es := if s.base.isr.Out? then [Isr, Isr] else [Isr];
    Lift(s, es);
    ServedWakes(s.base);
    assert !Acts(s, Bases(es)).base.pc.Blocked?;
  }

  lemma ServedWakes(b: State)
    requires Inv(Awake(b)) && b.pc.Blocked? && b.t
    ensures !Run(b, if b.isr.Out? then [Isr, Isr] else [Isr]).pc.Blocked?
  {
    hide RingInv, Prepared, Demand, Logged;
    InvBasics(Awake(b));
    ThenStep(b, [], Isr);
    ThenStep(b, [Isr], Isr);
    assert [] + [Isr] == [Isr] && [Isr] + [Isr] == [Isr, Isr];
  }

  lemma SendWakes(s: Engine)
    requires EngineInv(s) && s.base.pc.Blocked? && !s.base.t && !NoMoreSignals(s)
    ensures !Hung(s)
  {
    hide Acts, Inv;
    var t := Act(s, Base(DmaSend));
    ActKeepsEngineInv(s, Base(DmaSend));
    SendSignals(s.base);
    SignalWakesHere(t);
    var xs :| !Acts(t, xs).base.pc.Blocked?;
    ActFirst(s, Base(DmaSend), xs);
    assert !Acts(s, [Base(DmaSend)] + xs).base.pc.Blocked?;
  }

  lemma SendSignals(b: State)
    requires Inv(Awake(b)) && !b.suspended && InFlight(b.ring) != 0
    ensures Step(b, DmaSend).t && Step(b, DmaSend).pc == b.pc
  {
    assert Distance(b.ring.dma, b.ring.dma, |b.ring.d|) == 0;
    SendShrinksSegment(b.ring);
  }

  lemma {:induction false} ActsNeverWait(s: Engine, xs: seq<Action>)
    requires s.base.ring.InBounds() && NeverWaits(s.base) && NoCall(xs)
    ensures NeverWaits(Acts(s, xs).base)
  {
    hide Step;
    if xs != [] {
      var ys, a := xs[..|xs| - 1], xs[|xs| - 1];
      ActsNeverWait(s, ys);
      assert a in xs;
      if a.Base? {
        StepNeverWaits(Acts(s, ys).base, a.e);
      }
    }
  }

  /** With two steps, too, a call can end in a wait for ever exactly if its descriptor is
      still owned when it is called. */
  lemma MayHangIffOwned(s: Engine, p: Pbufs)
    requires EngineInv(s) && s.base.pc.Idle? && ThreadMayRun(s.base) && Fits(p)
    ensures (exists xs :: NoCall(xs) && Hung(Acts(s, [Base(Call(p))] + xs))) <==> s.base.ring.Current().own
  {
    hide Acts, Inv, Hung;
    if s.base.ring.Current().own {
      var xs := OwnedCallHangs(s, p);
    } else {
      forall xs | NoCall(xs)
        ensures !Hung(Acts(s, [Base(Call(p))] + xs))
      {
        ActFirst(s, Base(Call(p)), xs);
        ActsNeverWait(Act(s, Base(Call(p))), xs);
        NotHung(Acts(s, [Base(Call(p))] + xs));
      }
    }
  }

  lemma NotHung(s: Engine)
    requires s.base.ring.InBounds() && !s.base.pc.Blocked?
    ensures !Hung(s)
  {
    assert Acts(s, []) == s;
  }

  lemma OwnedCallHangs(s: Engine, p: Pbufs) returns (xs: seq<Action>)
    requires EngineInv(s) && s.base.pc.Idle? && ThreadMayRun(s.base) && Fits(p) && s.base.ring.Current().own
    ensures NoCall(xs) && Hung(Acts(s, [Base(Call(p))] + xs))
  {
    hide Acts, Act, Inv, Hung, Step;
    var c := Base(Call(p));
    if s.base.suspended || s.fetched {
      xs := SleepingCallBlocks(s, p);
    } else {
      xs := AwakeCallBlocks(s, p);
    }
    ActsKeepEngineInv(s, [c] + xs);
    hide EngineInv;
    HungExactlyWhen(Acts(s, [c] + xs));
  }

  lemma SleepingCallBlocks(s: Engine, p: Pbufs) returns (xs: seq<Action>)
    requires EngineInv(s) && s.base.pc.Idle? && ThreadMayRun(s.base) && Fits(p) && s.base.ring.Current().own
    requires s.base.suspended || s.fetched
    ensures NoCall(xs)
    ensures var t := Acts(s, [Base(Call(p))] + xs); t.base.pc.Blocked? && NoMoreSignals(t)
  {
    hide Acts, Inv;
    ActKeepsEngineInv(s, Base(Call(p)));
    xs := FullRingStalls(Act(s, Base(Call(p))));
    ActFirst(s, Base(Call(p)), xs);
  }

  lemma AwakeCallBlocks(s: Engine, p: Pbufs) returns (xs: seq<Action>)
    requires EngineInv(s) && s.base.pc.Idle? && ThreadMayRun(s.base) && Fits(p) && s.base.ring.Current().own
    requires !s.base.suspended && !s.fetched
    ensures NoCall(xs)
    ensures var t := Acts(s, [Base(Call(p))] + xs); t.base.pc.Blocked? && NoMoreSignals(t)
  {
    hide Acts, Inv, Step;
    assert Awake(s.base) == s.base;
    var es := OwnedMayWaitForever(s.base, p);
    Lift(s, [Call(p)] + es);
    BasesNoCall(es);
    xs := Bases(es);
    assert Bases([Call(p)] + es) == [Base(Call(p))] + xs;
    StuckIsHung(s.base, [Call(p)] + es);
  }

  lemma StuckIsHung(b: State, es: seq<Event>)
    requires Inv(b) && Stuck(Run(b, es))
    ensures var c := Run(b, es); c.pc.Blocked? && InFlight(c.ring) == 0 && !c.t
  {
    hide Inv;
    InvBasics(b);
    RunKeepsInv(b, es);
    assert Run(Run(b, es), []) == Run(b, es);
    StuckExactlyWhen(Run(b, es));
  }
}
