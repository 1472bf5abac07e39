/** The transmit engine with its descriptor fetch and its suspension as two steps: between
    them the thread may give the fetched descriptor to the engine. This is where a poll
    demand can be lost. Everything else is as in module EthTx. */
module EthTxFetch {
  import opened Common
  import opened EthTx

  /** fetched: the engine has read a clear OWN bit and has not suspended itself yet. */
  datatype Engine = Engine(base: State, fetched: bool)

  datatype Action = Base(e: Event) | Fetch | Suspend

  function Act(s: Engine, a: Action): (s': Engine)
    requires s.base.ring.InBounds()
    ensures s'.base.ring.InBounds() && |s'.base.ring.d| == |s.base.ring.d|
  {
    match a
    case Base(e) => if e.DmaSuspend? || (e.DmaSend? && s.fetched) then s else s.(base := Step(s.base, e))
    case Fetch => if !s.base.suspended && !s.base.ring.d[s.base.ring.dma].own then s.(fetched := true) else s
    case Suspend => if s.fetched then Engine(s.base.(suspended := true, tbus := true), false) else s
  }

  function Acts(s: Engine, xs: seq<Action>): (s': Engine)
    requires s.base.ring.InBounds()
    ensures s'.base.ring.InBounds() && |s'.base.ring.d| == |s.base.ring.d|
  {
    if xs == [] then s else Act(Acts(s, xs[..|xs| - 1]), xs[|xs| - 1])
  }

  /** The steps in which the thread is about to find out that the engine suspended itself. */
  predicate Wakes(pc: Pc) { pc.TestTbus? || pc.ClearTbus? || pc.Poll? }

  /** The engine suspends itself on a descriptor that it has been given since its fetch, and
      the test of TBUS is over. */
  predicate Late(s: Engine, a: Action)
    requires s.base.ring.InBounds()
  {
    a.Suspend? && s.fetched && s.base.ring.d[s.base.ring.dma].own && !Wakes(s.base.pc)
  }

  predicate FetchInv(s: Engine) { Inv(s.base) && (s.fetched ==> !s.base.suspended) }

  lemma BaseKeepsFetch(s: Engine, e: Event)
    requires FetchInv(s)
    ensures FetchInv(Act(s, Base(e)))
  {
    hide ThreadStep, Segment, Prepared, Handshake, Demand, Logged;
    StepKeepsInv(s.base, e);
    if e.Thread? && s.fetched {
      ThreadOnlyResumes(s.base);
    }
  }

  lemma ThreadOnlyResumes(s: State)
    requires s.ring.InBounds() && !s.suspended
    ensures !ThreadStep(s).suspended
  {
    hide CopyLink, MarkDesc, CleanChecksum, Framed, Concat;
  }

  /** A step keeps the invariant exactly if it is not a late suspension. */
  lemma ActKeepsInvIffNotLate(s: Engine, a: Action)
    requires FetchInv(s)
    ensures FetchInv(Act(s, a)) <==> !Late(s, a)
  {
    match a
    case Base(e) => BaseKeepsFetch(s, e);
    case Fetch =>
    case Suspend => if s.fetched { SuspendKeepsIffNotLate(s); }
  }

  lemma SuspendKeepsIffNotLate(s: Engine)
    requires FetchInv(s) && s.fetched
    ensures Inv(s.base.(suspended := true, tbus := true)) <==> !Late(s, Suspend)
  {
    hide Segment, Prepared;
  }

  /** No suspension of the run is late. */
  predicate Timely(s: Engine, xs: seq<Action>)
    requires s.base.ring.InBounds()
  {
    xs == [] || (Timely(s, xs[..|xs| - 1]) && !Late(Acts(s, xs[..|xs| - 1]), xs[|xs| - 1]))
  }

  /** Without a late suspension no poll demand is lost, however fetches, suspensions and the
      steps of thread and handler are interleaved. */
  lemma {:induction false} TimelyRunsLoseNoDemand(s: Engine, xs: seq<Action>)
    requires FetchInv(s) && Timely(s, xs)
    ensures FetchInv(Acts(s, xs))
    ensures var t := Acts(s, xs).base; t.suspended && t.ring.d[t.ring.dma].own ==> Wakes(t.pc)
  {
    hide Act, Late, Segment, Prepared, Handshake, Demand, Logged;
    if xs != [] {
      TimelyRunsLoseNoDemand(s, xs[..|xs| - 1]);
      ActKeepsInvIffNotLate(Acts(s, xs[..|xs| - 1]), xs[|xs| - 1]);
    }
    InvMeansDemand(Acts(s, xs).base);
  }

  lemma InvMeansDemand(s: State)
    requires Inv(s)
    ensures s.suspended && s.ring.d[s.ring.dma].own ==> Wakes(s.pc)
  {
  }

  /** A late suspension does lose the demand: the engine is left suspended on its own
      descriptor, and the thread is past the test that would wake it. */
  lemma LateLosesDemand(s: Engine)
    requires s.base.ring.InBounds() && Late(s, Suspend)
    ensures var t := Act(s, Suspend).base;
            t.suspended && t.ring.d[t.ring.dma].own && !Wakes(t.pc) && t.ring == s.base.ring
  {
  }

  // ----- such a run

  lemma ThenAct(s: Engine, xs: seq<Action>, a: Action)
    requires s.base.ring.InBounds()
    ensures Acts(s, xs + [a]) == Act(Acts(s, xs), a)
  {
    assert (xs + [a])[..|xs|] == xs;
  }

  /** Where the empty chain is in its transmission, with the engine's fetch pending. */
  predicate OnItsWay(s: Engine, pc: Pc, own: bool)
  {
    var b := s.base;
    b.ring.InBounds() && s.fetched && b.pc == pc && ThreadMayRun(b) && !b.tbus && !b.suspended &&
    b.ring.dma == b.ring.toSet && b.ring.Current().own == own
  }

  lemma ThreadMovesOn(s: Engine, pc: Pc, own: bool)
    requires OnItsWay(s, pc, own)
    requires pc in {TestOwn([]), Copy([], 0, 0), Mark([]), Clean([]), GiveOwn([]), TestTbus}
    requires own <==> pc == TestTbus
    ensures var next := match pc
                        case TestOwn(_) => Copy([], 0, 0)
                        case Copy(_, _, _) => Mark([])
                        case Mark(_) => Clean([])
                        case Clean(_) => GiveOwn([])
                        case GiveOwn(_) => TestTbus
                        case _ => Advance;
            OnItsWay(Act(s, Base(Thread)), next, own || pc == GiveOwn([]))
  {
    hide CopyLink, CleanChecksum, Framed, Concat;
  }

  function Threads(k: nat): seq<Action> { seq(k, _ => Base(Thread)) }

  /** On a ring of any size: the engine fetches the empty ring's descriptor, a whole
      transmission up to the test of TBUS passes, and then the engine suspends itself. */
  lemma DemandIsLost(n: nat)
    requires n > 0
    ensures var s := Acts(Engine(Init(n), false), [Fetch, Base(Call([]))] + Threads(6) + [Suspend]).base;
            s.suspended && s.ring.d[s.ring.dma].own && s.pc == Advance
  {
    hide OnItsWay, Act, Acts, Late;
    var s0 := Engine(Init(n), false);
    var start := [Fetch, Base(Call([]))];
    StartsOnItsWay(n);
    var pcs := [TestOwn([]), Copy([], 0, 0), Mark([]), Clean([]), GiveOwn([]), TestTbus, Advance];
    for k := 0 to 6
      invariant OnItsWay(Acts(s0, start + Threads(k)), pcs[k], k >= 5)
    {
      ThreadMovesOn(Acts(s0, start + Threads(k)), pcs[k], k >= 5);
      ThenAct(s0, start + Threads(k), Base(Thread));
      assert start + Threads(k) + [Base(Thread)] == start + Threads(k + 1);
    }
    ThenAct(s0, start + Threads(6), Suspend);
    IsLate(Acts(s0, start + Threads(6)));
    LateLosesDemand(Acts(s0, start + Threads(6)));
  }

  lemma IsLate(s: Engine)
    requires s.base.ring.InBounds() && OnItsWay(s, Advance, true)
    ensures Late(s, Suspend) && Act(s, Suspend).base.pc == Advance
  {
  }

  lemma StartsOnItsWay(n: nat)
    requires n > 0
    ensures OnItsWay(Acts(Engine(Init(n), false), [Fetch, Base(Call([]))] + Threads(0)), TestOwn([]), false)
  {
    var s0 := Engine(Init(n), false);
    ThenAct(s0, [], Fetch);
    ThenAct(s0, [Fetch], Base(Call([])));
    assert [] + [Fetch] == [Fetch] && [Fetch] + [Base(Call([]))] == [Fetch, Base(Call([]))];
    assert [Fetch, Base(Call([]))] + Threads(0) == [Fetch, Base(Call([]))];
  }
}
