/** When reception stops for good: the receive thread restarts a suspended engine only if it
    still finds RBUS set, and the interrupt handler clears RBUS. */
module EthRxStarved {
  import opened Common
  import opened EthRx

  /** No run from here on takes another frame. */
  ghost predicate Starved(s: State)
    requires s.ring.InBounds()
  {
    forall es :: Run(s, es).ring.arrivals == s.ring.arrivals
  }

  /** The engine is suspended, nothing says so any more, and the thread is not past the test
      of RBUS on its way to the poll demand. */
  predicate Unnoticed(s: State) { s.suspended && !s.rbus && !s.pc.ClearRbus? && !s.pc.Poll? }

  lemma StepStaysUnnoticed(s: State, e: Event)
    requires s.ring.InBounds() && Unnoticed(s)
    ensures Unnoticed(Step(s, e)) && Step(s, e).ring.arrivals == s.ring.arrivals
  {
    hide Fill, Verdict;
  }

  lemma {:induction false} RunStaysUnnoticed(s: State, es: seq<Event>)
    requires s.ring.InBounds() && Unnoticed(s)
    ensures Unnoticed(Run(s, es)) && Run(s, es).ring.arrivals == s.ring.arrivals
  {
    hide Step, Unnoticed;
    if es != [] {
      RunStaysUnnoticed(s, es[..|es| - 1]);
      StepStaysUnnoticed(Run(s, es[..|es| - 1]), es[|es| - 1]);
    }
  }

  // ----- the way to another frame

  /** While RBUS tells of a suspension there is something for the thread to give back, or it
      has just given it back and has not cleared RBUS yet. */
  predicate Told(s: State)
  {
    s.suspended && s.rbus ==> Held(s.ring) > 0 || s.pc.TestRbus? || s.pc.ClearRbus?
  }

  predicate Hopeful(s: State) { Inv(s) && Told(s) && !Unnoticed(s) }

  lemma OwnFacts(s: State)
    requires Inv(s)
    ensures s.ring.InBounds() && Held(s.ring) <= |s.ring.d|
    ensures s.ring.d[s.ring.dma].own <==> Held(s.ring) < |s.ring.d|
    ensures !GaveBack(s.pc) ==> (s.ring.d[s.ring.toGet].own <==> Held(s.ring) == 0)
    ensures s.pc.Fetch? || s.pc.GiveBack? ==> !s.ring.d[s.ring.toGet].own
  {
    hide Kept, PlausibleAll;
    var r, start := s.ring, Start(s.ring, s.pc);
    assert Distance(start, start, |r.d|) == 0;
    if Held(r) < |r.d| {
      assert Distance(start, r.dma, |r.d|) == Held(r);
    }
  }

  lemma StepKeepsTold(s: State, e: Event)
    requires Inv(s) && Told(s)
    ensures Told(Step(s, e))
  {
    OwnFacts(s);
    hide Inv, Verdict;
  }

  /** How many steps are left to the next frame, at most. */
  function Rank(s: State): nat
  {
    (match s.pc
     case TestRbus(_) => 8
     case ClearRbus(_) => 7
     case Poll(_) => 6
     case Advance(_) => if s.suspended then 13 else 5
     case Idle => if s.suspended then 12 else 4
     case TestOwn => if s.suspended then 11 else 3
     case Fetch => if s.suspended then 10 else 2
     case GiveBack(_) => if s.suspended then 9 else 1) + if s.suspended then 10 else 0
  }

  function Next(s: State): Event { if s.pc.Idle? then Call else Thread(true) }

  predicate CanTake(s: State)
    requires s.ring.InBounds()
  {
    !s.suspended && s.ring.d[s.ring.dma].own
  }

  lemma NextProgresses(s: State)
    requires Hopeful(s) && !CanTake(s)
    ensures var t := Step(s, Next(s));
            Hopeful(t) && t.ring.arrivals == s.ring.arrivals && (CanTake(t) || Rank(t) < Rank(s))
  {
    hide Inv;
    OwnFacts(s);
    StepKeepsInv(s, Next(s));
    StepKeepsTold(s, Next(s));
    OwnFacts(Step(s, Next(s)));
    hide Told;
    NextRank(s);
  }

  lemma NextRank(s: State)
    requires s.ring.InBounds() && Told(s) && !Unnoticed(s) && !CanTake(s)
    requires (s.ring.d[s.ring.dma].own <==> Held(s.ring) < |s.ring.d|) && Held(s.ring) <= |s.ring.d|
    requires !GaveBack(s.pc) ==> (s.ring.d[s.ring.toGet].own <==> Held(s.ring) == 0)
    ensures var t := Step(s, Next(s));
            !Unnoticed(t) && t.ring.arrivals == s.ring.arrivals &&
            ((Held(t.ring) < |t.ring.d| && !t.suspended) || Rank(t) < Rank(s))
  {
    hide Verdict;
  }

  lemma {:induction false} TakesAnother(s: State) returns (es: seq<Event>)
    requires Hopeful(s)
    ensures Run(s, es).ring.arrivals != s.ring.arrivals
    decreases if CanTake(s) then 0 else 1, Rank(s)
  {
    hide Inv, Step, Rank;
    OwnFacts(s);
    var e := if CanTake(s) then Arrive(Blank()) else Next(s);
    if CanTake(s) {
      es := [];
      Takes(s);
    } else {
      NextProgresses(s);
      es := TakesAnother(Step(s, e));
    }
    StepFirst(s, e, es);
    es := [e] + es;
  }

  lemma Takes(s: State)
    requires s.ring.InBounds() && CanTake(s)
    ensures Step(s, Arrive(Blank())).ring.arrivals == s.ring.arrivals + [Blank()]
  {
  }

  lemma {:induction false} StepFirst(s: State, e: Event, es: seq<Event>)
    requires s.ring.InBounds()
    ensures Run(s, [e] + es) == Run(Step(s, e), es)
  {
    hide Step;
    if es == [] {
      assert [e] + es == [e] && [e][..0] == [];
    } else {
      StepFirst(s, e, es[..|es| - 1]);
      assert ([e] + es)[..|es|] == [e] + es[..|es| - 1];
    }
  }

  lemma {:induction false} ReachableTold(n: nat, es: seq<Event>)
    requires n > 0
    ensures Told(Reached(n, es))
  {
    hide Step, Inv, Told;
    if es == [] {
      InitTold(n);
    } else {
      ReachableTold(n, es[..|es| - 1]);
      ReachableInv(n, es[..|es| - 1]);
      StepKeepsTold(Reached(n, es[..|es| - 1]), es[|es| - 1]);
    }
  }

  lemma InitTold(n: nat)
    requires n > 0
    ensures Told(Init(n))
  {
  }

  /** Of all states that any interleaving leads to, reception is over for good in exactly
      those in which the engine is suspended, RBUS is clear, and the thread is not between its
      test of RBUS and the poll demand. */
  lemma StarvedExactlyWhen(n: nat, es: seq<Event>)
    requires n > 0
    ensures Starved(Reached(n, es)) <==> Unnoticed(Reached(n, es))
  {
    hide Reached, Inv, Told, Unnoticed;
    var s := Reached(n, es);
    if Unnoticed(s) {
      forall fs
        ensures Run(s, fs).ring.arrivals == s.ring.arrivals
      {
        RunStaysUnnoticed(s, fs);
      }
    } else {
      ReachableInv(n, es);
      ReachableTold(n, es);
      var fs := TakesAnother(s);
    }
  }

  // ----- such a run

  function Arrivals(k: nat): seq<Event> { seq(k, _ => Arrive(Blank())) }

  lemma {:induction false} FillsUp(n: nat, k: nat)
    requires 0 < n && k <= n
    ensures var s := Reached(n, Arrivals(k));
            s.pc.Idle? && !s.suspended && Held(s.ring) == k && s.ring.returned == 0
  {
    hide Step, Inv;
    if k > 0 {
      FillsUp(n, k - 1);
      ReachableInv(n, Arrivals(k - 1));
      assert Arrivals(k - 1) + [Arrive(Blank())] == Arrivals(k);
      ThenReached(n, Arrivals(k - 1), Arrive(Blank()));
      var s := Reached(n, Arrivals(k - 1));
      OwnFacts(s);
      Arrives(s);
    }
  }

  lemma Arrives(s: State)
    requires s.ring.InBounds() && CanTake(s)
    ensures var t := Step(s, Arrive(Blank()));
            t.pc == s.pc && !t.suspended && Held(t.ring) == Held(s.ring) + 1 && t.ring.returned == s.ring.returned
  {
  }

  /** On a ring of any size: frames fill the ring before the thread runs, the engine suspends
      itself, the handler clears RBUS, and no frame is taken any more. */
  lemma StarvedIsReachable(n: nat)
    requires n > 0
    ensures Starved(Reached(n, Arrivals(n) + [RunDry] + [Interrupt]))
  {
    hide Reached, Inv;
    FillsUp(n, n);
    ReachableInv(n, Arrivals(n));
    OwnFacts(Reached(n, Arrivals(n)));
    ThenReached(n, Arrivals(n), RunDry);
    ThenReached(n, Arrivals(n) + [RunDry], Interrupt);
    StarvedExactlyWhen(n, Arrivals(n) + [RunDry] + [Interrupt]);
  }
}
