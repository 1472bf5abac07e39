/** The Ethernet receive path: the DMA engine fills descriptors, the receive thread
    empties them and gives them back. A sequence of events is an interleaving of the two. */
module EthRx {
  import opened Common

  const BUFFER_SIZE: nat := ETH_MAX_PACKET_SIZE
  const CRC_SIZE: nat := 4

  /** What the engine leaves in a descriptor: error summary, first and last segment bits,
      frame length with the CRC, and the buffer contents. */
  datatype Arrival = Arrival(error: bool, first: bool, last: bool, frameLength: nat, bytes: seq<byte>)

  /** An error-free frame that fits one descriptor. */
  predicate Good(a: Arrival) { !a.error && a.last && a.first }

  /** The engine reports a whole frame, CRC included, inside the buffer. */
  predicate Plausible(a: Arrival)
  {
    |a.bytes| == BUFFER_SIZE && (Good(a) ==> CRC_SIZE <= a.frameLength <= BUFFER_SIZE)
  }

  function Payload(a: Arrival): seq<byte>
    requires Plausible(a) && Good(a)
  {
    a.bytes[..a.frameLength - CRC_SIZE]
  }

  /** The engine reports no error, first and last segment, and f with its four CRC bytes. */
  predicate CarriesFrame(a: Arrival, f: seq<byte>)
  {
    !a.error && a.first && a.last && a.frameLength == |f| + 4 && f <= a.bytes
  }

  datatype Desc = Desc(own: bool, a: Arrival, next: nat)

  /** Where the receive thread is; p is the packet it will return. */
  datatype Pc =
    | Idle
    | TestOwn
    | Fetch
    | GiveBack(p: Option<seq<byte>>)
    | TestRbus(p: Option<seq<byte>>)
    | ClearRbus(p: Option<seq<byte>>)
    | Poll(p: Option<seq<byte>>)
    | Advance(p: Option<seq<byte>>)

  /** The steps between giving a descriptor back and moving to the next one. */
  predicate GaveBack(pc: Pc) { pc.TestRbus? || pc.ClearRbus? || pc.Poll? || pc.Advance? }

  datatype Ring = Ring(
    d: seq<Desc>,
    toGet: nat,               // DMARxDescToGet, as an index
    dma: nat,
    arrivals: seq<Arrival>,   // everything the engine wrote, in order
    returned: nat)            // how many descriptors the thread gave back
  {
    predicate InBounds()
    {
      toGet < |d| && dma < |d| &&
      forall i :: 0 <= i < |d| ==> Plausible(d[i].a) && d[i].next < |d|
    }
  }

  datatype State = State(
    ring: Ring,
    suspended: bool,
    rbus: bool,               // receive buffer unavailable status
    pc: Pc,
    verdicts: seq<bool>,      // for each fetched arrival, whether pbuf_alloc had memory for it
    delivered: seq<seq<byte>>)

  /** Interrupt: the handler clears RBUS, whether or not the thread has seen it. */
  datatype Event = Arrive(a: Arrival) | RunDry | Interrupt | Call | Thread(memory: bool)

  function Blank(): Arrival
  {
    Arrival(false, false, false, 0, seq(BUFFER_SIZE, _ => 0))
  }

  function InitDesc(i: nat, n: nat): Desc
  {
    Desc(true, Blank(), if i + 1 < n then i + 1 else 0)
  }

  function Init(n: nat): (s: State)
    requires n > 0
    ensures s.ring.InBounds() && |s.ring.d| == n
  {
    State(Ring(seq(n, i requires 0 <= i < n => InitDesc(i, n)), 0, 0, [], 0), false, false, Idle, [], [])
  }

  // ----- steps

  /** The engine fills the descriptor at its pointer and clears OWN. */
  function Fill(r: Ring, a: Arrival): (r': Ring)
    requires r.InBounds() && Plausible(a)
    ensures r'.InBounds() && |r'.d| == |r.d|
  {
    r.(d := r.d[r.dma := r.d[r.dma].(own := false, a := a)], dma := r.d[r.dma].next, arrivals := r.arrivals + [a])
  }

  /** Writing OWN to the status word of the current descriptor. */
  function Return(r: Ring): (r': Ring)
    requires r.InBounds()
    ensures r'.InBounds() && |r'.d| == |r.d|
  {
    r.(d := r.d[r.toGet := r.d[r.toGet].(own := true)], returned := r.returned + 1)
  }

  /** What the thread makes of an arrival. */
  function Verdict(a: Arrival, memory: bool): Option<seq<byte>>
    requires Plausible(a)
  {
    if Good(a) && memory then Some(Payload(a)) else None
  }

  /** A packet is exactly the frame that an arrival carries, without the CRC; there is none
      if it carries no frame or there is no memory. */
  lemma VerdictIsFrame(a: Arrival, memory: bool)
    requires Plausible(a)
    ensures forall f :: Verdict(a, memory) == Some(f) <==> memory && CarriesFrame(a, f)
  {
    forall f
      ensures Verdict(a, memory) == Some(f) <==> memory && CarriesFrame(a, f)
    {
      if CarriesFrame(a, f) {
        assert Payload(a) == f;
      }
    }
  }

  function ThreadStep(s: State, memory: bool): (s': State)
    requires s.ring.InBounds()
    ensures s'.ring.InBounds() && |s'.ring.d| == |s.ring.d|
  {
    var cur := s.ring.d[s.ring.toGet];
    match s.pc
    case Idle => s
    case TestOwn => s.(pc := if cur.own then Idle else Fetch)
    case Fetch => s.(pc := GiveBack(Verdict(cur.a, memory)), verdicts := s.verdicts + [memory])
    case GiveBack(p) => s.(ring := Return(s.ring), pc := TestRbus(p))
    case TestRbus(p) => s.(pc := if s.rbus then ClearRbus(p) else Advance(p))
    case ClearRbus(p) => s.(rbus := false, pc := Poll(p))
    case Poll(p) => s.(suspended := false, pc := Advance(p))
    case Advance(p) =>
      s.(ring := s.ring.(toGet := cur.next), pc := Idle,
         delivered := if p.Some? then s.delivered + [p.value] else s.delivered)
  }

  function Step(s: State, e: Event): (s': State)
    requires s.ring.InBounds()
    ensures s'.ring.InBounds() && |s'.ring.d| == |s.ring.d|
  {
    match e
    case Arrive(a) =>
      if !s.suspended && s.ring.d[s.ring.dma].own && Plausible(a) then s.(ring := Fill(s.ring, a)) else s
    case RunDry => if !s.suspended && !s.ring.d[s.ring.dma].own then s.(suspended := true, rbus := true) else s
    case Interrupt => s.(rbus := false)
    case Call => if s.pc.Idle? then s.(pc := TestOwn) else s
    case Thread(memory) => ThreadStep(s, memory)
  }

  function Run(s: State, es: seq<Event>): (s': State)
    requires s.ring.InBounds()
    ensures s'.ring.InBounds() && |s'.ring.d| == |s.ring.d|
  {
    if es == [] then s else Step(Run(s, es[..|es| - 1]), es[|es| - 1])
  }

  function Reached(n: nat, es: seq<Event>): (s: State)
    requires n > 0
    ensures s.ring.InBounds() && |s.ring.d| == n
  {
    Run(Init(n), es)
  }

  // ----- what holds of the ring

  predicate Cycle(r: Ring)
  {
    |r.d| > 0 && r.InBounds() &&
    forall i :: 0 <= i < |r.d| ==> r.d[i].next == Wrap(i + 1, |r.d|)
  }

  /** Arrivals whose descriptor the thread has not given back. */
  function Held(r: Ring): int { |r.arrivals| - r.returned }

  /** From descriptor start on, the CPU owns as many descriptors as it holds arrivals,
      each with its arrival in it; the engine owns the rest and is at the segment's end. */
  predicate Segment(r: Ring, start: nat)
    requires Cycle(r)
  {
    start < |r.d| && 0 <= Held(r) <= |r.d| && r.dma == Wrap(start + Held(r), |r.d|) &&
    forall i :: 0 <= i < |r.d| ==>
      var j := Distance(start, i, |r.d|);
      if j < Held(r) then !r.d[i].own && r.d[i].a == r.arrivals[r.returned + j] else r.d[i].own
  }

  predicate PlausibleAll(arrivals: seq<Arrival>)
  {
    forall i :: 0 <= i < |arrivals| ==> Plausible(arrivals[i])
  }

  /** The first descriptor that is still to be handled. */
  function Start(r: Ring, pc: Pc): nat
    requires r.InBounds()
  {
    if GaveBack(pc) then r.d[r.toGet].next else r.toGet
  }

  lemma FillGrowsSegment(r: Ring, a: Arrival, start: nat)
    requires Cycle(r) && Segment(r, start) && r.d[r.dma].own && Plausible(a)
    ensures Held(r) < |r.d| && Cycle(Fill(r, a)) && Segment(Fill(r, a), start)
  {
    var r', n := Fill(r, a), |r.d|;
    assert Distance(start, r.dma, n) == Held(r);
    forall i | 0 <= i < n
      ensures var j := Distance(start, i, n);
              if j < Held(r') then !r'.d[i].own && r'.d[i].a == r'.arrivals[r.returned + j] else r'.d[i].own
    {
      if i != r.dma {
        assert r'.d[i] == r.d[i] && Distance(start, i, n) != Held(r);
      }
    }
  }

  lemma ReturnShrinksSegment(r: Ring)
    requires Cycle(r) && Segment(r, r.toGet) && !r.d[r.toGet].own
    ensures Held(r) > 0 && r.d[r.toGet].a == r.arrivals[r.returned]
    ensures Cycle(Return(r)) && Segment(Return(r), r.d[r.toGet].next)
  {
    var r', n, start' := Return(r), |r.d|, r.d[r.toGet].next;
    assert Distance(r.toGet, r.toGet, n) == 0;
    forall i | 0 <= i < n
      ensures var j := Distance(start', i, n);
              if j < Held(r') then !r'.d[i].own && r'.d[i].a == r'.arrivals[r'.returned + j] else r'.d[i].own
    {
      if i != r.toGet {
        assert r'.d[i] == r.d[i] && Distance(start', i, n) + 1 == Distance(r.toGet, i, n);
      }
    }
  }

  // ----- deliveries

  /** The frames of the arrivals for which there was memory. */
  function Kept(arrivals: seq<Arrival>, verdicts: seq<bool>): seq<seq<byte>>
    requires |arrivals| == |verdicts| && PlausibleAll(arrivals)
  {
    if arrivals == [] then []
    else
      var n := |arrivals| - 1;
      Kept(arrivals[..n], verdicts[..n]) +
      (if Good(arrivals[n]) && verdicts[n] then [Payload(arrivals[n])] else [])
  }

  /** What one more arrival adds to the deliveries: the frame it carries, if there is memory,
      and otherwise nothing. */
  lemma KeptGrows(arrivals: seq<Arrival>, verdicts: seq<bool>, a: Arrival, memory: bool)
    requires |arrivals| == |verdicts| && PlausibleAll(arrivals) && Plausible(a)
    ensures PlausibleAll(arrivals + [a])
    ensures var was, now := Kept(arrivals, verdicts), Kept(arrivals + [a], verdicts + [memory]);
            (forall f :: memory && CarriesFrame(a, f) ==> now == was + [f]) &&
            (!memory || (forall f :: !CarriesFrame(a, f)) ==> now == was)
  {
    VerdictIsFrame(a, memory);
    hide CarriesFrame;
    KeptNextVerdict(arrivals, verdicts, a, memory);
    hide Kept, Verdict;
    var v := Verdict(a, memory);
    if v.Some? {
      assert CarriesFrame(a, v.value);
    }
  }

  lemma KeptNextVerdict(arrivals: seq<Arrival>, verdicts: seq<bool>, a: Arrival, memory: bool)
    requires |arrivals| == |verdicts| && PlausibleAll(arrivals) && Plausible(a)
    ensures PlausibleAll(arrivals + [a])
    ensures var v := Verdict(a, memory);
            Kept(arrivals + [a], verdicts + [memory])
            == if v.Some? then Kept(arrivals, verdicts) + [v.value] else Kept(arrivals, verdicts)
  {
    assert (arrivals + [a])[..|arrivals|] == arrivals && (verdicts + [memory])[..|arrivals|] == verdicts;
  }

  /** How many arrivals have been fetched: the one in the thread's hands may not have
      been given back yet. */
  predicate Fetched(s: State)
  {
    |s.verdicts| == s.ring.returned + (if s.pc.GiveBack? then 1 else 0) &&
    |s.verdicts| <= |s.ring.arrivals|
  }

  function InHand(pc: Pc): seq<seq<byte>>
  {
    if (GaveBack(pc) || pc.GiveBack?) && pc.p.Some? then [pc.p.value] else []
  }

  predicate Inv(s: State)
  {
    Cycle(s.ring) && Segment(s.ring, Start(s.ring, s.pc)) && PlausibleAll(s.ring.arrivals) &&
    (s.pc.Fetch? || s.pc.GiveBack? ==> !s.ring.d[s.ring.toGet].own) &&
    Fetched(s) &&
    s.delivered + InHand(s.pc) == Kept(s.ring.arrivals[..|s.verdicts|], s.verdicts)
  }

  lemma KeptNext(s: State, memory: bool)
    requires Inv(s) && s.pc.Fetch?
    ensures |s.verdicts| < |s.ring.arrivals| && s.ring.d[s.ring.toGet].a == s.ring.arrivals[|s.verdicts|]
    ensures var p := Verdict(s.ring.arrivals[|s.verdicts|], memory);
            Kept(s.ring.arrivals[..|s.verdicts| + 1], s.verdicts + [memory])
            == s.delivered + (if p.Some? then [p.value] else [])
  {
    var r, v := s.ring, |s.verdicts|;
    assert Distance(r.toGet, r.toGet, |r.d|) == 0;
    assert r.arrivals[..v + 1][..v] == r.arrivals[..v];
    assert (s.verdicts + [memory])[..v] == s.verdicts;
  }

  lemma FetchKeepsInv(s: State, memory: bool)
    requires Inv(s) && s.pc.Fetch?
    ensures Inv(ThreadStep(s, memory))
  {
    KeptNext(s, memory);
  }

  lemma GiveBackKeepsInv(s: State, memory: bool)
    requires Inv(s) && s.pc.GiveBack?
    ensures Inv(ThreadStep(s, memory))
  {
    ReturnShrinksSegment(s.ring);
  }

  lemma AdvanceKeepsInv(s: State, memory: bool)
    requires Inv(s) && s.pc.Advance?
    ensures Inv(ThreadStep(s, memory))
  {
    hide Kept, Verdict, PlausibleAll;
    var s' := ThreadStep(s, memory);
    assert Segment(s'.ring, Start(s.ring, s.pc));
    assert s'.delivered + InHand(s'.pc) == s.delivered + InHand(s.pc);
  }

  lemma ThreadKeepsInv(s: State, memory: bool)
    requires Inv(s)
    ensures Inv(ThreadStep(s, memory))
  {
    match s.pc
    case Fetch => FetchKeepsInv(s, memory);
    case GiveBack(p) => GiveBackKeepsInv(s, memory);
    case Advance(p) => AdvanceKeepsInv(s, memory);
    case _ => assert ThreadStep(s, memory).ring == s.ring;
  }

  lemma ArriveKeepsInv(s: State, a: Arrival)
    requires Inv(s) && s.ring.d[s.ring.dma].own && Plausible(a)
    ensures Inv(s.(ring := Fill(s.ring, a)))
  {
    hide Segment;
    FillGrowsSegment(s.ring, a, Start(s.ring, s.pc));
    assert Fill(s.ring, a).arrivals[..|s.verdicts|] == s.ring.arrivals[..|s.verdicts|];
  }

  lemma StepKeepsInv(s: State, e: Event)
    requires Inv(s)
    ensures Inv(Step(s, e))
  {
    hide ThreadStep, Fill, Segment;
    match e
    case Arrive(a) =>
      if !s.suspended && s.ring.d[s.ring.dma].own && Plausible(a) {
        ArriveKeepsInv(s, a);
      }
    case RunDry =>
    case Interrupt =>
    case Call =>
    case Thread(memory) => ThreadKeepsInv(s, memory);
  }

  lemma {:induction false} ReachableInv(n: nat, es: seq<Event>)
    requires n > 0
    ensures Inv(Reached(n, es))
  {
    if es != [] {
      ReachableInv(n, es[..|es| - 1]);
      StepKeepsInv(Reached(n, es[..|es| - 1]), es[|es| - 1]);
    }
  }

  lemma ThenReached(n: nat, es: seq<Event>, e: Event)
    requires n > 0
    ensures Reached(n, es + [e]) == Step(Reached(n, es), e)
  {
    assert (es + [e])[..|es|] == es;
  }

  // ----- main results, over every interleaving from the initial state

  /** The packets delivered are the payloads of the good arrivals for which there was
      memory, in arrival order, none lost, none twice. */
  lemma DeliversInOrder(n: nat, es: seq<Event>)
    requires n > 0
    ensures var s := Reached(n, es);
            PlausibleAll(s.ring.arrivals) && |s.verdicts| <= |s.ring.arrivals| &&
            s.delivered + InHand(s.pc) == Kept(s.ring.arrivals[..|s.verdicts|], s.verdicts) &&
            (s.pc.Idle? ==> |s.verdicts| == s.ring.returned &&
                            s.delivered == Kept(s.ring.arrivals[..s.ring.returned], s.verdicts))
  {
    ReachableInv(n, es);
    assert Reached(n, es).delivered + [] == Reached(n, es).delivered;
  }

  predicate CpuOwnsExactly(r: Ring)
    requires r.InBounds()
  {
    0 <= Held(r) <= |r.d| &&
    forall i :: 0 <= i < |r.d| ==> (!r.d[i].own <==> Distance(r.toGet, i, |r.d|) < Held(r))
  }

  lemma SegmentIsCpuOwned(r: Ring)
    requires Cycle(r) && Segment(r, r.toGet)
    ensures CpuOwnsExactly(r)
  {
  }

  /** Between two calls the CPU owns exactly the descriptors from its pointer to the
      engine's, one for each arrival it has not handled. */
  lemma CpuOwnedIsSegment(n: nat, es: seq<Event>)
    requires n > 0
    ensures var s := Reached(n, es);
            s.pc.Idle? ==> CpuOwnsExactly(s.ring) && s.ring.dma == Wrap(s.ring.toGet + Held(s.ring), n)
  {
    ReachableInv(n, es);
    var s := Reached(n, es);
    if s.pc.Idle? {
      SegmentIsCpuOwned(s.ring);
    }
  }

  /** A descriptor changes hands one arrival at a time: the engine takes only descriptors
      it owns, and the thread gives back only the one that holds the oldest arrival. */
  lemma EachReturnedOnce(n: nat, es: seq<Event>, e: Event, i: nat)
    requires n > 0 && i < n
    ensures var r, r' := Reached(n, es).ring, Step(Reached(n, es), e).ring;
            !r.d[i].own ==>
              if r'.d[i].own
              then e.Thread? && i == r.toGet && r.returned < |r.arrivals| && r.d[i].a == r.arrivals[r.returned] &&
                   r'.returned == r.returned + 1
              else r'.d[i] == r.d[i]
    ensures var r, r' := Reached(n, es).ring, Step(Reached(n, es), e).ring;
            r'.returned != r.returned ==> !r.d[r.toGet].own && r'.d[r.toGet].own
  {
    hide Reached, Step, Inv;
    ReachableInv(n, es);
    StepReturnsOne(Reached(n, es), e, i);
  }

  lemma StepReturnsOne(s: State, e: Event, i: nat)
    requires Inv(s) && i < |s.ring.d|
    ensures var r, r' := s.ring, Step(s, e).ring;
            !r.d[i].own ==>
              if r'.d[i].own
              then e.Thread? && i == r.toGet && r.returned < |r.arrivals| && r.d[i].a == r.arrivals[r.returned] &&
                   r'.returned == r.returned + 1
              else r'.d[i] == r.d[i]
    ensures var r, r' := s.ring, Step(s, e).ring;
            r'.returned != r.returned ==> !r.d[r.toGet].own && r'.d[r.toGet].own
  {
    hide Segment, Kept, Verdict;
    if s.pc.GiveBack? {
      ReturnShrinksSegment(s.ring);
    }
  }
}
