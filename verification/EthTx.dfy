/** The Ethernet transmit path: one CPU thread, the DMA engine and the interrupt
    handler share a ring of descriptors, a flag, a semaphore and a status register.
    Every value of type Event is one step of one of the three parties, so a sequence of
    events is an interleaving. */
module EthTx {
  import opened Common

  // ----- frames

  const BUFFER_SIZE: nat := ETH_MAX_PACKET_SIZE
  const ICMP_CHECKSUM: nat := 36      // 14 (Ethernet) + 20 (IPv4) + 2

  /** A pbuf chain, as the sequence of the payloads of its links. */
  type Pbufs = seq<seq<byte>>

  predicate Fits(p: Pbufs) { |Concat(p)| <= BUFFER_SIZE }

  /** The driver looks into the transmit buffer, not into the frame: bytes past the end
      of a short frame are left over from an earlier one. */
  predicate LooksLikeIcmp(buf: seq<byte>)
    requires |buf| >= 24
  {
    buf[12] == 0x08 && buf[13] == 0x00 && buf[23] == 1
  }

  function CleanChecksum(buf: seq<byte>): (r: seq<byte>)
    requires |buf| == BUFFER_SIZE
    ensures |r| == BUFFER_SIZE
  {
    if LooksLikeIcmp(buf) then buf[ICMP_CHECKSUM := 0][ICMP_CHECKSUM + 1 := 0] else buf
  }

  /** What has to go out for a frame: the frame, with the ICMP checksum field zeroed
      where the frame itself is an ICMP packet. */
  function Framed(f: seq<byte>): (r: seq<byte>)
    ensures |r| == |f|
  {
    if |f| > ICMP_CHECKSUM + 1 && LooksLikeIcmp(f) then f[ICMP_CHECKSUM := 0][ICMP_CHECKSUM + 1 := 0]
    else if |f| == ICMP_CHECKSUM + 1 && LooksLikeIcmp(f) then f[ICMP_CHECKSUM := 0]
    else f
  }

  /** Left-over bytes never reach the wire: the transmitted part of the buffer depends
      on the frame alone. */
  lemma CleanIsFramed(buf: seq<byte>, f: seq<byte>)
    requires |buf| == BUFFER_SIZE && f <= buf
    ensures CleanChecksum(buf)[..|f|] == Framed(f)
  {
    if |f| > ICMP_CHECKSUM {
      assert LooksLikeIcmp(f) == LooksLikeIcmp(buf);
    }
  }

  /** w is frame f as it goes out, byte for byte: with bytes 36 and 37 zeroed if the type
      field says IP and the protocol field ICMP, otherwise as it is. */
  predicate OnWire(f: seq<byte>, w: seq<byte>)
  {
    |w| == |f| &&
    forall k :: 0 <= k < |f| ==>
      w[k] == if 36 <= k < 38 && f[12] == 0x08 && f[13] == 0x00 && f[23] == 1 then 0 else f[k]
  }

  lemma FramedOnWire(f: seq<byte>)
    ensures OnWire(f, Framed(f))
  {
  }

  /** The same, for an Ethernet frame with an IP header of 20 bytes. */
  lemma OnlyIcmpChecksumChanges(dest: seq<byte>, src: seq<byte>, ethertype: seq<byte>, ip: seq<byte>,
                                rest: seq<byte>, w: seq<byte>)
    requires |dest| == 6 && |src| == 6 && |ethertype| == 2 && |ip| == 20
    requires OnWire(dest + src + ethertype + ip + rest, w)
    ensures !(ethertype == [0x08, 0x00] && ip[9] == 1) ==> w == dest + src + ethertype + ip + rest
    ensures ethertype == [0x08, 0x00] && ip[9] == 1 && |rest| >= 4 ==>
              w == dest + src + ethertype + ip + (rest[..2] + [0, 0] + rest[4..])
  {
    var f, head := dest + src + ethertype + ip + rest, dest + src + ethertype + ip;
    HeaderBytes(dest, src, ethertype, ip, rest);
    if ethertype == [0x08, 0x00] && ip[9] == 1 && |rest| >= 4 {
      var g := head + (rest[..2] + [0, 0] + rest[4..]);
      assert |g| == |f| && forall k :: 0 <= k < |f| && !(36 <= k < 38) ==> g[k] == f[k];
      assert g[36] == 0 && g[37] == 0;
      assert w == g;
    } else if !(ethertype == [0x08, 0x00] && ip[9] == 1) {
      assert w == f;
    }
  }

  lemma HeaderBytes(dest: seq<byte>, src: seq<byte>, ethertype: seq<byte>, ip: seq<byte>, rest: seq<byte>)
    requires |dest| == 6 && |src| == 6 && |ethertype| == 2 && |ip| == 20
    ensures var f := dest + src + ethertype + ip + rest;
            f[12] == ethertype[0] && f[13] == ethertype[1] && f[23] == ip[9]
  {
  }

  // ----- state

  datatype Desc = Desc(own: bool, segmentBits: bool, ic: bool, len: nat, buf: seq<byte>, next: nat)

  /** Where the transmitting thread is. */
  datatype Pc =
    | Idle
    | TestOwn(p: Pbufs)                         // about to read OWN in the loop test
    | SetFlag(p: Pbufs)                         // saw OWN set
    | Take(p: Pbufs)                            // flag set, about to take the semaphore
    | Blocked(p: Pbufs)                         // suspended on the semaphore
    | Copy(p: Pbufs, link: nat, offset: nat)    // left the loop, links copied so far
    | Mark(p: Pbufs)                            // about to write length and control bits
    | Clean(p: Pbufs)                           // about to zero the ICMP checksum
    | GiveOwn(p: Pbufs)                         // about to set OWN
    | TestTbus
    | ClearTbus
    | Poll
    | Advance

  predicate WaitLoop(pc: Pc) { pc.TestOwn? || pc.SetFlag? || pc.Take? || pc.Blocked? }

  predicate Preparing(pc: Pc) { pc.Copy? || pc.Mark? || pc.Clean? || pc.GiveOwn? }

  /** The steps between setting OWN and moving to the next descriptor. */
  predicate GaveAway(pc: Pc) { pc.TestTbus? || pc.ClearTbus? || pc.Poll? || pc.Advance? }

  /** Where the interrupt handler is. */
  datatype IsrPc = Out | Entered | Leaving

  /** The descriptors, the two pointers into them, and the frames that passed through. */
  datatype Ring = Ring(
    d: seq<Desc>,
    toSet: nat,               // DMATxDescToSet, as an index
    dma: nat,                 // the descriptor the DMA engine looks at
    accepted: seq<seq<byte>>, // frames whose descriptor was given to the DMA
    wire: seq<seq<byte>>)     // frames sent
  {
    predicate InBounds()
    {
      toSet < |d| && dma < |d| &&
      forall i :: 0 <= i < |d| ==> |d[i].buf| == BUFFER_SIZE && d[i].next < |d|
    }

    function Current(): Desc
      requires toSet < |d|
    {
      d[toSet]
    }

    function Write(x: Desc): (r: Ring)
      requires InBounds() && |x.buf| == BUFFER_SIZE && x.next < |d|
      ensures r.InBounds() && |r.d| == |d|
    {
      this.(d := d[toSet := x])
    }
  }

  datatype State = State(
    ring: Ring,
    suspended: bool,        // the engine waits for a poll demand
    tbus: bool,             // transmit buffer unavailable status
    t: bool,                // transmit interrupt status
    nis: bool,              // normal interrupt summary, the interrupt line
    waiting: bool,          // tx_is_waiting
    sem: nat,               // value of tx_wait
    pc: Pc,
    isr: IsrPc,
    submitted: seq<Pbufs>)  // every chain handed to the transmit function

  datatype Event = Call(p: Pbufs) | Thread | Isr | DmaSend | DmaSuspend | RxInterrupt

  function InitDesc(i: nat, n: nat, buf: seq<byte>): Desc
  {
    Desc(false, false, false, 0, buf, if i + 1 < n then i + 1 else 0)
  }

  function Init(n: nat): State
  {
    var d := seq(n, i requires 0 <= i < n => InitDesc(i, n, seq(BUFFER_SIZE, _ => 0)));
    State(Ring(d, 0, 0, [], []), false, false, false, false, false, 0, Idle, Out, [])
  }

  // ----- steps

  /** A thread runs only when no interrupt is pending or being served. */
  predicate ThreadMayRun(s: State) { s.isr == Out && !s.nis }

  function CopyLink(x: Desc, bytes: seq<byte>, offset: nat): (r: Desc)
    requires |x.buf| == BUFFER_SIZE && offset + |bytes| <= BUFFER_SIZE
    ensures |r.buf| == BUFFER_SIZE
  {
    x.(buf := x.buf[..offset] + bytes + x.buf[offset + |bytes|..])
  }

  function MarkDesc(x: Desc, p: Pbufs): Desc
  {
    x.(len := |Concat(p)| % 0x2000, segmentBits := true, ic := true)
  }

  /** The wait loop: test OWN; if it is set raise the flag and take the semaphore, and
      leave the loop without a second look at OWN. */
  function WaitStep(s: State): (s': State)
    requires s.ring.InBounds() && WaitLoop(s.pc)
    ensures s'.ring == s.ring
  {
    match s.pc
    case TestOwn(p) => s.(pc := if s.ring.Current().own then SetFlag(p) else Copy(p, 0, 0))
    case SetFlag(p) => s.(waiting := true, pc := Take(p))
    case Take(p) => if s.sem > 0 then s.(sem := s.sem - 1, pc := Copy(p, 0, 0)) else s.(pc := Blocked(p))
    case Blocked(p) => s
  }

  /** Filling the current descriptor, link by link, and giving it to the DMA. */
  function FillStep(s: State): (s': State)
    requires s.ring.InBounds() && Preparing(s.pc)
    ensures s'.ring.InBounds() && |s'.ring.d| == |s.ring.d|
  {
    var cur := s.ring.Current();
    match s.pc
    case Copy(p, link, offset) =>
      if link >= |p| then s.(pc := Mark(p))
      else if offset + |p[link]| <= BUFFER_SIZE then
        s.(ring := s.ring.Write(CopyLink(cur, p[link], offset)), pc := Copy(p, link + 1, offset + |p[link]|))
      else s
    case Mark(p) => s.(ring := s.ring.Write(MarkDesc(cur, p)), pc := Clean(p))
    case Clean(p) => s.(ring := s.ring.Write(cur.(buf := CleanChecksum(cur.buf))), pc := GiveOwn(p))
    case GiveOwn(p) => s.(ring := Give(s.ring, Framed(Concat(p))), pc := TestTbus)
  }

  /** Waking the engine if it reported that it ran out of descriptors, and moving on. */
  function TailStep(s: State): (s': State)
    requires s.ring.InBounds() && GaveAway(s.pc)
    ensures s'.ring.InBounds() && |s'.ring.d| == |s.ring.d|
  {
    match s.pc
    case TestTbus => s.(pc := if s.tbus then ClearTbus else Advance)
    case ClearTbus => s.(tbus := false, pc := Poll)
    case Poll => s.(suspended := false, pc := Advance)
    case Advance => s.(ring := s.ring.(toSet := s.ring.Current().next), pc := Idle)
  }

  function ThreadStep(s: State): (s': State)
    requires s.ring.InBounds()
    ensures s'.ring.InBounds() && |s'.ring.d| == |s.ring.d|
  {
    if WaitLoop(s.pc) then WaitStep(s)
    else if Preparing(s.pc) then FillStep(s)
    else if GaveAway(s.pc) then TailStep(s)
    else s
  }

  /** Setting OWN of the current descriptor, which carries frame f. */
  function Give(r: Ring, f: seq<byte>): (r': Ring)
    requires r.InBounds()
    ensures r'.InBounds() && |r'.d| == |r.d|
  {
    r.Write(r.Current().(own := true)).(accepted := r.accepted + [f])
  }

  /** Releasing the semaphore hands it to a suspended thread or counts up. */
  function Release(s: State): State
  {
    if s.pc.Blocked? then s.(pc := Copy(s.pc.p, 0, 0)) else s.(sem := s.sem + 1)
  }

  function IsrStep(s: State): (s': State)
    ensures s'.ring == s.ring
  {
    match s.isr
    case Out => if s.nis then s.(nis := false, isr := Entered) else s
    case Entered =>
      if !s.t then s.(isr := Out)
      else if s.waiting then Release(s.(waiting := false)).(isr := Leaving)
      else s.(isr := Leaving)
    case Leaving => s.(t := false, isr := Out)
  }

  /** The engine sends the descriptor at its pointer, clears OWN and moves on. */
  function Send(r: Ring): (r': Ring)
    requires r.InBounds() && r.d[r.dma].len <= BUFFER_SIZE
    ensures r'.InBounds() && |r'.d| == |r.d|
  {
    var x := r.d[r.dma];
    r.(d := r.d[r.dma := x.(own := false)], dma := x.next, wire := r.wire + [x.buf[..x.len]])
  }

  function SendStep(s: State): (s': State)
    requires s.ring.InBounds()
    ensures s'.ring.InBounds() && |s'.ring.d| == |s.ring.d|
  {
    var x := s.ring.d[s.ring.dma];
    if !s.suspended && x.own && x.len <= BUFFER_SIZE then
      s.(ring := Send(s.ring), t := s.t || x.ic, nis := s.nis || x.ic)
    else s
  }

  function SuspendStep(s: State): State
    requires s.ring.InBounds()
  {
    if !s.suspended && !s.ring.d[s.ring.dma].own then s.(suspended := true, tbus := true) else s
  }

  /** One step; an event that cannot happen now leaves the state as it is. */
  function Step(s: State, e: Event): (s': State)
    requires s.ring.InBounds()
    ensures s'.ring.InBounds() && |s'.ring.d| == |s.ring.d|
  {
    match e
    case Call(p) =>
      if s.pc.Idle? && ThreadMayRun(s) && Fits(p) then s.(pc := TestOwn(p), submitted := s.submitted + [p]) else s
    case Thread => if ThreadMayRun(s) then ThreadStep(s) else s
    case Isr => IsrStep(s)
    case DmaSend => SendStep(s)
    case DmaSuspend => SuspendStep(s)
    case RxInterrupt => s.(nis := true)
  }

  /** A run: the steps of es, one after the other. */
  function Run(s: State, es: seq<Event>): (s': State)
    requires s.ring.InBounds()
    ensures s'.ring.InBounds() && |s'.ring.d| == |s.ring.d|
  {
    if es == [] then s else Step(Run(s, es[..|es| - 1]), es[|es| - 1])
  }

  /** The state a run from power-up leads to; n is the number of descriptors. */
  function Reached(n: nat, es: seq<Event>): (s: State)
    requires n > 0
    ensures s.ring.InBounds() && |s.ring.d| == n
  {
    Run(Init(n), es)
  }

  // ----- what holds of the ring

  /** Frames given to the DMA and not sent yet. */
  function InFlight(r: Ring): int { |r.accepted| - |r.wire| }

  /** The descriptors form the cycle built by the initialisation loop. */
  predicate Cycle(r: Ring)
  {
    |r.d| > 0 && r.InBounds() &&
    forall i :: 0 <= i < |r.d| ==> r.d[i].next == Wrap(i + 1, |r.d|)
  }

  /** Descriptor x carries frame f to the DMA. */
  predicate Carries(x: Desc, f: seq<byte>)
  {
    x.own && x.segmentBits && x.ic && x.len <= |x.buf| && x.buf[..x.len] == f
  }

  /** The DMA owns the segment of InFlight(r) descriptors that starts at its pointer,
      and no other. */
  predicate Segment(r: Ring)
    requires Cycle(r)
  {
    0 <= InFlight(r) <= |r.d| &&
    r.wire <= r.accepted &&
    forall i :: 0 <= i < |r.d| ==>
      var j := Distance(r.dma, i, |r.d|);
      if j < InFlight(r) then Carries(r.d[i], r.accepted[|r.wire| + j]) else !r.d[i].own
  }

  /** The descriptor just behind the segment, where the next frame goes. */
  function SegmentEnd(r: Ring): nat
    requires Cycle(r) && Segment(r)
  {
    Wrap(r.dma + InFlight(r), |r.d|)
  }

  /** With the CPU's pointer at the segment end, OWN there means the ring is full and
      the DMA is at that very descriptor. */
  lemma OwnedMeansFull(r: Ring)
    requires Cycle(r) && Segment(r) && r.toSet == SegmentEnd(r)
    ensures r.Current().own <==> InFlight(r) == |r.d|
    ensures r.Current().own ==> r.dma == r.toSet
  {
  }

  predicate OwnsExactly(r: Ring)
    requires r.InBounds()
  {
    0 <= InFlight(r) <= |r.d| &&
    forall i :: 0 <= i < |r.d| ==> (r.d[i].own <==> Distance(r.dma, i, |r.d|) < InFlight(r))
  }

  lemma SegmentIsOwned(r: Ring)
    requires Cycle(r) && Segment(r)
    ensures OwnsExactly(r)
  {
  }

  lemma WriteKeepsSegment(r: Ring, x: Desc)
    requires Cycle(r) && Segment(r) && !r.Current().own
    requires !x.own && x.next == r.Current().next && |x.buf| == BUFFER_SIZE
    ensures Cycle(r.Write(x)) && Segment(r.Write(x))
  {
  }

  lemma MoveKeepsSegment(r: Ring)
    requires Cycle(r) && Segment(r)
    ensures var r' := r.(toSet := r.Current().next);
            Cycle(r') && Segment(r') && SegmentEnd(r') == SegmentEnd(r)
  {
  }

  lemma GiveGrowsSegment(r: Ring, f: seq<byte>)
    requires Cycle(r) && Segment(r) && r.toSet == SegmentEnd(r)
    requires !r.Current().own && Carries(r.Current().(own := true), f)
    ensures Cycle(Give(r, f)) && Segment(Give(r, f))
    ensures SegmentEnd(Give(r, f)) == Wrap(r.toSet + 1, |r.d|)
  {
    OwnedMeansFull(r);
    var r' := Give(r, f);
    var n := |r.d|;
    forall i | 0 <= i < n
      ensures var j := Distance(r.dma, i, n);
              if j < InFlight(r') then Carries(r'.d[i], r'.accepted[|r.wire| + j]) else !r'.d[i].own
    {
      if i != r.toSet {
        assert r'.d[i] == r.d[i];
        assert Distance(r.dma, i, n) != InFlight(r);
      }
    }
  }

  /** The engine sends the oldest frame in flight. */
  lemma SendShrinksSegment(r: Ring)
    requires Cycle(r) && Segment(r) && r.d[r.dma].own
    ensures r.d[r.dma].len <= BUFFER_SIZE
    ensures InFlight(r) > 0 && Send(r).wire == r.wire + [r.accepted[|r.wire|]]
    ensures Cycle(Send(r)) && Segment(Send(r)) && SegmentEnd(Send(r)) == SegmentEnd(r)
  {
    var n := |r.d|;
    assert Distance(r.dma, r.dma, n) == 0;
    var r' := Send(r);
    forall i | 0 <= i < n
      ensures var j := Distance(r'.dma, i, n);
              if j < InFlight(r') then Carries(r'.d[i], r'.accepted[|r'.wire| + j]) else !r'.d[i].own
    {
      if i != r.dma {
        assert r'.d[i] == r.d[i];
        assert Distance(r'.dma, i, n) + 1 == Distance(r.dma, i, n);
      }
    }
  }

  // ----- invariant

  predicate RingInv(s: State)
  {
    Cycle(s.ring) && Segment(s.ring) &&
    SegmentEnd(s.ring) == if GaveAway(s.pc) then Wrap(s.ring.toSet + 1, |s.ring.d|) else s.ring.toSet
  }

  /** The descriptor being prepared is not owned by the DMA and holds what has been
      written to it so far. */
  predicate Prepared(pc: Pc, cur: Desc)
  {
    |cur.buf| == BUFFER_SIZE &&
    (Preparing(pc) ==> !cur.own && Fits(pc.p)) &&
    (WaitLoop(pc) ==> Fits(pc.p)) &&
    match pc
    case Copy(p, link, offset) =>
      link <= |p| && offset == |Concat(p[..link])| <= BUFFER_SIZE && cur.buf[..offset] == Concat(p[..link])
    case Mark(p) => Concat(p) <= cur.buf
    case Clean(p) => Concat(p) <= cur.buf && cur.len == |Concat(p)| && cur.segmentBits && cur.ic
    case GiveOwn(p) => Carries(cur.(own := true), Framed(Concat(p)))
    case _ => true
  }

  /** Flag and semaphore: at most one token is on its way to the waiting thread, and
      whenever one is, or one may come, the current descriptor has been sent. */
  predicate Handshake(s: State)
    requires s.ring.InBounds()
  {
    (s.waiting ==> s.pc.Take? || s.pc.Blocked?) &&
    (s.pc.Blocked? ==> s.waiting) &&
    s.sem == (if s.pc.Take? && !s.waiting then 1 else 0) &&
    (s.t ==> s.nis || s.isr != Out) &&
    (s.isr.Leaving? ==> !s.waiting) &&
    (s.sem > 0 || (s.t && (s.pc.SetFlag? || s.pc.Take? || s.pc.Blocked?)) ==> !s.ring.Current().own)
  }

  /** A suspended engine is only left with work to do while the thread is on its way
      to the poll demand. */
  predicate Demand(s: State)
    requires s.ring.InBounds()
  {
    (s.suspended ==> s.tbus || s.pc.Poll?) &&
    (s.suspended && s.ring.d[s.ring.dma].own ==> s.pc.TestTbus? || s.pc.ClearTbus? || s.pc.Poll?)
  }

  /** The accepted frames are the submitted chains, in order. */
  predicate Logged(s: State)
  {
    var accepted, open := s.ring.accepted, WaitLoop(s.pc) || Preparing(s.pc);
    |s.submitted| == |accepted| + (if open then 1 else 0) &&
    (open ==> s.submitted[|accepted|] == s.pc.p) &&
    forall i :: 0 <= i < |accepted| ==> accepted[i] == Framed(Concat(s.submitted[i]))
  }

  predicate Inv(s: State)
  {
    RingInv(s) && Prepared(s.pc, s.ring.Current()) && Handshake(s) && Demand(s) && Logged(s)
  }

  lemma InitInv(n: nat)
    requires n > 0
    ensures Inv(Init(n))
  {
  }

  lemma WaitLoopKeepsInv(s: State)
    requires Inv(s) && ThreadMayRun(s) && WaitLoop(s.pc)
    ensures Inv(ThreadStep(s))
  {
  }

  lemma CopyKeepsInv(s: State)
    requires Inv(s) && ThreadMayRun(s) && s.pc.Copy?
    ensures Inv(ThreadStep(s))
  {
    var Copy(p, link, offset) := s.pc;
    if link < |p| {
      ConcatNext(p, link);
      ConcatPrefix(p, link + 1);
      WriteKeepsSegment(s.ring, CopyLink(s.ring.Current(), p[link], offset));
    } else {
      assert p[..link] == p;
    }
  }

  lemma FinishKeepsInv(s: State)
    requires Inv(s) && ThreadMayRun(s) && (s.pc.Mark? || s.pc.Clean?)
    ensures Inv(ThreadStep(s))
  {
    var cur := s.ring.Current();
    if s.pc.Mark? {
      WriteKeepsSegment(s.ring, MarkDesc(cur, s.pc.p));
    } else {
      CleanIsFramed(cur.buf, Concat(s.pc.p));
      WriteKeepsSegment(s.ring, cur.(buf := CleanChecksum(cur.buf)));
    }
  }

  lemma GiveOwnKeepsInv(s: State)
    requires Inv(s) && ThreadMayRun(s) && s.pc.GiveOwn?
    ensures Inv(ThreadStep(s))
  {
    GiveGrowsSegment(s.ring, Framed(Concat(s.pc.p)));
  }

  lemma PollKeepsInv(s: State)
    requires Inv(s) && ThreadMayRun(s) && (s.pc.TestTbus? || s.pc.ClearTbus? || s.pc.Poll?)
    ensures Inv(ThreadStep(s))
  {
  }

  lemma AdvanceKeepsInv(s: State)
    requires Inv(s) && ThreadMayRun(s) && s.pc.Advance?
    ensures Inv(ThreadStep(s))
  {
    MoveKeepsSegment(s.ring);
  }

  lemma ThreadKeepsInv(s: State)
    requires Inv(s) && ThreadMayRun(s)
    ensures Inv(ThreadStep(s))
  {
    match s.pc
    case Copy(_, _, _) => CopyKeepsInv(s);
    case Mark(_) => FinishKeepsInv(s);
    case Clean(_) => FinishKeepsInv(s);
    case GiveOwn(_) => GiveOwnKeepsInv(s);
    case Advance => AdvanceKeepsInv(s);
    case Idle =>
    case _ => if WaitLoop(s.pc) { WaitLoopKeepsInv(s); } else { PollKeepsInv(s); }
  }

  lemma ReleaseKeepsInv(s: State)
    requires Inv(s) && s.isr.Entered? && s.t && s.waiting
    ensures Inv(IsrStep(s))
  {
    if s.pc.Blocked? {
      assert Concat(s.pc.p[..0]) == [];
    }
  }

  lemma IsrKeepsInv(s: State)
    requires Inv(s)
    ensures Inv(IsrStep(s))
  {
    if s.isr.Entered? && s.t && s.waiting {
      ReleaseKeepsInv(s);
    } else {
      assert IsrStep(s).pc == s.pc && IsrStep(s).ring == s.ring;
    }
  }

  lemma SendKeepsInv(s: State)
    requires Inv(s)
    ensures Inv(SendStep(s))
  {
    if !s.suspended && s.ring.d[s.ring.dma].own {
      SendShrinksSegment(s.ring);
      if !GaveAway(s.pc) {
        OwnedMeansFull(s.ring);
      }
    }
  }

  lemma SuspendKeepsInv(s: State)
    requires Inv(s)
    ensures Inv(SuspendStep(s))
  {
  }

  lemma StepKeepsInv(s: State, e: Event)
    requires Inv(s)
    ensures Inv(Step(s, e))
  {
    match e
    case Call(p) =>
    case Thread => if ThreadMayRun(s) { ThreadKeepsInv(s); }
    case Isr => IsrKeepsInv(s);
    case DmaSend => SendKeepsInv(s);
    case DmaSuspend => SuspendKeepsInv(s);
    case RxInterrupt =>
  }

  lemma {:induction false} RunKeepsInv(s: State, es: seq<Event>)
    requires Inv(s)
    ensures Inv(Run(s, es))
  {
    if es != [] {
      RunKeepsInv(s, es[..|es| - 1]);
      StepKeepsInv(Run(s, es[..|es| - 1]), es[|es| - 1]);
    }
  }

  lemma ReachableInv(n: nat, es: seq<Event>)
    requires n > 0
    ensures Inv(Reached(n, es))
  {
    InitInv(n);
    RunKeepsInv(Init(n), es);
  }

  lemma {:induction false} RunAppend(s: State, es: seq<Event>, fs: seq<Event>)
    requires s.ring.InBounds()
    ensures Run(s, es + fs) == Run(Run(s, es), fs)
  {
    if fs == [] {
      assert es + fs == es;
    } else {
      RunAppend(s, es, fs[..|fs| - 1]);
      assert (es + fs)[..|es + fs| - 1] == es + fs[..|fs| - 1];
    }
  }

  lemma ThenStep(s: State, es: seq<Event>, e: Event)
    requires s.ring.InBounds()
    ensures Run(s, es + [e]) == Step(Run(s, es), e)
  {
    assert (es + [e])[..|es|] == es;
  }

  lemma ThenReached(n: nat, es: seq<Event>, e: Event)
    requires n > 0
    ensures Reached(n, es + [e]) == Step(Reached(n, es), e)
    ensures e.Thread? && ThreadMayRun(Reached(n, es)) ==> Reached(n, es + [e]) == ThreadStep(Reached(n, es))
    ensures e.Isr? ==> Reached(n, es + [e]) == IsrStep(Reached(n, es))
    ensures e.DmaSend? ==> Reached(n, es + [e]) == SendStep(Reached(n, es))
    ensures e.DmaSuspend? ==> Reached(n, es + [e]) == SuspendStep(Reached(n, es))
  {
    ThenStep(Init(n), es, e);
  }

  // ----- main results, over every interleaving from the initial state

  /** Whichever way the thread leaves the wait loop, the descriptor it goes on to fill
      is not owned by the DMA, although OWN is not read again after the semaphore. */
  lemma WaitLoopExitIsSafe(n: nat, es: seq<Event>, e: Event)
    requires n > 0
    ensures var s := Reached(n, es);
            var s' := Step(s, e);
            WaitLoop(s.pc) && !WaitLoop(s'.pc) ==>
              s'.pc == Copy(s.pc.p, 0, 0) && s'.ring.toSet == s.ring.toSet && !s'.ring.Current().own
  {
    hide Reached, Step, Inv;
    ReachableInv(n, es);
    ExitIsSafe(Reached(n, es), e);
  }

  lemma ExitIsSafe(s: State, e: Event)
    requires Inv(s)
    ensures var s' := Step(s, e);
            WaitLoop(s.pc) && !WaitLoop(s'.pc) ==>
              s'.pc == Copy(s.pc.p, 0, 0) && s'.ring.toSet == s.ring.toSet && !s'.ring.Current().own
  {
    hide Segment, Cycle, Demand, Logged, Prepared;
  }

  /** The semaphore never exceeds one, is set only for a thread that is about to take
      it, and never together with the waiting flag. */
  lemma SemaphoreIsHandshake(n: nat, es: seq<Event>)
    requires n > 0
    ensures var s := Reached(n, es);
            s.sem <= 1 && (s.sem > 0 ==> s.pc.Take? && !s.waiting)
  {
    ReachableInv(n, es);
  }

  /** The DMA owns exactly the descriptors from its pointer to the segment end, and
      between two transmissions the segment end is the CPU's pointer. */
  lemma OwnedIsSegment(n: nat, es: seq<Event>)
    requires n > 0
    ensures OwnsExactly(Reached(n, es).ring)
    ensures var s := Reached(n, es);
            s.pc.Idle? ==> s.ring.toSet == Wrap(s.ring.dma + InFlight(s.ring), |s.ring.d|)
  {
    ReachableInv(n, es);
    SegmentIsOwned(Reached(n, es).ring);
  }

  /** What has to go out for each submitted chain. */
  function Frames(chains: seq<Pbufs>): seq<seq<byte>>
  {
    seq(|chains|, i requires 0 <= i < |chains| => Framed(Concat(chains[i])))
  }

  /** The frames on the wire are the submitted chains in order, each one whole and with no
      byte changed but those of an ICMP checksum; whatever has not been sent yet is still in
      the ring. */
  lemma WireIsPrefixOfSubmitted(n: nat, es: seq<Event>)
    requires n > 0
    ensures var s := Reached(n, es);
            |s.ring.wire| <= |s.ring.accepted| <= |s.submitted| &&
            forall i :: 0 <= i < |s.ring.wire| ==> OnWire(Concat(s.submitted[i]), s.ring.wire[i])
    ensures var s := Reached(n, es);
            s.ring.wire <= s.ring.accepted <= Frames(s.submitted) &&
            |s.submitted| - |s.ring.accepted| == (if WaitLoop(s.pc) || Preparing(s.pc) then 1 else 0)
  {
    ReachableInv(n, es);
    var s := Reached(n, es);
    FramesSent(s);
    hide *;
    forall i | 0 <= i < |s.ring.wire|
      ensures OnWire(Concat(s.submitted[i]), s.ring.wire[i])
    {
      FramedOnWire(Concat(s.submitted[i]));
    }
  }

  /** Of a sent frame with an Ethernet header and an IP header of 20 bytes every byte is as it was
      submitted, unless it is an ICMP packet: then its two checksum bytes are zero. */
  lemma OnlyIcmpChecksumIsCleared(n: nat, es: seq<Event>, i: nat, dest: seq<byte>, src: seq<byte>,
                                  ethertype: seq<byte>, ip: seq<byte>, rest: seq<byte>)
    requires n > 0 && i < |Reached(n, es).ring.wire|
    requires |dest| == 6 && |src| == 6 && |ethertype| == 2 && |ip| == 20
    ensures i < |Reached(n, es).submitted|
    ensures Concat(Reached(n, es).submitted[i]) == dest + src + ethertype + ip + rest ==>
              var w := Reached(n, es).ring.wire[i];
              (!(ethertype == [0x08, 0x00] && ip[9] == 1) ==> w == dest + src + ethertype + ip + rest) &&
              (ethertype == [0x08, 0x00] && ip[9] == 1 && |rest| >= 4 ==>
                w == dest + src + ethertype + ip + (rest[..2] + [0, 0] + rest[4..]))
  {
    hide *;
    WireIsPrefixOfSubmitted(n, es);
    var s := Reached(n, es);
    if Concat(s.submitted[i]) == dest + src + ethertype + ip + rest {
      OnlyIcmpChecksumChanges(dest, src, ethertype, ip, rest, s.ring.wire[i]);
    }
  }

  lemma FramesSent(s: State)
    requires Inv(s)
    ensures |s.ring.wire| <= |s.ring.accepted| <= |s.submitted|
    ensures forall i :: 0 <= i < |s.ring.wire| ==> s.ring.wire[i] == Framed(Concat(s.submitted[i]))
  {
    hide Framed, Concat;
  }

  /** No step writes to a descriptor the DMA owns; it only loses its OWN bit, and only
      by being sent. */
  lemma OwnedIsUntouched(n: nat, es: seq<Event>, e: Event, i: nat)
    requires n > 0 && i < n && Reached(n, es).ring.d[i].own
    ensures var r, r' := Reached(n, es).ring, Step(Reached(n, es), e).ring;
            r'.d[i] == r.d[i] ||
            (e.DmaSend? && i == r.dma && |r.wire| < |r.accepted| &&
             r'.d[i] == r.d[i].(own := false) && r'.wire == r.wire + [r.accepted[|r.wire|]])
  {
    hide Reached, Step, Inv;
    ReachableInv(n, es);
    StepSparesOwned(Reached(n, es), e, i);
  }

  lemma StepSparesOwned(s: State, e: Event, i: nat)
    requires Inv(s) && i < |s.ring.d| && s.ring.d[i].own
    ensures var r, r' := s.ring, Step(s, e).ring;
            r'.d[i] == r.d[i] ||
            (e.DmaSend? && i == r.dma && |r.wire| < |r.accepted| &&
             r'.d[i] == r.d[i].(own := false) && r'.wire == r.wire + [r.accepted[|r.wire|]])
  {
    hide Segment, Handshake, Demand, Logged;
    if e.DmaSend? && s.ring.d[s.ring.dma].own {
      SendShrinksSegment(s.ring);
    } else if e.Thread? && Preparing(s.pc) {
      assert i != s.ring.toSet;
    }
  }

  /** Setting OWN before testing the status and then writing the poll demand loses no
      wake-up: between transmissions the engine is not suspended on a descriptor it owns. */
  lemma NoPollDemandIsLost(n: nat, es: seq<Event>)
    requires n > 0
    ensures var s := Reached(n, es);
            s.pc.Idle? || WaitLoop(s.pc) || Preparing(s.pc) ==> !(s.suspended && s.ring.d[s.ring.dma].own)
  {
    ReachableInv(n, es);
  }

  // ----- a thread that waits for ever

  /** A suspended thread that no run can wake. */
  ghost predicate Stuck(s: State)
    requires s.ring.InBounds()
  {
    forall es: seq<Event> :: Run(s, es).pc.Blocked?
  }

  lemma NoStepWakes(s: State, e: Event)
    requires Inv(s) && s.pc.Blocked? && InFlight(s.ring) == 0 && !s.t
    ensures var s' := Step(s, e);
            s'.pc.Blocked? && InFlight(s'.ring) == 0 && !s'.t
  {
    assert Distance(s.ring.dma, s.ring.dma, |s.ring.d|) == 0;
  }

  lemma {:induction false} NothingWakes(s: State, es: seq<Event>)
    requires Inv(s) && s.pc.Blocked? && InFlight(s.ring) == 0 && !s.t
    ensures var s' := Run(s, es);
            Inv(s') && s'.pc.Blocked? && InFlight(s'.ring) == 0 && !s'.t
  {
    if es != [] {
      NothingWakes(s, es[..|es| - 1]);
      NoStepWakes(Run(s, es[..|es| - 1]), es[|es| - 1]);
      StepKeepsInv(Run(s, es[..|es| - 1]), es[|es| - 1]);
    }
  }

  /** Served interrupts wake the thread once a completion is signalled. */
  lemma SignalWakes(s: State) returns (es: seq<Event>)
    requires Inv(s) && s.pc.Blocked? && s.t
    ensures !Run(s, es).pc.Blocked?
  {
    if s.isr.Out? {
      es := [Isr, Isr];
      assert Run(s, [Isr]) == Step(Run(s, []), Isr);
      assert es[..1] == [Isr];
    } else {
      es := [Isr];
      assert Run(s, es) == Step(Run(s, []), Isr);
    }
  }

  /** The flag is raised outside the critical section that would protect the test of OWN.
      A thread suspended on the semaphore is lost exactly when every frame has already
      been sent and no completion is signalled. */
  lemma StuckExactlyWhen(s: State)
    requires Inv(s) && s.pc.Blocked?
    ensures Stuck(s) <==> InFlight(s.ring) == 0 && !s.t
  {
    if InFlight(s.ring) == 0 && !s.t {
      forall es: seq<Event>
        ensures Run(s, es).pc.Blocked?
      {
        NothingWakes(s, es);
      }
    } else if s.t {
      var es := SignalWakes(s);
    } else {
      assert Distance(s.ring.dma, s.ring.dma, |s.ring.d|) == 0;
      SendShrinksSegment(s.ring);
      StepKeepsInv(s, DmaSend);
      assert Run(s, [DmaSend]) == Step(Run(s, []), DmaSend);
      var es := SignalWakes(Step(s, DmaSend));
      RunAppend(s, [DmaSend], es);
    }
  }

  lemma StepFirst(s: State, e: Event, es: seq<Event>)
    requires s.ring.InBounds()
    ensures Run(s, [e] + es) == Run(Step(s, e), es)
  {
    RunAppend(s, [e], es);
    ThenStep(s, [], e);
    assert [] + [e] == [e];
  }

  /** The engine is running and nothing is signalled. */
  ghost predicate Quiet(s: State)
  {
    Inv(s) && ThreadMayRun(s) && !s.t && !s.suspended
  }

  /** How many thread steps are left of a transmission, at most. */
  ghost function StepsLeft(s: State): nat
    requires Inv(s)
  {
    match s.pc
    case Copy(p, link, _) => 9 + |p| - link
    case Mark(_) => 7
    case Clean(_) => 6
    case GiveOwn(_) => 5
    case TestTbus => 4
    case ClearTbus => 3
    case Poll => 2
    case Advance => 1
    case _ => 0
  }

  lemma FillProgresses(s: State)
    requires Quiet(s) && Preparing(s.pc)
    ensures var t := FillStep(s);
            ThreadMayRun(t) && !t.t && !t.suspended &&
            (if s.pc.GiveOwn? then t.pc.TestTbus? else Preparing(t.pc)) &&
            InFlight(t.ring) == InFlight(s.ring) + (if s.pc.GiveOwn? then 1 else 0) &&
            (Inv(t) ==> StepsLeft(t) < StepsLeft(s))
  {
    if s.pc.Copy? && s.pc.link < |s.pc.p| {
      ConcatNext(s.pc.p, s.pc.link);
      ConcatPrefix(s.pc.p, s.pc.link + 1);
    }
  }

  lemma TailProgresses(s: State)
    requires Quiet(s) && GaveAway(s.pc)
    ensures var t := TailStep(s);
            ThreadMayRun(t) && !t.t && !t.suspended &&
            (t.pc.Idle? || GaveAway(t.pc)) && InFlight(t.ring) == InFlight(s.ring) &&
            (Inv(t) ==> StepsLeft(t) < StepsLeft(s))
  {
  }

  /** Left alone, a transmission past its wait loop runs to its end. */
  lemma {:induction false} Finishes(s: State) returns (es: seq<Event>)
    requires Quiet(s) && !WaitLoop(s.pc)
    ensures var s' := Run(s, es);
            Quiet(s') && s'.pc.Idle? && InFlight(s'.ring) == InFlight(s.ring) + (if Preparing(s.pc) then 1 else 0)
    ensures forall e :: e in es ==> e.Thread?
    decreases StepsLeft(s)
  {
    if s.pc.Idle? {
      es := [];
    } else {
      StepKeepsInv(s, Thread);
      if Preparing(s.pc) { FillProgresses(s); } else { TailProgresses(s); }
      var t := Step(s, Thread);
      es := Finishes(t);
      StepFirst(s, Thread, es);
      es := [Thread] + es;
    }
  }

  /** Transmissions of the empty chain fill the ring. */
  lemma {:induction false} FillsTheRing(s: State) returns (es: seq<Event>)
    requires Quiet(s) && s.pc.Idle?
    ensures var s' := Run(s, es);
            Quiet(s') && s'.pc.Idle? && InFlight(s'.ring) == |s'.ring.d|
    decreases |s.ring.d| - InFlight(s.ring)
  {
    es := [];
    if InFlight(s.ring) < |s.ring.d| {
      OwnedMeansFull(s.ring);
      var t := Step(s, Call([]));
      var u := Step(t, Thread);
      StepKeepsInv(s, Call([]));
      StepKeepsInv(t, Thread);
      var fs := Finishes(u);
      var gs := FillsTheRing(Run(u, fs));
      StepFirst(s, Call([]), [Thread] + (fs + gs));
      StepFirst(t, Thread, fs + gs);
      RunAppend(u, fs, gs);
      es := [Call([])] + ([Thread] + (fs + gs));
    }
  }

  /** No further transmission is requested. */
  predicate CallFree(es: seq<Event>) { forall e :: e in es ==> !e.Call? }

  /** Every frame is sent while the thread is between the test of OWN and the flag. */
  lemma {:induction false} SendsAll(s: State) returns (es: seq<Event>)
    requires Inv(s) && s.isr.Out? && !s.suspended && InFlight(s.ring) > 0
    ensures var s' := Run(s, es);
            Inv(s') && s'.pc == s.pc && s'.isr.Out? && s'.nis && s'.t && InFlight(s'.ring) == 0 && !s'.suspended
    ensures forall e :: e in es ==> e.DmaSend?
    decreases InFlight(s.ring)
  {
    assert Distance(s.ring.dma, s.ring.dma, |s.ring.d|) == 0;
    SendShrinksSegment(s.ring);
    var t := Step(s, DmaSend);
    StepKeepsInv(s, DmaSend);
    es := [];
    if InFlight(t.ring) > 0 {
      es := SendsAll(t);
    }
    StepFirst(s, DmaSend, es);
    es := [DmaSend] + es;
  }

  /** The completion is served before the flag is raised; then the thread suspends itself. */
  lemma SuspendsInVain(s: State)
    requires Inv(s) && s.pc.SetFlag? && s.isr.Out? && s.nis && s.t && InFlight(s.ring) == 0
    ensures var s' := Run(s, [Isr] + ([Isr] + ([Isr] + ([Thread] + ([Thread] + [])))));
            s'.pc.Blocked? && InFlight(s'.ring) == 0 && !s'.t
  {
    hide Step;
    StepFirst(s, Isr, [Isr] + ([Isr] + ([Thread] + ([Thread] + []))));
    var t := Step(s, Isr);
    StepFirst(t, Isr, [Isr] + ([Thread] + ([Thread] + [])));
    var u := Step(t, Isr);
    StepFirst(u, Isr, [Thread] + ([Thread] + []));
    var v := Step(u, Isr);
    ServedWithoutFlag(s);
    StepFirst(v, Thread, [Thread] + []);
    StepFirst(Step(v, Thread), Thread, []);
    FlagsAndBlocks(v);
  }

  lemma ServedWithoutFlag(s: State)
    requires Inv(s) && (s.pc.SetFlag? || s.pc.TestOwn?) && s.isr.Out? && s.nis && s.t
    ensures Step(Step(Step(s, Isr), Isr), Isr) == s.(nis := false, t := false, isr := Out)
  {
    hide RingInv, Demand, Logged, Prepared;
  }

  lemma FlagsAndBlocks(s: State)
    requires s.ring.InBounds() && s.pc.SetFlag? && ThreadMayRun(s) && s.sem == 0
    ensures Step(Step(s, Thread), Thread) == s.(waiting := true, pc := Blocked(s.pc.p))
  {
  }

  /** On a ring of any size such a state is reached. */
  lemma StuckIsReachable(n: nat) returns (es: seq<Event>)
    requires n > 0
    ensures Stuck(Reached(n, es))
  {
    InitInv(n);
    var fs := FillsTheRing(Init(n));
    var s := Run(Init(n), fs);
    OwnedMeansFull(s.ring);
    var t := Step(s, Call([]));
    StepKeepsInv(s, Call([]));
    StepKeepsInv(t, Thread);
    var u := Step(t, Thread);
    var gs := SendsAll(u);
    SuspendsInVain(Run(u, gs));
    var hs := [Isr] + ([Isr] + ([Isr] + ([Thread] + ([Thread] + []))));
    RunAppend(u, gs, hs);
    StepFirst(t, Thread, gs + hs);
    StepFirst(s, Call([]), [Thread] + (gs + hs));
    es := fs + ([Call([])] + ([Thread] + (gs + hs)));
    RunAppend(Init(n), fs, [Call([])] + ([Thread] + (gs + hs)));
    ReachableInv(n, es);
    StuckExactlyWhen(Reached(n, es));
  }

  /** A transmission that found its descriptor free never comes near the semaphore. */
  predicate NeverWaits(s: State)
    requires s.ring.InBounds()
  {
    !s.pc.SetFlag? && !s.pc.Take? && !s.pc.Blocked? && (s.pc.TestOwn? ==> !s.ring.Current().own)
  }

  lemma {:induction false} FreeDescriptorNeverWaits(s: State, es: seq<Event>)
    requires s.ring.InBounds() && NeverWaits(s) && CallFree(es)
    ensures NeverWaits(Run(s, es))
  {
    if es != [] {
      FreeDescriptorNeverWaits(s, es[..|es| - 1]);
      assert es[|es| - 1] in es;
      StepNeverWaits(Run(s, es[..|es| - 1]), es[|es| - 1]);
    }
  }

  lemma StepNeverWaits(s: State, e: Event)
    requires s.ring.InBounds() && NeverWaits(s) && !e.Call?
    ensures NeverWaits(Step(s, e))
  {
    hide ThreadStep;
    match e
    case Thread => ThreadNeverWaits(s);
    case _ =>
  }

  lemma ThreadNeverWaits(s: State)
    requires s.ring.InBounds() && NeverWaits(s)
    ensures NeverWaits(ThreadStep(s))
  {
    hide WaitStep, FillStep, TailStep;
    if WaitLoop(s.pc) {
      LoopNeverWaits(s);
    } else if Preparing(s.pc) {
      FillNeverWaits(s);
    } else if GaveAway(s.pc) {
      TailNeverWaits(s);
    }
  }

  lemma LoopNeverWaits(s: State)
    requires s.ring.InBounds() && NeverWaits(s) && WaitLoop(s.pc)
    ensures NeverWaits(WaitStep(s))
  {
  }

  lemma FillNeverWaits(s: State)
    requires s.ring.InBounds() && Preparing(s.pc)
    ensures NeverWaits(FillStep(s))
  {
    hide CopyLink, MarkDesc, CleanChecksum, Framed, Concat, Give, Ring.Write, Ring.Current;
    if s.pc.Copy? {
      CopyNeverWaits(s);
    }
  }

  lemma CopyNeverWaits(s: State)
    requires s.ring.InBounds() && s.pc.Copy?
    ensures NeverWaits(FillStep(s))
  {
    hide CopyLink, Ring.Write, Ring.Current;
  }

  lemma TailNeverWaits(s: State)
    requires s.ring.InBounds() && GaveAway(s.pc)
    ensures NeverWaits(TailStep(s))
  {
  }

  /** The way into a wait without end, from a call that finds its descriptor owned. */
  lemma OwnedMayWaitForever(s: State, p: Pbufs) returns (es: seq<Event>)
    requires Inv(s) && s.pc.Idle? && ThreadMayRun(s) && Fits(p) && s.ring.Current().own
    ensures CallFree(es) && Stuck(Run(s, [Call(p)] + es))
    ensures forall e :: e in es ==> !e.DmaSuspend?
  {
    hide Stuck, CallFree;
    var t := Step(s, Call(p));
    var u := Step(t, Thread);
    OwnedCallWaits(s, p);
    var gs := SendsAll(u);
    SuspendsInVain(Run(u, gs));
    var hs := [Isr] + ([Isr] + ([Isr] + ([Thread] + ([Thread] + []))));
    RunAppend(u, gs, hs);
    es := [Thread] + (gs + hs);
    StepFirst(t, Thread, gs + hs);
    StepFirst(s, Call(p), es);
    RunKeepsInv(u, gs + hs);
    StuckExactlyWhen(Run(u, gs + hs));
    CallFreeAround(gs);
  }

  lemma CallFreeAround(gs: seq<Event>)
    requires forall e :: e in gs ==> e.DmaSend?
    ensures var es := [Thread] + (gs + ([Isr] + ([Isr] + ([Isr] + ([Thread] + ([Thread] + []))))));
            CallFree(es) && forall e :: e in es ==> !e.DmaSuspend?
  {
  }

  lemma OwnedCallWaits(s: State, p: Pbufs)
    requires Inv(s) && s.pc.Idle? && ThreadMayRun(s) && Fits(p) && s.ring.Current().own
    ensures var u := Step(Step(s, Call(p)), Thread);
            Inv(u) && u.pc.SetFlag? && u.isr.Out? && !u.suspended && InFlight(u.ring) > 0
  {
    StepKeepsInv(s, Call(p));
    StepKeepsInv(Step(s, Call(p)), Thread);
    OwnedMeansFull(s.ring);
    assert Distance(s.ring.dma, s.ring.dma, |s.ring.d|) == 0;
  }

  /** A transmission can end up waiting for ever exactly if its descriptor is still owned by
      the DMA when it is called. */
  lemma MayWaitForeverIffOwned(s: State, p: Pbufs)
    requires Inv(s) && s.pc.Idle? && ThreadMayRun(s) && Fits(p)
    ensures (exists es :: CallFree(es) && Stuck(Run(s, [Call(p)] + es))) <==> s.ring.Current().own
  {
    if s.ring.Current().own {
      var es := OwnedMayWaitForever(s, p);
    } else {
      forall es | CallFree(es)
        ensures !Stuck(Run(s, [Call(p)] + es))
      {
        StepFirst(s, Call(p), es);
        FreeDescriptorNeverWaits(Step(s, Call(p)), es);
        var t := Run(s, [Call(p)] + es);
        assert !Run(t, []).pc.Blocked?;
      }
    }
  }
}
