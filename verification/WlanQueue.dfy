/** The Wi-Fi receive queue between the driver's receive thread, which enqueues and then
    notifies only if the count is 1, and the network thread, which on a notification
    drains the queue until it finds it empty. Notifications are reliable. */
module WlanQueue {
  import opened Common

  const ETHERNET_HEADER: nat := 14

  type Packet = s: seq<byte> | |s| >= ETHERNET_HEADER witness seq(ETHERNET_HEADER, _ => 0)

  /** EtherType 0x888e, in network byte order. */
  predicate Eapol(p: Packet) { p[12] == 0x88 && p[13] == 0x8e }

  /** It is the type field of the frame. */
  lemma EapolIsTheType(dest: seq<byte>, src: seq<byte>, ethertype: seq<byte>, payload: seq<byte>)
    requires |dest| == 6 && |src| == 6 && |ethertype| == 2
    ensures Eapol(dest + src + ethertype + payload) <==> ethertype == [0x88, 0x8e]
  {
    var p := dest + src + ethertype + payload;
    assert ethertype == [p[12], p[13]];
  }

  /** The packets that go to the network stack. */
  function Data(ps: seq<Packet>): seq<Packet>
  {
    if ps == [] then []
    else if Eapol(ps[|ps| - 1]) then Data(ps[..|ps| - 1])
    else Data(ps[..|ps| - 1]) + [ps[|ps| - 1]]
  }

  /** They are the packets of all parts, in order, */
  lemma {:induction false} DataOfAll(a: seq<Packet>, b: seq<Packet>)
    ensures Data(a + b) == Data(a) + Data(b)
  {
    hide Eapol;
    if b == [] {
      assert a + b == a;
    } else {
      DataOfAll(a, b[..|b| - 1]);
      assert (a + b)[..|a + b| - 1] == a + b[..|b| - 1];
    }
  }

  /** less those of type 88-8E. */
  lemma DataOfOne(p: Packet)
    ensures Data([p]) == if p[12] == 0x88 && p[13] == 0x8e then [] else [p]
  {
    assert [p][..0] == [];
  }

  /** toCheck: the receive thread has not tested the count since its last packet. */
  datatype State = State(
    queue: seq<Packet>,
    toCheck: bool,
    mail: nat,                        // notifications not yet received
    draining: bool,
    arrived: seq<Packet>,             // every enqueued packet
    delivered: seq<Packet>)

  /** Arrive(None): a packet was dropped for want of memory or because it is too short. */
  datatype Event = Arrive(p: Option<Packet>) | Check | Receive | Dequeue

  function Init(): State { State([], false, 0, false, [], []) }

  function Step(s: State, e: Event): State
  {
    match e
    case Arrive(p) =>
      if s.toCheck then s
      else if p.None? then s.(toCheck := true)
      else s.(toCheck := true, queue := s.queue + [p.value], arrived := s.arrived + [p.value])
    case Check =>
      if s.toCheck then s.(toCheck := false, mail := if |s.queue| == 1 then s.mail + 1 else s.mail) else s
    case Receive => if s.mail > 0 && !s.draining then s.(mail := s.mail - 1, draining := true) else s
    case Dequeue =>
      if !s.draining then s
      else if s.queue == [] then s.(draining := false)
      else s.(queue := s.queue[1..],
              delivered := if Eapol(s.queue[0]) then s.delivered else s.delivered + [s.queue[0]])
  }

  function Run(s: State, es: seq<Event>): State
  {
    if es == [] then s else Step(Run(s, es[..|es| - 1]), es[|es| - 1])
  }

  lemma ThenRun(s: State, es: seq<Event>, e: Event)
    ensures Run(s, es + [e]) == Step(Run(s, es), e)
  {
    assert (es + [e])[..|es|] == es;
  }

  // ----- no packet is left without a wake-up

  /** Whoever will empty the queue: a notification under way, a reader still at it, or, for
      a single packet, the producer before its test. */
  predicate Attended(s: State)
  {
    (|s.queue| > 1 ==> s.mail > 0 || s.draining) &&
    (|s.queue| == 1 ==> s.mail > 0 || s.draining || s.toCheck)
  }

  /** What arrived is what was taken, whose data packets were delivered, and the queue. */
  predicate InOrder(s: State)
  {
    |s.queue| <= |s.arrived| &&
    var taken := |s.arrived| - |s.queue|;
    s.queue == s.arrived[taken..] && s.delivered == Data(s.arrived[..taken])
  }

  predicate Inv(s: State) { Attended(s) && InOrder(s) }

  lemma ArriveKeepsOrder(s: State, p: Option<Packet>)
    requires InOrder(s)
    ensures InOrder(Step(s, Arrive(p)))
  {
    if p.Some? {
      var taken := |s.arrived| - |s.queue|;
      assert (s.arrived + [p.value])[taken..] == s.queue + [p.value];
      assert (s.arrived + [p.value])[..taken] == s.arrived[..taken];
    }
  }

  lemma DequeueKeepsOrder(s: State)
    requires InOrder(s)
    ensures InOrder(Step(s, Dequeue))
  {
    if s.queue != [] {
      var taken := |s.arrived| - |s.queue|;
      assert s.arrived[..taken + 1] == s.arrived[..taken] + [s.queue[0]];
      assert s.arrived[..taken + 1][..taken] == s.arrived[..taken];
    }
  }

  lemma StepKeepsInv(s: State, e: Event)
    requires Inv(s)
    ensures Inv(Step(s, e))
  {
    hide Data, Eapol;
    match e
    case Arrive(p) => ArriveKeepsOrder(s, p);
    case Dequeue => DequeueKeepsOrder(s);
    case _ =>
  }

  /** In every interleaving a nonempty queue is attended, and packets are delivered in
      arrival order without the EAPOL ones. */
  lemma {:induction false} EveryRunKeepsInv(es: seq<Event>)
    ensures Attended(Run(Init(), es)) && InOrder(Run(Init(), es))
  {
    if es != [] {
      EveryRunKeepsInv(es[..|es| - 1]);
      StepKeepsInv(Run(Init(), es[..|es| - 1]), es[|es| - 1]);
    }
  }

  function Dequeues(k: nat): seq<Event> { seq(k, _ => Dequeue) }

  lemma {:induction false} DrainingEmpties(s: State, k: nat)
    requires InOrder(s) && k <= |s.queue| && (s.draining || k == 0)
    ensures var t := Run(s, Dequeues(k));
            InOrder(t) && t.draining == s.draining && t.arrived == s.arrived && |t.queue| == |s.queue| - k
  {
    hide InOrder;
    if k > 0 {
      DrainingEmpties(s, k - 1);
      ThenRun(s, Dequeues(k - 1), Dequeue);
      assert Dequeues(k) == Dequeues(k - 1) + [Dequeue];
      DequeueKeepsOrder(Run(s, Dequeues(k - 1)));
    }
  }

  lemma TestAndNotice(s: State)
    requires Inv(s)
    ensures var r := Run(s, [Check, Receive]);
            InOrder(r) && r.queue == s.queue && r.arrived == s.arrived && (s.queue != [] ==> r.draining)
  {
    hide InOrder;
    ThenRun(s, [], Check);
    ThenRun(s, [Check], Receive);
    assert [Check] + [Receive] == [Check, Receive];
    StepKeepsInv(s, Check);
    StepKeepsInv(Step(s, Check), Receive);
  }

  /** No wake-up is lost: from every reachable state, without any further arrival, the
      producer's test, one notification and the reader deliver every data packet. */
  lemma EverythingIsDelivered(es: seq<Event>)
    ensures var s := Run(Init(), es);
            var t := Run(Run(s, [Check, Receive]), Dequeues(|s.queue|));
            t.arrived == s.arrived && t.queue == [] && t.delivered == Data(s.arrived)
  {
    hide Run, Step, InOrder, Attended;
    EveryRunKeepsInv(es);
    var s := Run(Init(), es);
    TestAndNotice(s);
    DrainingEmpties(Run(s, [Check, Receive]), |s.queue|);
    AllTaken(Run(Run(s, [Check, Receive]), Dequeues(|s.queue|)));
  }

  lemma AllTaken(s: State)
    requires InOrder(s) && |s.queue| == 0
    ensures s.queue == [] && s.delivered == Data(s.arrived)
  {
    assert s.arrived[..|s.arrived|] == s.arrived;
  }
}
