/** The Wi-Fi receive path on real memory: the header rewrite in the receive buffer, the
    circular doubly linked list of packets, and the receive call of the network device.
    Methods stay on a run of the machine in module WlanQueue. */
module WlanRx {
  import opened Common
  import opened WlanQueue

  const PKT_OFFSET: nat := 8          // offset of PktOffset in RxPD
  const ADDRESS: nat := 6
  const ETH803_SIZE: nat := 14
  const RFC1042_SIZE: nat := 8
  const SNAP: seq<byte> := [0xaa, 0xaa, 0x03, 0x00, 0x00, 0x00]
  const SHORTEST_BUFFER: nat := 100
  const WORD: nat := 0x1_0000_0000

  // ----- the header rewrite

  function Le32(s: seq<byte>): nat
    requires |s| == 4
  {
    var a: nat, b: nat, c: nat, d: nat := s[0], s[1], s[2], s[3];
    a + 0x100 * b + 0x1_0000 * c + 0x100_0000 * d
  }

  /** PktOffset is the little-endian word at byte 8. */
  lemma PacketOffsetBytes(data: seq<byte>)
    requires |data| >= 12
    ensures Le32(data[PKT_OFFSET..PKT_OFFSET + 4]) as int
            == data[8] as int + 0x100 * data[9] as int + 0x1_0000 * data[10] as int + 0x100_0000 * data[11] as int
  {
  }

  /** An 802.3 frame with an LLC and SNAP header (RFC 1042, "Header Format"). */
  function SnapFrame(dest: seq<byte>, src: seq<byte>, length: seq<byte>,
                     ethertype: seq<byte>, payload: seq<byte>): seq<byte>
  {
    dest + src + length + SNAP + ethertype + payload
  }

  function EthernetFrame(dest: seq<byte>, src: seq<byte>, ethertype: seq<byte>, payload: seq<byte>): seq<byte>
  {
    dest + src + ethertype + payload
  }

  predicate IsSnap(data: seq<byte>, offset: nat)
  {
    offset + ETH803_SIZE + RFC1042_SIZE <= |data| &&
    data[offset + ETH803_SIZE..offset + ETH803_SIZE + |SNAP|] == SNAP
  }

  /** How many bytes are chopped off: PktOffset, and 8 more for a SNAP frame. */
  function Chop(data: seq<byte>, offset: nat): nat
  {
    if IsSnap(data, offset) then offset + RFC1042_SIZE else offset
  }

  /** How many bytes go to the packet buffer. */
  function CopyLength(len: nat, chop: nat): nat
    requires chop <= len
  {
    if len - chop < SHORTEST_BUFFER then SHORTEST_BUFFER else len - chop
  }

  /** The receive buffer has the headers and as many bytes as are copied. */
  predicate HasRoom(was: seq<byte>, offset: nat, len: nat)
  {
    offset + 12 <= len && offset + ETH803_SIZE + RFC1042_SIZE <= |was| &&
    Chop(was, offset) + CopyLength(len, Chop(was, offset)) <= |was|
  }

  /** Those bytes: for a SNAP frame both addresses and what follows the SNAP header, for
      any other the frame itself. */
  function Reframed(was: seq<byte>, offset: nat, len: nat): seq<byte>
    requires HasRoom(was, offset, len)
  {
    var frame := if IsSnap(was, offset) then was[offset..offset + 12] + was[offset + 20..] else was[offset..];
    frame[..CopyLength(len, Chop(was, offset))]
  }

  /** A frame that does not have the six SNAP bytes at byte 14 stays as it is, and at least
      100 bytes are copied. */
  lemma PlainFrameStays(was: seq<byte>, offset: nat, len: nat)
    requires HasRoom(was, offset, len)
    requires was[offset + 14..offset + 20] != [0xaa, 0xaa, 0x03, 0x00, 0x00, 0x00]
    ensures var n := if len - offset < 100 then 100 else len - offset;
            offset + n <= |was| && Reframed(was, offset, len) == was[offset..offset + n]
  {
  }

  /** s with n bytes from one place also at another. */
  function Copied(s: seq<byte>, to: nat, from: nat, n: nat): (r: seq<byte>)
    requires to + n <= |s| && from + n <= |s|
    ensures |r| == |s|
  {
    s[..to] + s[from..from + n] + s[to + n..]
  }

  /** rt_memcpy inside one buffer, byte by byte. */
  method CopyBytes(data: array<byte>, to: nat, from: nat, n: nat)
    requires to + n <= data.Length && from + n <= data.Length && (to + n <= from || from + n <= to)
    modifies data
    ensures data[..] == Copied(old(data[..]), to, from, n)
  {
    for k := 0 to n
      invariant forall i :: 0 <= i < data.Length ==> data[i] == old(data[if to <= i < to + k then i - to + from else i])
    {
      data[to + k] := data[from + k];
    }
  }

  /** Although the second copy overwrites part of the original source address, both
      addresses end up in front of the type. */
  lemma AddressesMove(was: seq<byte>, offset: nat)
    requires offset + 22 <= |was|
    ensures Copied(Copied(was, offset + 14, offset + 6, 6), offset + 8, offset, 6)[offset + 8..]
            == was[offset..offset + 12] + was[offset + 20..]
  {
    var mid := Copied(was, offset + 14, offset + 6, 6);
    assert mid[offset..offset + 6] == was[offset..offset + 6];
    assert mid[offset + 14..offset + 20] == was[offset + 6..offset + 12];
    assert mid[offset + 20..] == was[offset + 20..];
    var end := Copied(mid, offset + 8, offset, 6);
    assert end[offset + 8..offset + 14] == mid[offset..offset + 6];
    assert end[offset + 14..] == mid[offset + 14..];
    assert mid[offset + 14..] == mid[offset + 14..offset + 20] + mid[offset + 20..];
    assert end[offset + 8..] == end[offset + 8..offset + 14] + end[offset + 14..];
    assert was[offset..offset + 12] == was[offset..offset + 6] + was[offset + 6..offset + 12];
  }

  /** ProcessRxedPacket up to the packet buffer: None where the packet is dropped. data is
      the receive buffer, of which len bytes were received; the copy of a short packet
      goes on behind them. The source address moves first, then the destination address
      over part of where the source address was. */
  method Reframe(data: array<byte>, len: nat, memory: bool) returns (p: Option<seq<byte>>)
    requires PKT_OFFSET + 4 <= len <= data.Length && len < WORD
    requires var offset := Le32(data[PKT_OFFSET..PKT_OFFSET + 4]);
             offset + 12 < WORD && (offset + 12 <= len ==> HasRoom(data[..], offset, len))
    modifies data
    ensures var was, offset := old(data[..]), Le32(old(data[PKT_OFFSET..PKT_OFFSET + 4]));
            (p == if offset + 12 <= len && memory then Some(Reframed(was, offset, len)) else None) &&
            (offset + 12 > len || !IsSnap(was, offset) ==> data[..] == was)
  {
    hide Le32, Copied;
    ghost var was := data[..];
    var offset := Le32(data[PKT_OFFSET..PKT_OFFSET + 4]);
    var minlen := (8 + 4 + offset) % WORD;
    if len < minlen {
      return None;
    }
    var hdrChop := offset;
    var llc := offset + ETH803_SIZE;
    assert data[llc..llc + |SNAP|] == was[llc..llc + |SNAP|];
    if data[llc..llc + |SNAP|] == SNAP {
      var ethHdr := offset + ETH803_SIZE + RFC1042_SIZE - ADDRESS - ADDRESS - 2;
      CopyBytes(data, ethHdr + ADDRESS, offset + ADDRESS, ADDRESS);
      CopyBytes(data, ethHdr, offset, ADDRESS);
      hdrChop := ethHdr;
      AddressesMove(was, offset);
    }
    var pbuflen := (len - hdrChop) % WORD;
    if pbuflen < SHORTEST_BUFFER {
      pbuflen := SHORTEST_BUFFER;
    }
    if !memory {
      return None;
    }
    p := Some(data[hdrChop..hdrChop + pbuflen]);
    assert data[hdrChop..hdrChop + pbuflen] == data[..][hdrChop..][..pbuflen];
  }

  /** A received SNAP frame of at least 100 bytes becomes exactly the Ethernet II frame with
      the same addresses, type and payload; a shorter one is a prefix of the buffer. */
  lemma SnapBecomesEthernet(was: seq<byte>, offset: nat, len: nat,
                            dest: seq<byte>, src: seq<byte>, length: seq<byte>,
                            ethertype: seq<byte>, payload: seq<byte>)
    requires |dest| == ADDRESS && |src| == ADDRESS && |length| == 2 && |ethertype| == 2
    requires offset <= len <= |was|
    requires was[offset..len] == dest + src + length + [0xaa, 0xaa, 0x03, 0x00, 0x00, 0x00] + ethertype + payload
    requires offset + RFC1042_SIZE <= len ==> offset + RFC1042_SIZE + CopyLength(len, offset + RFC1042_SIZE) <= |was|
    ensures IsSnap(was, offset) && HasRoom(was, offset, len)
    ensures var eth := dest + src + ethertype + payload;
            var p := Reframed(was, offset, len);
            eth <= p && |p| == (if |eth| < 100 then 100 else |eth|) &&
            p[|eth|..] == was[len..len + |p| - |eth|]
  {
    var frame, eth := was[offset..len], EthernetFrame(dest, src, ethertype, payload);
    SnapFields(dest, src, length, ethertype, payload);
    SubSlice(was, offset, len - offset, 0, 12);
    SubSlice(was, offset, len - offset, 14, 20);
    SubSlice(was, offset, len - offset, 20, len - offset);
    var p := Reframed(was, offset, len);
    var long := was[offset..offset + 12] + was[offset + 20..];
    assert was[offset + 20..][..len - offset - 20] == was[offset + 20..len];
    assert long[..|eth|] == was[offset..offset + 12] + was[offset + 20..len];
    assert p == long[..CopyLength(len, offset + RFC1042_SIZE)];
  }

  lemma SnapFields(dest: seq<byte>, src: seq<byte>, length: seq<byte>, ethertype: seq<byte>, payload: seq<byte>)
    requires |dest| == ADDRESS && |src| == ADDRESS && |length| == 2 && |ethertype| == 2
    ensures var frame := SnapFrame(dest, src, length, ethertype, payload);
            |frame| == 22 + |payload| && frame[14..20] == SNAP &&
            frame[..12] + frame[20..] == EthernetFrame(dest, src, ethertype, payload)
  {
    var frame := SnapFrame(dest, src, length, ethertype, payload);
    var tail := SNAP + (ethertype + payload);
    assert frame == (dest + src + length) + tail;
    assert frame[14..] == tail && tail[..6] == SNAP && tail[6..] == ethertype + payload;
    assert frame[14..20] == frame[14..][..6] && frame[20..] == frame[14..][6..];
    assert frame[..12] == dest + src;
  }

  // ----- the list

  class RxNode {
    var next: RxNode
    var pre: RxNode
    var p: Packet

    /** A node linked to itself. */
    constructor (p: Packet)
      ensures next == this && pre == this && this.p == p
    {
      next, pre, this.p := this, this, p;
    }
  }

  /** The nodes in order, and after the last one the head again; and back. */
  ghost predicate IsCircle(nodes: seq<RxNode>, head: RxNode)
    reads nodes, head
  {
    head.next == (if nodes == [] then head else nodes[0]) &&
    head.pre == (if nodes == [] then head else nodes[|nodes| - 1]) &&
    (forall i {:trigger nodes[i].next} :: 0 <= i < |nodes| ==>
      nodes[i].next == if i + 1 < |nodes| then nodes[i + 1] else head) &&
    forall i {:trigger nodes[i].pre} :: 0 <= i < |nodes| ==> nodes[i].pre == if i > 0 then nodes[i - 1] else head
  }

  /** The links after the tail insertion, said about the nodes before it. */
  lemma LinkedAtTail(nodes: seq<RxNode>, head: RxNode, n: RxNode)
    requires head.next == (if nodes == [] then n else nodes[0]) && head.pre == n && n.next == head
    requires n.pre == if nodes == [] then head else nodes[|nodes| - 1]
    requires forall i {:trigger nodes[i].next} :: 0 <= i < |nodes| ==>
               nodes[i].next == if i + 1 < |nodes| then nodes[i + 1] else n
    requires forall i {:trigger nodes[i].pre} :: 0 <= i < |nodes| ==>
               nodes[i].pre == if i > 0 then nodes[i - 1] else head
    ensures IsCircle(nodes + [n], head)
  {
    var s := nodes + [n];
    forall i | 0 <= i < |s|
      ensures s[i].next == (if i + 1 < |s| then s[i + 1] else head) && s[i].pre == if i > 0 then s[i - 1] else head
    {
      if i < |nodes| {
        assert s[i] == nodes[i] && s[i].next == nodes[i].next && s[i].pre == nodes[i].pre;
      }
    }
  }

  class Card {
    const rxList: RxNode
    var rxQueueCount: nat
    ghost var nodes: seq<RxNode>
    ghost var repr: set<RxNode>
    ghost var queue: seq<Packet>
    var toCheck: bool                 // the receive thread has queued and not yet checked
    var mail: nat
    ghost var draining: bool
    ghost var arrived: seq<Packet>
    ghost var delivered: seq<Packet>
    ghost var history: seq<Event>

    /** The circle from the head through all nodes and back, in both directions. */
    ghost predicate Linked()
      reads `nodes, `repr, repr
    {
      rxList in repr && rxList !in nodes && (forall i :: 0 <= i < |nodes| ==> nodes[i] in repr) &&
      (forall i, j :: 0 <= i < j < |nodes| ==> nodes[i] != nodes[j]) && IsCircle(nodes, rxList)
    }

    ghost predicate Counted()
      reads `nodes, `repr, `rxQueueCount, `queue, repr
    {
      Linked() && rxQueueCount == |nodes| == |queue| &&
      forall i :: 0 <= i < |nodes| ==> queue[i] == nodes[i].p
    }

    ghost function Abs(): State
      reads this
    {
      State(queue, toCheck, mail, draining, arrived, delivered)
    }

    ghost predicate Valid()
      reads this, repr
    {
      Counted() && Abs() == Run(Init(), history)
    }

    constructor ()
      ensures Valid() && fresh(repr) && history == []
    {
      var head := new RxNode(seq(ETHERNET_HEADER, _ => 0));
      rxList := head;
      rxQueueCount, mail := 0, 0;
      nodes, repr, queue := [], {head}, [];
      toCheck, draining, arrived, delivered, history := false, false, [], [], [];
    }

    /** The critical section that links a packet at the tail. */
    method Link(p: Packet)
      requires Counted()
      modifies this`rxQueueCount, this`nodes, this`repr, this`queue, repr
      ensures Counted() && fresh(repr - old(repr)) && queue == old(queue) + [p]
    {
      var rxNode := new RxNode(p);
      if rxList.next == rxList {
        rxList.next := rxNode;
        rxList.pre := rxNode;
        rxNode.next := rxList;
        rxNode.pre := rxList;
      } else {
        rxList.pre.next := rxNode;
        rxNode.pre := rxList.pre;
        rxList.pre := rxNode;
        rxNode.next := rxList;
      }
      LinkedAtTail(nodes, rxList, rxNode);
      hide IsCircle;
      rxQueueCount := rxQueueCount + 1;
      nodes, repr, queue := nodes + [rxNode], repr + {rxNode}, queue + [p];
    }

    /** The critical section that unlinks the first packet, if there is one. */
    method Unlink() returns (p: Option<Packet>)
      requires Counted()
      modifies this`rxQueueCount, this`nodes, this`queue, repr
      ensures Counted() && (p.None? <==> old(queue) == [])
      ensures old(queue) == if p.None? then queue else [p.value] + queue
    {
      p := None;
      if rxList.next != rxList {
        var first := rxList.next;
        assert first == nodes[0];
        p := Some(first.p);
        rxList.next := first.next;
        first.next.pre := first.pre;
        rxQueueCount := rxQueueCount - 1;
        nodes, queue := nodes[1..], queue[1..];
      }
    }

    /** The receive thread's step on a data interrupt, first part (ProcessRxedPacket). */
    method ProcessRxedPacket(data: array<byte>, len: nat, memory: bool)
      requires Valid() && !toCheck && PKT_OFFSET + 4 <= len <= data.Length && len < WORD
      requires var offset := Le32(data[PKT_OFFSET..PKT_OFFSET + 4]);
               offset + 12 < WORD && (offset + 12 <= len ==> HasRoom(data[..], offset, len) && IsSnap(data[..], offset))
      modifies this, repr, data
      ensures Valid() && toCheck && fresh(repr - old(repr)) && delivered == old(delivered)
      ensures var was, offset := old(data[..]), Le32(old(data[PKT_OFFSET..PKT_OFFSET + 4]));
              if offset + 12 <= len && memory
              then |Reframed(was, offset, len)| >= ETHERNET_HEADER && queue == old(queue) + [Reframed(was, offset, len)]
              else queue == old(queue)
    {
      hide Run, Linked, Counted, IsSnap;
      var p := Reframe(data, len, memory);
      if p.Some? {
        Accept(p.value);
      } else {
        toCheck := true;
        ThenRun(Init(), history, Arrive(None));
        history := history + [Arrive(None)];
      }
    }

    /** A packet buffer is queued; the count has to be checked. */
    method Accept(p: Packet)
      requires Valid() && !toCheck
      modifies this, repr
      ensures Valid() && toCheck && fresh(repr - old(repr)) && draining == old(draining) && delivered == old(delivered)
      ensures queue == old(queue) + [p] && arrived == old(arrived) + [p]
    {
      hide Run, Linked, Counted;
      Link(p);
      ThenRun(Init(), history, Arrive(Some(p)));
      toCheck, arrived, history := true, arrived + [p], history + [Arrive(Some(p))];
    }

    /** The second part (wlan_rx_thread): notify the network thread if the count is 1. */
    method CheckQueue()
      requires Valid() && toCheck
      modifies this`toCheck, this`mail, this`history
      ensures Valid() && !toCheck && history == old(history) + [Check]
      ensures mail == if |queue| == 1 then old(mail) + 1 else old(mail)
    {
      hide Run;
      ThenRun(Init(), history, Check);
      if rxQueueCount == 1 {
        mail := mail + 1;
      }
      toCheck, history := false, history + [Check];
    }

    /** The network thread receives a notification. */
    method Wake()
      requires Valid() && mail > 0 && !draining
      modifies this`mail, this`draining, this`history
      ensures Valid() && draining && mail == old(mail) - 1 && history == old(history) + [Receive]
    {
      hide Run;
      ThenRun(Init(), history, Receive);
      mail, draining, history := mail - 1, true, history + [Receive];
    }

    method Take() returns (p: Option<Packet>)
      requires Valid() && draining
      modifies this, repr
      ensures Valid() && repr == old(repr) && arrived == old(arrived) && history == old(history) + [Dequeue]
      ensures (p.None? <==> old(queue) == []) && draining == p.Some?
      ensures old(queue) == if p.None? then queue else [p.value] + queue
      ensures delivered == if p.None? || Eapol(p.value) then old(delivered) else old(delivered) + [p.value]
    {
      hide Run;
      ThenRun(Init(), history, Dequeue);
      p := Unlink();
      if p.None? {
        draining := false;
      } else if !Eapol(p.value) {
        delivered := delivered + [p.value];
      }
      history := history + [Dequeue];
    }

    /** What the receive thread may do between two critical sections of the network thread:
        it finishes its check and queues these packets, each with its own check. */
    method Produce(ps: seq<Packet>)
      requires Valid()
      modifies this, repr
      ensures Valid() && fresh(repr - old(repr)) && draining == old(draining) && delivered == old(delivered)
      ensures queue == old(queue) + ps && arrived == old(arrived) + ps
    {
      hide *;
      for i := 0 to |ps|
        invariant Valid() && fresh(repr - old(repr)) && draining == old(draining) && delivered == old(delivered)
        invariant queue == old(queue) + ps[..i] && arrived == old(arrived) + ps[..i]
      {
        if toCheck {
          CheckQueue();
        }
        Accept(ps[i]);
        assert ps[..i + 1] == ps[..i] + [ps[i]];
      }
      assert ps[..|ps|] == ps;
    }

    /** rt_wlan_dev_rx, called by the draining thread, while packets arrive before each of
        its first turns: the first packet in arrival order that is not EAPOL, taken together
        with everything before it; None only if there is none. k is its place among the
        packets that were queued at the call or arrived during it. */
    method Rx(gaps: seq<seq<Packet>>) returns (p: Option<Packet>, ghost k: nat, ghost arrivals: seq<Packet>)
      requires Valid() && draining
      modifies this, repr
      ensures Valid() && fresh(repr - old(repr)) && draining == p.Some? && arrived == old(arrived) + arrivals
      ensures FirstData(old(queue) + arrivals, k, p, queue)
      ensures delivered == if p.None? then old(delivered) else old(delivered) + [p.value]
    {
      hide *;
      var turn: nat := 0;
      p, arrivals := Turn(gaps, turn);
      k := 0;
      FirstTurn(old(queue), arrivals, p, queue);
      while p.Some? && Eapol(p.value)
        invariant Valid() && fresh(repr - old(repr)) && draining == p.Some? && k == turn
        invariant arrived == old(arrived) + arrivals
        invariant Skipped(old(queue) + arrivals, k, p, queue)
        invariant delivered == if p.None? || Eapol(p.value) then old(delivered) else old(delivered) + [p.value]
        decreases if turn < |gaps| then |gaps| - turn else 0, |queue|, p.Some?
      {
        ghost var was, before, g := p, queue, [];
        p, g := Turn(gaps, turn + 1);
        NextTurn(old(queue), old(arrived), arrivals, k, was, before, g, p, queue);
        arrivals, turn, k := arrivals + g, turn + 1, k + 1;
      }
      SkippedMeans(old(queue) + arrivals, k, p, queue);
    }

    /** One turn of its loop, after the packets that arrive before it. */
    method Turn(gaps: seq<seq<Packet>>, turn: nat) returns (p: Option<Packet>, ghost g: seq<Packet>)
      requires Valid() && draining
      modifies this, repr
      ensures Valid() && fresh(repr - old(repr)) && draining == p.Some? && arrived == old(arrived) + g
      ensures turn >= |gaps| ==> g == []
      ensures old(queue) + g == Taken(p) + queue && |old(queue)| + |g| == |queue| + (if p.Some? then 1 else 0)
      ensures p.None? ==> queue == []
      ensures delivered == if p.None? || Eapol(p.value) then old(delivered) else old(delivered) + [p.value]
    {
      hide Run, Linked, Counted, Eapol;
      g := [];
      if turn < |gaps| {
        g := gaps[turn];
        Produce(gaps[turn]);
      }
      p := Take();
    }
  }

  /** Of all these packets the first k were EAPOL ones, p was taken next, if there was one,
      and the rest is queued. */
  predicate Skipped(all: seq<Packet>, k: nat, p: Option<Packet>, rest: seq<Packet>)
  {
    k <= |all| && all[k..] == Taken(p) + rest && (p.None? ==> rest == []) && forall i :: 0 <= i < k ==> Eapol(all[i])
  }

  function Taken(p: Option<Packet>): seq<Packet> { if p.None? then [] else [p.value] }

  lemma FirstTurn(q: seq<Packet>, g: seq<Packet>, p: Option<Packet>, rest: seq<Packet>)
    requires q + g == Taken(p) + rest && (p.None? ==> rest == [])
    ensures Skipped(q + g, 0, p, rest)
  {
  }

  lemma NextTurn(q: seq<Packet>, a: seq<Packet>, arrivals: seq<Packet>, k: nat, p: Option<Packet>, rest: seq<Packet>,
                 g: seq<Packet>, p': Option<Packet>, rest': seq<Packet>)
    requires Skipped(q + arrivals, k, p, rest) && p.Some? && Eapol(p.value)
    requires rest + g == Taken(p') + rest' && (p'.None? ==> rest' == [])
    ensures Skipped(q + (arrivals + g), k + 1, p', rest') && a + arrivals + g == a + (arrivals + g)
  {
    hide Eapol;
    var all := q + arrivals;
    DropOne(all, k, p.value, rest, g);
    assert q + (arrivals + g) == all + g;
    assert forall i :: 0 <= i < k ==> (all + g)[i] == all[i];
  }

  lemma DropOne(all: seq<Packet>, k: nat, p: Packet, rest: seq<Packet>, g: seq<Packet>)
    requires k <= |all| && all[k..] == [p] + rest
    ensures k < |all| && (all + g)[k] == p && (all + g)[k + 1..] == rest + g
  {
    HeadOf(all, k, p, rest);
    assert (all + g)[k + 1..] == all[k + 1..] + g;
  }

  /** p is the first of all these packets that is not EAPOL, at place k, and the rest is what
      follows it; without p they are all EAPOL and nothing is left. */
  predicate FirstData(all: seq<Packet>, k: nat, p: Option<Packet>, rest: seq<Packet>)
  {
    if p.None? then rest == [] && forall q :: q in all ==> Eapol(q)
    else !Eapol(p.value) && k < |all| && all[k] == p.value && rest == all[k + 1..] &&
         forall i :: 0 <= i < k ==> Eapol(all[i])
  }

  lemma SkippedMeans(all: seq<Packet>, k: nat, p: Option<Packet>, rest: seq<Packet>)
    requires Skipped(all, k, p, rest) && (p.Some? ==> !Eapol(p.value))
    ensures FirstData(all, k, p, rest)
  {
    hide Eapol;
    if p.Some? {
      HeadOf(all, k, p.value, rest);
    }
  }

  lemma HeadOf(q: seq<Packet>, k: nat, p: Packet, rest: seq<Packet>)
    requires k <= |q| && q[k..] == [p] + rest
    ensures k < |q| && q[k] == p && q[k + 1..] == rest
  {
    assert q[k..][0] == p && q[k..][1..] == rest;
  }
}
