/** DMA-mode serial transmission: a linked list of data nodes from a pool of four, extended
    by writing threads and shortened by the transmit-complete interrupt. */
module SerialTx {
  import opened Common

  const NODES: nat := 4               // UART_TX_DMA_NODE_SIZE

  datatype Buffer = Buffer(ptr: nat, size: nat)

  // ----- the queue the list stands for

  datatype State = State(
    linked: seq<Buffer>,      // buffers in the list, head first
    free: nat,                // nodes in the pool
    held: nat,                // nodes allocated by a thread and not linked yet
    dma: Option<Buffer>,      // what the DMA stream is programmed with while it runs
    written: seq<Buffer>,     // every buffer linked so far
    completed: seq<nat>)      // buffers reported complete

  datatype Event = Alloc | Link(b: Buffer) | Complete

  function Init(): State { State([], NODES, 0, None, [], []) }

  function Step(s: State, e: Event): State
  {
    match e
    case Alloc => if s.free > 0 then s.(free := s.free - 1, held := s.held + 1) else s
    case Link(b) =>
      if s.held == 0 then s
      else s.(linked := s.linked + [b], held := s.held - 1, written := s.written + [b],
              dma := if s.linked == [] then Some(b) else s.dma)
    case Complete =>
      if s.dma.None? || s.linked == [] then s
      else s.(linked := s.linked[1..], free := s.free + 1, completed := s.completed + [s.linked[0].ptr],
              dma := if |s.linked| > 1 then Some(s.linked[1]) else None)
  }

  function Run(s: State, es: seq<Event>): State
  {
    if es == [] then s else Step(Run(s, es[..|es| - 1]), es[|es| - 1])
  }

  lemma ThenRun(s: State, es: seq<Event>, e: Event)
    ensures Run(s, es + [e]) == Step(Run(s, es), e)
  {
    assert (es + [e])[..|es|] == es;
  }

  /** The DMA runs exactly while the list is nonempty, with the head's buffer. */
  predicate DmaFollowsHead(s: State)
  {
    s.dma == if s.linked == [] then None else Some(s.linked[0])
  }

  /** Completions come once each, in write order; the rest of the writes are in the list. */
  predicate CompletesInOrder(s: State)
  {
    |s.completed| <= |s.written| && s.linked == s.written[|s.completed|..] &&
    forall i :: 0 <= i < |s.completed| ==> s.completed[i] == s.written[i].ptr
  }

  predicate NodesConserved(s: State) { s.free + s.held + |s.linked| == NODES }

  predicate Inv(s: State) { DmaFollowsHead(s) && CompletesInOrder(s) && NodesConserved(s) }

  lemma StepKeepsInv(s: State, e: Event)
    requires Inv(s)
    ensures Inv(Step(s, e))
  {
  }

  /** In every interleaving of allocations, links and transmit-complete interrupts. */
  lemma {:induction false} EveryRunKeepsInv(es: seq<Event>)
    ensures var s := Run(Init(), es); DmaFollowsHead(s) && CompletesInOrder(s) && NodesConserved(s)
    ensures var s := Run(Init(), es); s.free + s.held + |s.linked| == 4
  {
    if es != [] {
      EveryRunKeepsInv(es[..|es| - 1]);
      StepKeepsInv(Run(Init(), es[..|es| - 1]), es[|es| - 1]);
    }
  }

  lemma DmaFollowsHeadAlways(es: seq<Event>)
    ensures DmaFollowsHead(Run(Init(), es))
  {
    EveryRunKeepsInv(es);
  }

  lemma ThenAlloc(es: seq<Event>)
    requires Run(Init(), es).free > 0
    ensures var s := Run(Init(), es); Run(Init(), es + [Alloc]) == s.(free := s.free - 1, held := s.held + 1)
  {
    ThenRun(Init(), es, Alloc);
  }

  lemma ThenLink(es: seq<Event>, b: Buffer)
    requires Run(Init(), es).held > 0
    ensures var s := Run(Init(), es);
            Run(Init(), es + [Link(b)])
            == State(s.linked + [b], s.free, s.held - 1, if s.linked == [] then Some(b) else s.dma,
                     s.written + [b], s.completed)
  {
    ThenRun(Init(), es, Link(b));
  }

  lemma ThenComplete(es: seq<Event>)
    requires Run(Init(), es).dma.Some?
    ensures var s := Run(Init(), es);
            s.linked != [] &&
            Run(Init(), es + [Complete])
            == State(s.linked[1..], s.free + 1, s.held, if |s.linked| > 1 then Some(s.linked[1]) else None,
                     s.written, s.completed + [s.linked[0].ptr])
  {
    DmaFollowsHeadAlways(es);
    ThenRun(Init(), es, Complete);
  }

  /** Nothing is stranded: while a buffer is linked the interrupt can happen, and as many
      interrupts as there are linked buffers complete everything written. */
  lemma {:induction false} InterruptsDrain(es: seq<Event>, k: nat)
    requires k <= |Run(Init(), es).linked|
    ensures var s, s' := Run(Init(), es), Run(Init(), es + seq(k, _ => Complete));
            s'.written == s.written && |s'.completed| == |s.completed| + k
  {
    if k == 0 {
      assert es + seq(k, _ => Complete) == es;
    } else {
      InterruptsDrain(es, k - 1);
      var fs := es + seq(k - 1, _ => Complete);
      assert es + seq(k, _ => Complete) == fs + [Complete];
      ThenRun(Init(), fs, Complete);
      EveryRunKeepsInv(fs);
      EveryRunKeepsInv(es);
    }
  }

  // ----- the list on the heap

  class Node {
    var dataPtr: nat
    var dataSize: nat
    var next: Node?
    var prev: Node?
  }

  /** Every block is in the list, in the pool, or held by a thread, and in one place only. */
  ghost predicate Separate(nodes: seq<Node>, free: set<Node>, held: set<Node>, blocks: set<Node>)
  {
    (forall i, j :: 0 <= i < j < |nodes| ==> nodes[i] != nodes[j]) &&
    (forall i :: 0 <= i < |nodes| ==> nodes[i] !in free && nodes[i] !in held && nodes[i] in blocks) &&
    free !! held && free <= blocks && held <= blocks
  }

  lemma AppendSeparate(nodes: seq<Node>, free: set<Node>, held: set<Node>, blocks: set<Node>, n: Node)
    requires Separate(nodes, free, held, blocks) && n in held
    ensures Separate(nodes + [n], free, held - {n}, blocks)
  {
  }

  lemma AllocSeparate(nodes: seq<Node>, free: set<Node>, held: set<Node>, blocks: set<Node>, n: Node)
    requires Separate(nodes, free, held, blocks) && n in free
    ensures Separate(nodes, free - {n}, held + {n}, blocks) && n !in held
  {
  }

  lemma RemoveSeparate(nodes: seq<Node>, free: set<Node>, held: set<Node>, blocks: set<Node>)
    requires Separate(nodes, free, held, blocks) && nodes != []
    ensures Separate(nodes[1..], free + {nodes[0]}, held, blocks)
  {
  }

  /** Next links lead from the first node to the last; previous links lead back to the first,
      whose own previous link is not maintained. The buffers are those of the nodes. */
  ghost predicate IsChain(nodes: seq<Node>, linked: seq<Buffer>)
    reads nodes
  {
    |linked| == |nodes| &&
    (forall i {:trigger nodes[i].next} :: 0 <= i < |nodes| ==>
      nodes[i].next == if i + 1 < |nodes| then nodes[i + 1] else null) &&
    (forall i {:trigger nodes[i].prev} :: 0 < i < |nodes| ==> nodes[i].prev == nodes[i - 1]) &&
    (forall i :: 0 <= i < |nodes| ==> linked[i] == Buffer(nodes[i].dataPtr, nodes[i].dataSize))
  }

  /** The links after an append, said about the nodes before it. */
  ghost predicate AppendedLinks(nodes: seq<Node>, n: Node)
    reads nodes, n
  {
    n.next == null && (nodes != [] ==> n.prev == nodes[|nodes| - 1]) &&
    (forall i {:trigger nodes[i].next} :: 0 <= i < |nodes| ==>
      nodes[i].next == if i + 1 < |nodes| then nodes[i + 1] else n) &&
    forall i {:trigger nodes[i].prev} :: 0 < i < |nodes| ==> nodes[i].prev == nodes[i - 1]
  }

  lemma AppendedIsChain(nodes: seq<Node>, linked: seq<Buffer>, n: Node)
    requires |linked| == |nodes| && AppendedLinks(nodes, n)
    requires forall i :: 0 <= i < |nodes| ==> linked[i] == Buffer(nodes[i].dataPtr, nodes[i].dataSize)
    ensures IsChain(nodes + [n], linked + [Buffer(n.dataPtr, n.dataSize)])
  {
    var s := nodes + [n];
    forall i | 0 <= i < |s|
      ensures s[i].next == (if i + 1 < |s| then s[i + 1] else null) && (i > 0 ==> s[i].prev == s[i - 1])
    {
      if i < |nodes| {
        assert s[i] == nodes[i] && s[i].next == nodes[i].next && s[i].prev == nodes[i].prev;
      }
    }
  }

  class Transmitter {
    var listHead: Node?
    var listTail: Node?
    var free: set<Node>               // the memory pool's free blocks
    var dma: Option<Buffer>
    ghost var blocks: set<Node>       // every block of the pool, in use or not
    ghost var held: set<Node>
    ghost var nodes: seq<Node>        // the linked nodes, head first
    ghost var linked: seq<Buffer>     // their buffers
    ghost var written: seq<Buffer>
    ghost var completed: seq<nat>
    ghost var history: seq<Event>

    ghost function Abs(): State
      reads this
    {
      State(linked, |free|, |held|, dma, written, completed)
    }

    /** The list object holds the ends of the chain. */
    ghost predicate WellLinked()
      reads `listHead, `listTail, `nodes, `linked, `blocks, blocks
    {
      (forall i :: 0 <= i < |nodes| ==> nodes[i] in blocks) && IsChain(nodes, linked) &&
      listHead == (if nodes == [] then null else nodes[0]) &&
      listTail == (if nodes == [] then null else nodes[|nodes| - 1])
    }

    ghost predicate Valid()
      reads this, blocks
    {
      WellLinked() && Separate(nodes, free, held, blocks) && Abs() == Run(Init(), history)
    }

    /** rt_serial_init: an empty list and a pool of four blocks. */
    constructor ()
      ensures Valid() && fresh(blocks) && history == []
    {
      listHead, listTail, dma := null, null, None;
      held, nodes, linked, written, completed, history := {}, [], [], [], [], [];
      free, blocks := {}, {};
      new;
      var i := 0;
      while i < NODES
        invariant |free| == i <= NODES && fresh(free) && blocks == free
        invariant listHead == null && listTail == null && dma == None
        invariant held == {} && nodes == [] && linked == [] && written == [] && completed == [] && history == []
      {
        var n := new Node;
        assert n !in free;
        free, blocks := free + {n}, blocks + {n};
        i := i + 1;
      }
    }

    /** rt_mp_alloc: a free block, or null where the thread would be suspended. */
    method AllocNode() returns (n: Node?)
      requires Valid()
      modifies this
      ensures Valid() && blocks == old(blocks) && (n == null <==> old(free) == {})
      ensures n != null ==> n in held && n in old(free) && history == old(history) + [Alloc] && nodes == old(nodes)
      ensures n == null ==> history == old(history) && nodes == old(nodes)
      ensures written == old(written) && completed == old(completed) && linked == old(linked)
    {
      hide Run, Step, WellLinked;
      if free == {} {
        return null;
      }
      ThenAlloc(history);
      var m :| m in free;
      AllocSeparate(nodes, free, held, blocks, m);
      hide Separate;
      free := free - {m};
      held, history := held + {m}, history + [Alloc];
      n := m;
    }

    /** A held block is one of the pool's and not in the list. */
    lemma InPlace(n: Node)
      requires WellLinked() && Separate(nodes, free, held, blocks) && n in held
      ensures n in blocks && n !in nodes && (forall i, j :: 0 <= i < j < |nodes| ==> nodes[i] != nodes[j])
      ensures forall x :: x in nodes ==> x in blocks
    {
    }

    lemma HeadIsFirst()
      requires WellLinked()
      ensures |linked| == |nodes| && (listHead == null <==> linked == [])
      ensures listHead != null ==> Buffer(listHead.dataPtr, listHead.dataSize) == linked[0]
    {
    }

    /** Fill the node and link it behind the tail. */
    method LinkTail(n: Node, ptr: nat, size: nat)
      requires WellLinked() && n !in nodes
      requires forall i, j :: 0 <= i < j < |nodes| ==> nodes[i] != nodes[j]
      modifies nodes, n
      ensures IsChain(nodes + [n], linked + [Buffer(ptr, size)])
    {
      n.dataPtr, n.dataSize := ptr, size;
      n.next := null;
      n.prev := listTail;
      if listTail != null {
        listTail.next := n;
      }
      AppendedIsChain(nodes, linked, n);
    }

    /** Append the filled node; on an empty list start the DMA. */
    method Append(n: Node, ptr: nat, size: nat)
      requires WellLinked() && n in blocks && n !in nodes
      requires forall i, j :: 0 <= i < j < |nodes| ==> nodes[i] != nodes[j]
      modifies this`listHead, this`listTail, this`dma, this`nodes, this`linked, nodes, n
      ensures WellLinked() && nodes == old(nodes) + [n]
      ensures linked == old(linked) + [Buffer(ptr, size)]
      ensures dma == if old(linked) == [] then Some(linked[0]) else old(dma)
    {
      LinkTail(n, ptr, size);
      listTail := n;
      if listHead == null {
        listHead := n;
        dma := Some(Buffer(listHead.dataPtr, listHead.dataSize));
      }
      nodes, linked := nodes + [n], linked + [Buffer(ptr, size)];
    }

    /** The rest of rt_serial_write in DMA mode: fill the node, then, with interrupts
        disabled, append it and start the DMA if the list was empty. */
    method LinkNode(n: Node, ptr: nat, size: nat)
      requires Valid() && n in held
      modifies this, blocks
      ensures Valid() && blocks == old(blocks) && nodes == old(nodes) + [n]
      ensures history == old(history) + [Link(Buffer(ptr, size))]
      ensures written == old(written) + [Buffer(ptr, size)]
    {
      hide Run, Step, WellLinked, Separate;
      ThenLink(history, Buffer(ptr, size));
      InPlace(n);
      AppendSeparate(nodes, free, held, blocks, n);
      Append(n, ptr, size);
      held, written := held - {n}, written + [Buffer(ptr, size)];
      history := history + [Link(Buffer(ptr, size))];
    }

    /** Unlink the head and release its block. */
    method RemoveHead()
      requires WellLinked() && Separate(nodes, free, held, blocks) && nodes != []
      modifies this`listHead, this`listTail, this`nodes, this`linked, this`free
      ensures WellLinked() && Separate(nodes, free, held, blocks)
      ensures nodes == old(nodes)[1..] && linked == old(linked)[1..]
      ensures free == old(free) + {old(nodes)[0]} && |free| == |old(free)| + 1
    {
      RemoveSeparate(nodes, free, held, blocks);
      var dataNode := listHead;
      listHead := dataNode.next;
      if listHead == null {
        listTail := null;
      }
      nodes, linked := nodes[1..], linked[1..];
      free := free + {dataNode};
    }

    /** rt_hw_serial_dma_tx_isr, when the running DMA finished: its assertion that the list
        is nonempty holds. Returns the completion it reports. */
    method DmaTxIsr() returns (done: nat)
      requires Valid() && dma.Some?
      modifies this
      ensures Valid() && blocks == old(blocks) && history == old(history) + [Complete]
      ensures old(linked) != [] && linked == old(linked)[1..] && done == old(linked)[0].ptr
      ensures completed == old(completed) + [done] && held == old(held) && written == old(written)
    {
      hide Run, Step, WellLinked, Separate;
      ThenComplete(history);
      HeadIsFirst();
      done := listHead.dataPtr;
      RemoveHead();
      HeadIsFirst();
      if listHead != null {
        dma := Some(Buffer(listHead.dataPtr, listHead.dataSize));
      } else {
        dma := None;
      }
      completed, history := completed + [done], history + [Complete];
    }

    /** So many transmit-complete interrupts, as far as the DMA has something to complete. */
    method Interrupts(count: nat)
      requires Valid()
      modifies this
      ensures Valid() && blocks == old(blocks) && held == old(held) && written == old(written)
    {
      hide Run, Step;
      for i := 0 to count
        invariant Valid() && blocks == old(blocks) && held == old(held) && written == old(written)
      {
        if dma.Some? {
          var _ := DmaTxIsr();
        }
      }
    }

    /** rt_serial_write in DMA mode; ok is false where the thread waits for a node. Between
        the allocation and the critical section that many interrupts may complete transfers.
        The count it returns is 0 either way, because the pointer it subtracts never moved. */
    method Write(ptr: nat, size: nat, interrupts: nat) returns (count: nat, ok: bool)
      requires Valid()
      modifies this, blocks
      ensures Valid() && blocks == old(blocks) && count == 0 && (ok <==> old(free) != {})
      ensures written == if ok then old(written) + [Buffer(ptr, size)] else old(written)
    {
      hide Run;
      var cursor := ptr;
      var n := AllocNode();
      ok := n != null;
      if n != null {
        Interrupts(interrupts);
        LinkNode(n, ptr, size);
      }
      count := cursor - ptr;
    }
  }
}
