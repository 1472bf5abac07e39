/** The descriptor tables as the initialisation loops write them, and the two ways in
    which the receive path finds the next descriptor. Addresses are 32-bit numbers. */
module EthDesc {
  import opened Common

  const WORD: nat := 0x1_0000_0000
  const DESC_SIZE: nat := 16
  const PACKET_SIZE: nat := ETH_MAX_PACKET_SIZE

  /** chained is RCH (or TCH), endOfRing is RER; second is Buffer2NextDescAddr. */
  datatype Descriptor = Descriptor(own: bool, chained: bool, endOfRing: bool, first: nat, second: nat)

  function Address(table: nat, i: nat): nat { table + i * DESC_SIZE }

  /** The table and the buffers lie inside the address space. */
  predicate Fits(table: nat, buffers: nat, count: nat)
  {
    table + count * DESC_SIZE <= WORD && buffers + count * PACKET_SIZE <= WORD
  }

  function ChainEntry(table: nat, buffers: nat, count: nat, own: bool, i: nat): Descriptor
  {
    Descriptor(own, true, false, buffers + i * PACKET_SIZE, if i + 1 < count then Address(table, i + 1) else table)
  }

  function RingEntry(buffers1: nat, buffers2: nat, count: nat, i: nat): Descriptor
  {
    Descriptor(true, false, i + 1 == count, buffers1 + i * PACKET_SIZE, buffers2 + i * PACKET_SIZE)
  }

  /** ETH_DMATxDescChainInit (own false) and ETH_DMARxDescChainInit (own true). The loop
      compares with the 32-bit difference count - 1; with no descriptor it does not run. */
  method ChainInit(tab: array<Descriptor>, table: nat, buffers: nat, own: bool)
    requires Fits(table, buffers, tab.Length)
    modifies tab
    ensures forall i :: 0 <= i < tab.Length ==> tab[i] == ChainEntry(table, buffers, tab.Length, own, i)
  {
    var count := tab.Length;
    for i := 0 to count
      invariant forall j :: 0 <= j < i ==> tab[j] == ChainEntry(table, buffers, count, own, j)
    {
      tab[i] := Descriptor(own, true, false, (buffers + i * PACKET_SIZE) % WORD, 0);
      if i < (count - 1) % WORD {
        tab[i] := tab[i].(second := table + (i + 1) * DESC_SIZE);
      } else {
        tab[i] := tab[i].(second := table);
      }
    }
  }

  /** ETH_DMARxDescRingInit. */
  method RingInit(tab: array<Descriptor>, buffers1: nat, buffers2: nat)
    requires buffers1 + tab.Length * PACKET_SIZE <= WORD && buffers2 + tab.Length * PACKET_SIZE <= WORD
    modifies tab
    ensures forall i :: 0 <= i < tab.Length ==> tab[i] == RingEntry(buffers1, buffers2, tab.Length, i)
  {
    var count := tab.Length;
    for i := 0 to count
      invariant forall j :: 0 <= j < i ==> tab[j] == RingEntry(buffers1, buffers2, count, j)
    {
      tab[i] := Descriptor(true, false, false,
                           (buffers1 + i * PACKET_SIZE) % WORD, (buffers2 + i * PACKET_SIZE) % WORD);
      if i == (count - 1) % WORD {
        tab[i] := tab[i].(endOfRing := true);
      }
    }
  }

  /** The DSL field of DMABMR, bits 2 to 6, shifted down: a number of words. */
  function SkipLength(dmabmr: nat): (r: nat)
    ensures r < 32
  {
    dmabmr / 4 % 32
  }

  /** How the receive path finds the next descriptor (chain and ring branch). */
  function CpuNext(x: Descriptor, at: nat, listAddress: nat, dmabmr: nat): nat
  {
    if x.chained then x.second
    else if x.endOfRing then listAddress
    else (at + 0x10 + SkipLength(dmabmr)) % WORD
  }

  /** Where the engine goes from a ring descriptor: it skips that many words, not bytes. */
  function EngineNext(x: Descriptor, at: nat, listAddress: nat, dmabmr: nat): nat
  {
    if x.chained then x.second
    else if x.endOfRing then listAddress
    else (at + DESC_SIZE + 4 * SkipLength(dmabmr)) % WORD
  }

  /** Chain mode visits the table in order and wraps around. */
  lemma ChainVisitsTable(table: nat, buffers: nat, count: nat, own: bool, i: nat, dmabmr: nat)
    requires i < count
    ensures CpuNext(ChainEntry(table, buffers, count, own, i), Address(table, i), table, dmabmr)
            == Address(table, Wrap(i + 1, count))
  {
  }

  /** The table index that an address stands for. */
  function Index(table: nat, address: nat): nat
  {
    if address < table then 0 else (address - table) / DESC_SIZE
  }

  /** What the chain initialisation leaves is the cycle of table indices. */
  lemma ChainIsCycle(table: nat, buffers: nat, count: nat, own: bool, i: nat)
    requires i < count
    ensures var x := ChainEntry(table, buffers, count, own, i);
            x.own == own && Index(table, x.second) == Wrap(i + 1, count)
  {
    if i + 1 < count {
      assert Address(table, i + 1) - table == (i + 1) * DESC_SIZE;
    }
  }

  /** Every descriptor has a packet buffer of its own inside the buffer area. */
  lemma ChainBuffersAreApart(table: nat, buffers: nat, count: nat, own: bool, i: nat, j: nat)
    requires i < j < count
    ensures var x, y := ChainEntry(table, buffers, count, own, i), ChainEntry(table, buffers, count, own, j);
            buffers <= x.first && x.first + 1520 <= y.first && y.first + 1520 <= buffers + count * 1520
  {
  }

  lemma RingBuffersAreApart(buffers1: nat, buffers2: nat, count: nat, i: nat, j: nat)
    requires i < j < count
    ensures var x, y := RingEntry(buffers1, buffers2, count, i), RingEntry(buffers1, buffers2, count, j);
            buffers1 <= x.first && x.first + 1520 <= y.first && y.first + 1520 <= buffers1 + count * 1520 &&
            buffers2 <= x.second && x.second + 1520 <= y.second && y.second + 1520 <= buffers2 + count * 1520
  {
  }

  /** The skip length is the field of five bits above the two lowest. */
  lemma SkipLengthIsField(above: nat, dsl: nat, below: nat)
    requires dsl < 32 && below < 4
    ensures SkipLength(128 * above + 4 * dsl + below) == dsl
  {
    assert (128 * above + 4 * dsl + below) / 4 == 32 * above + dsl;
  }

  /** Ring mode finds the same successor exactly with a skip length of 0, or at the end
      of the ring. */
  lemma RingVisitsTable(table: nat, buffers1: nat, buffers2: nat, count: nat, i: nat, dmabmr: nat)
    requires i < count && Fits(table, buffers1, count)
    ensures CpuNext(RingEntry(buffers1, buffers2, count, i), Address(table, i), table, dmabmr)
            == Address(table, Wrap(i + 1, count))
            <==> SkipLength(dmabmr) == 0 || i + 1 == count
  {
    if i + 1 < count {
      var skip := SkipLength(dmabmr);
      var next := Address(table, i + 1);
      assert next == Address(table, i) + DESC_SIZE && next < WORD;
      if next + skip < WORD {
        assert (next + skip) % WORD == next + skip;
      } else {
        assert (next + skip) % WORD == next + skip - WORD;
      }
    }
  }

  /** The thread follows the engine exactly with a skip length of 0, or at the end of the ring. */
  lemma RingFollowsEngine(table: nat, buffers1: nat, buffers2: nat, count: nat, i: nat, dmabmr: nat)
    requires i < count && Fits(table, buffers1, count)
    ensures var x := RingEntry(buffers1, buffers2, count, i);
            CpuNext(x, Address(table, i), table, dmabmr) == EngineNext(x, Address(table, i), table, dmabmr)
            <==> SkipLength(dmabmr) == 0 || i + 1 == count
  {
    if i + 1 < count {
      var skip := SkipLength(dmabmr);
      var next := Address(table, i + 1);
      assert next == Address(table, i) + DESC_SIZE && next < WORD;
      Residues(next + skip, next + 4 * skip);
    }
  }

  lemma Residues(a: nat, b: nat)
    requires a <= b < a + WORD
    ensures a % WORD == b % WORD <==> a == b
  {
    if a % WORD == b % WORD {
      assert b - a == WORD * (b / WORD - a / WORD);
    }
  }
}
