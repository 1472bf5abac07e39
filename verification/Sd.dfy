/** Reading and writing sectors of an SD card through an aligned buffer in one operation,
    or through a bounce buffer sector by sector. Addresses are 32-bit byte addresses, which
    the low-level functions scale for cards that count in blocks. */
module Sd {
  import opened Common

  const SECTOR_SIZE: nat := 512
  const WORD: nat := 0x1_0000_0000
  const TURN: nat := 0x80_0000        // sectors in 4 GB

  type Sector = s: seq<byte> | |s| == SECTOR_SIZE witness seq(SECTOR_SIZE, _ => 0)

  /** What goes into the command register, and which sector the card takes it for. */
  function Argument(highCapacity: bool, address: nat): nat
  {
    if highCapacity then address / 512 else address
  }

  function CardSector(highCapacity: bool, argument: nat): nat
  {
    if highCapacity then argument else argument / 512
  }

  /** Both kinds of card end up at the same sector. */
  lemma SameSectorOnBothCards(highCapacity: bool, address: nat)
    ensures CardSector(highCapacity, Argument(highCapacity, address)) == address / SECTOR_SIZE
  {
  }

  /** The i-th sector of a transfer through the bounce buffer, and of one operation. */
  function BouncedSector(pos: nat, i: nat): nat { (pos + i) % TURN }

  function DirectSector(pos: nat, i: nat): nat { pos % TURN + i }

  /** The two ways transfer the same sectors exactly while the wrapped start and the size
      stay within 4 GB, */
  lemma PathsAgreeIff(pos: nat, size: nat)
    requires size >= 1
    ensures (forall i :: 0 <= i < size ==> BouncedSector(pos, i) == DirectSector(pos, i))
            <==> pos % TURN + size <= TURN
  {
    forall i: nat | i < size && pos % TURN + i < TURN
      ensures BouncedSector(pos, i) == DirectSector(pos, i)
    {
      SmallSum(pos, i);
    }
    if pos % TURN + size > TURN {
      var i := TURN - pos % TURN;
      assert BouncedSector(pos, i) < TURN == DirectSector(pos, i);
    }
  }

  lemma SmallSum(pos: nat, i: nat)
    requires pos % TURN + i < TURN
    ensures (pos + i) % TURN == pos % TURN + i
  {
    assert pos + i == TURN * (pos / TURN) + (pos % TURN + i);
  }

  /** and they are the requested ones exactly while the transfer ends within 4 GB. */
  lemma PathsAreRightIff(pos: nat, size: nat)
    requires size >= 1
    ensures (forall i :: 0 <= i < size ==> BouncedSector(pos, i) == pos + i) <==> pos + size <= TURN
    ensures (forall i :: 0 <= i < size ==> DirectSector(pos, i) == pos + i) <==> pos < TURN
  {
    if pos + size > TURN {
      assert BouncedSector(pos, size - 1) < TURN <= pos + (size - 1);
    }
    assert DirectSector(pos, 0) == pos % TURN;
  }

  /** Block i of the data that starts at index at of a buffer. */
  function Block(s: seq<byte>, at: nat, i: nat): Sector
    requires at + (i + 1) * SECTOR_SIZE <= |s|
  {
    s[at + i * SECTOR_SIZE..at + (i + 1) * SECTOR_SIZE]
  }

  // ----- one operation: the commands that start a transfer, and the wait for its end

  datatype Status = Ok | CommandError | DataError | Timeout

  /** What becomes of an operation on a sector that the card has: a transfer that is
      supervised; a rejected command; or a transfer that ends short without a recorded error.
      A write that runs out of data is silent, because its interrupt is not enabled, and so is
      any transfer that the first wait loop gives up on or leaves early, on a flag that an
      earlier operation left behind. */
  datatype Answer = Accepted | Rejected | Silent

  /** What the hardware does during a wait: a transfer that was started fails before the
      error flag is tested, having stored only so many sectors or left noise in memory; the
      activity flag outlives the second wait loop; the stop command is answered with an error. */
  datatype Wait = Wait(failed: bool, moved: nat, noise: nat -> byte, stuck: bool, stopRejected: bool)

  function Smooth(): Wait { Wait(false, 0, (k: nat) => 0, false, false) }

  /** A data phase follows the commands: the card accepts them and has the first sector. */
  predicate Starts(first: nat, total: nat, a: Answer) { !a.Rejected? && first < total }

  /** All n sectors are transferred. */
  predicate Completes(first: nat, n: nat, total: nat, a: Answer, w: Wait)
  {
    Starts(first, total, a) && !a.Silent? && !w.failed && first + n <= total
  }

  /** What the wait returns is success: no error of a started transfer was recorded, no flag
      was stuck, and the stop command, which ends only transfers of several sectors, was
      accepted. */
  predicate Reported(first: nat, n: nat, total: nat, several: bool, a: Answer, w: Wait)
  {
    (Starts(first, total, a) ==> a.Silent? || Completes(first, n, total, a, w)) && !w.stuck &&
    (several ==> !w.stopRejected)
  }

  /** How many sectors a write of n sectors stores. */
  function Moved(first: nat, n: nat, total: nat, a: Answer, w: Wait): (m: nat)
    ensures m <= n && (m > 0 ==> first + m <= total)
    ensures n > 0 && a.Silent? ==> m < n
  {
    if !Starts(first, total, a) then 0
    else if Completes(first, n, total, a, w) then n
    else Min(w.moved, Min(if a.Silent? && n > 0 then n - 1 else n, total - first))
  }

  /** n sectors from pos on hold the data, in order, and no other sector changed. */
  predicate Transferred(was: seq<Sector>, now: seq<Sector>, pos: nat, data: seq<byte>, at: nat, n: nat)
    requires at + n * SECTOR_SIZE <= |data|
  {
    |now| == |was| &&
    forall s :: 0 <= s < |was| ==> now[s] == if pos <= s < pos + n then Block(data, at, s - pos) else was[s]
  }

  class Card {
    const highCapacity: bool
    var sectors: seq<Sector>
    var transferError: Status
    var stopCondition: bool
    var transfer: Option<(nat, nat)>  // the data phase under way: first sector, number of sectors

    constructor (highCapacity: bool, sectors: seq<Sector>)
      ensures this.highCapacity == highCapacity && this.sectors == sectors && transfer == None
    {
      this.highCapacity, this.sectors := highCapacity, sectors;
      transferError, stopCondition, transfer := Ok, false, None;
    }

    ghost predicate InCard()
      reads this
    {
      transfer.Some? ==> transfer.value.0 < |sectors|
    }

    /** SD_ReadBlock, SD_WriteBlock, and with several SD_ReadMultiBlocks, SD_WriteMultiBlocks. */
    method Start(address: nat, n: nat, several: bool, a: Answer) returns (status: Status)
      modifies `transferError, `stopCondition, `transfer
      ensures status == (if Starts(address / SECTOR_SIZE, |sectors|, a) then Ok else CommandError)
      ensures transfer == if status.Ok? then Some((address / SECTOR_SIZE, n)) else None
      ensures InCard() && transferError == Ok && stopCondition == several
    {
      transferError, stopCondition, transfer := Ok, several, None;
      SameSectorOnBothCards(highCapacity, address);
      var first := CardSector(highCapacity, Argument(highCapacity, address));
      if a.Rejected? || first >= |sectors| {
        return CommandError;
      }
      transfer := Some((first, n));
      status := Ok;
    }

    /** The end of both wait functions, after the transfer. */
    method Conclude(w: Wait) returns (status: Status)
      ensures status.Ok? <==> transferError.Ok? && !w.stuck && (stopCondition ==> !w.stopRejected)
    {
      status := Ok;
      if stopCondition && w.stopRejected {
        status := CommandError;
      }
      if w.stuck && status.Ok? {
        status := Timeout;
      }
      if !transferError.Ok? {
        status := transferError;
      }
    }

    /** SD_WaitReadOperation, with the transfer into buf that it waits for. */
    method WaitRead(buf: array<byte>, at: nat, a: Answer, w: Wait) returns (status: Status)
      requires InCard() && transferError.Ok? && (transfer.Some? ==> !a.Rejected?)
      requires transfer.Some? ==> at + transfer.value.1 * SECTOR_SIZE <= buf.Length
      modifies `transferError, `transfer, buf
      ensures old(transfer).None? ==> buf[..] == old(buf[..])
      ensures old(transfer).None? ==> (status.Ok? <==> !w.stuck && (stopCondition ==> !w.stopRejected))
      ensures old(transfer).Some? ==>
                var first, n := old(transfer).value.0, old(transfer).value.1;
                (status.Ok? <==> Reported(first, n, |sectors|, stopCondition, a, w)) &&
                (Completes(first, n, |sectors|, a, w) ==> Filled(buf[..], at, n, sectors, first)) &&
                SameOutside(old(buf[..]), buf[..], at, n * SECTOR_SIZE)
    {
      if transfer.Some? {
        var first, n := transfer.value.0, transfer.value.1;
        if a.Silent? || w.failed || first + n > |sectors| {
          transferError := if a.Silent? then Ok else DataError;
          forall k | at <= k < at + n * SECTOR_SIZE {
            buf[k] := w.noise(k);
          }
        } else {
          forall k | at <= k < at + n * SECTOR_SIZE {
            buf[k] := sectors[first + (k - at) / SECTOR_SIZE][(k - at) % SECTOR_SIZE];
          }
          forall i {:trigger Block(buf[..], at, i)} | 0 <= i < n
            ensures Block(buf[..], at, i) == sectors[first + i]
          {
            BlockIs(buf[..], at, i, sectors[first + i]);
          }
        }
        transfer := None;
      }
      status := Conclude(w);
    }

    /** The data phase of a write, as far as it comes. */
    method Store(first: nat, m: nat, buf: array<byte>, at: nat)
      requires first + m <= |sectors| && at + m * SECTOR_SIZE <= buf.Length
      modifies `sectors
      ensures Transferred(old(sectors), sectors, first, buf[..], at, m)
    {
      hide Transferred, Block;
      NothingTransferred(sectors, first, buf[..], at);
      for i := 0 to m
        invariant |sectors| == |old(sectors)|
        invariant Transferred(old(sectors), sectors, first, buf[..], at, i)
      {
        OneMore(old(sectors), sectors, first, buf[..], at, i + 1);
        sectors := sectors[first + i := Block(buf[..], at, i)];
      }
    }

    /** SD_WaitWriteOperation, with the transfer from buf that it waits for. */
    method WaitWrite(buf: array<byte>, at: nat, a: Answer, w: Wait) returns (status: Status)
      requires InCard() && transferError.Ok? && (transfer.Some? ==> !a.Rejected?)
      requires transfer.Some? ==> at + transfer.value.1 * SECTOR_SIZE <= buf.Length
      modifies this
      ensures stopCondition == old(stopCondition)
      ensures old(transfer).None? ==> sectors == old(sectors)
      ensures old(transfer).None? ==> (status.Ok? <==> !w.stuck && (stopCondition ==> !w.stopRejected))
      ensures old(transfer).Some? ==>
                var first, n := old(transfer).value.0, old(transfer).value.1;
                var m := Moved(first, n, |old(sectors)|, a, w);
                (status.Ok? <==> Reported(first, n, |old(sectors)|, stopCondition, a, w)) &&
                Transferred(old(sectors), sectors, first, buf[..], at, m)
    {
      hide Transferred;
      if transfer.Some? {
        var first, n := transfer.value.0, transfer.value.1;
        var m := n;
        if a.Silent? || w.failed || first + n > |sectors| {
          transferError := if a.Silent? then Ok else DataError;
          m := Min(w.moved, Min(if a.Silent? && n > 0 then n - 1 else n, |sectors| - first));
        }
        Store(first, m, buf, at);
        transfer := None;
      }
      status := Conclude(w);
    }
  }

  /** n blocks from index at on are the sectors from first on. */
  predicate Filled(s: seq<byte>, at: nat, n: nat, sectors: seq<Sector>, first: nat)
    requires at + n * SECTOR_SIZE <= |s| && first + n <= |sectors|
  {
    forall i {:trigger Block(s, at, i)} :: 0 <= i < n ==> Block(s, at, i) == sectors[first + i]
  }

  /** Byte for byte. */
  lemma TransferredBytes(was: seq<Sector>, now: seq<Sector>, pos: nat, data: seq<byte>, at: nat, n: nat, i: nat, j: nat)
    requires at + n * SECTOR_SIZE <= |data| && pos + n <= |was| && i < n && j < 512
    requires Transferred(was, now, pos, data, at, n)
    ensures at + 512 * i + j < |data| && now[pos + i][j] == data[at + 512 * i + j]
  {
    assert (i + 1) * SECTOR_SIZE <= n * SECTOR_SIZE;
    assert now[pos + i] == Block(data, at, i);
  }

  lemma FilledBytes(s: seq<byte>, at: nat, n: nat, sectors: seq<Sector>, first: nat, i: nat, j: nat)
    requires at + n * SECTOR_SIZE <= |s| && first + n <= |sectors| && i < n && j < 512
    requires Filled(s, at, n, sectors, first)
    ensures at + 512 * i + j < |s| && s[at + 512 * i + j] == sectors[first + i][j]
  {
    assert (i + 1) * SECTOR_SIZE <= n * SECTOR_SIZE;
    assert Block(s, at, i) == sectors[first + i];
  }

  /** What is read from sectors that were written is what was written to them. */
  lemma ReadBackIsWritten(was: seq<Sector>, now: seq<Sector>, pos: nat, data: seq<byte>, at: nat, n: nat,
                          back: seq<byte>, to: nat)
    requires at + n * SECTOR_SIZE <= |data| && to + n * SECTOR_SIZE <= |back| && pos + n <= |was|
    requires Transferred(was, now, pos, data, at, n) && pos + n <= |now| && Filled(back, to, n, now, pos)
    ensures back[to..to + 512 * n] == data[at..at + 512 * n]
  {
    hide Transferred, Filled;
    var x, y := back[to..to + 512 * n], data[at..at + 512 * n];
    forall k | 0 <= k < |x|
      ensures x[k] == y[k]
    {
      assert k == 512 * (k / 512) + k % 512;
      TransferredBytes(was, now, pos, data, at, n, k / 512, k % 512);
      SizesAgree(was, now, pos, data, at, n);
      FilledBytes(back, to, n, now, pos, k / 512, k % 512);
    }
  }

  lemma SizesAgree(was: seq<Sector>, now: seq<Sector>, pos: nat, data: seq<byte>, at: nat, n: nat)
    requires at + n * SECTOR_SIZE <= |data| && Transferred(was, now, pos, data, at, n)
    ensures |now| == |was|
  {
  }

  predicate SameOutside(was: seq<byte>, now: seq<byte>, at: nat, n: nat)
  {
    |was| == |now| && forall k :: 0 <= k < |was| && (k < at || at + n <= k) ==> now[k] == was[k]
  }

  lemma BlockIs(s: seq<byte>, at: nat, i: nat, x: Sector)
    requires at + (i + 1) * SECTOR_SIZE <= |s|
    requires forall k :: at + i * SECTOR_SIZE <= k < at + (i + 1) * SECTOR_SIZE ==> s[k] == x[(k - at) % SECTOR_SIZE]
    ensures Block(s, at, i) == x
  {
    var b := Block(s, at, i);
    forall j | 0 <= j < SECTOR_SIZE
      ensures b[j] == x[j]
    {
      assert b[j] == s[at + i * SECTOR_SIZE + j];
      assert (i * SECTOR_SIZE + j) % SECTOR_SIZE == j;
    }
  }

  lemma NothingTransferred(sectors: seq<Sector>, pos: nat, data: seq<byte>, at: nat)
    requires at <= |data|
    ensures Transferred(sectors, sectors, pos, data, at, 0)
  {
  }

  lemma InsideTurn(pos: nat, i: nat)
    requires pos + i < TURN
    ensures BouncedSector(pos, i) == pos + i
  {
  }

  lemma OneMore(was: seq<Sector>, now: seq<Sector>, pos: nat, data: seq<byte>, at: nat, n: nat)
    requires n > 0 && at + n * SECTOR_SIZE <= |data| && pos + n <= |was|
    requires Transferred(was, now, pos, data, at, n - 1)
    ensures Transferred(was, now[pos + n - 1 := Block(data, at, n - 1)], pos, data, at, n)
  {
    hide Block;
  }

  /** The byte address of the next sector, with the 32-bit addition. */
  lemma NextAddress(address: nat, pos: nat, i: nat)
    requires address < WORD && address % SECTOR_SIZE == 0 && address / SECTOR_SIZE == BouncedSector(pos, i)
    ensures var next := (address + SECTOR_SIZE) % WORD;
            next % SECTOR_SIZE == 0 && next / SECTOR_SIZE == BouncedSector(pos, i + 1)
  {
    var q := address / SECTOR_SIZE;
    assert address + SECTOR_SIZE == SECTOR_SIZE * (q + 1);
    if q + 1 < TURN {
      assert (address + SECTOR_SIZE) % WORD == address + SECTOR_SIZE;
    } else {
      assert address + SECTOR_SIZE == WORD;
    }
    NextResidue(pos + i);
  }

  lemma NextResidue(x: nat)
    ensures (x + 1) % TURN == if x % TURN + 1 < TURN then x % TURN + 1 else 0
  {
    var q := x / TURN;
    assert x + 1 == TURN * q + (x % TURN + 1);
    if x % TURN + 1 == TURN {
      assert x + 1 == TURN * (q + 1);
    }
  }

  lemma FirstAddress(pos: nat)
    ensures var a := pos * SECTOR_SIZE % WORD; a % SECTOR_SIZE == 0 && a / SECTOR_SIZE == pos % TURN
  {
    var q, r := pos / TURN, pos % TURN;
    assert pos * SECTOR_SIZE == WORD * q + r * SECTOR_SIZE;
    assert pos * SECTOR_SIZE % WORD == r * SECTOR_SIZE;
  }


  // ----- the block device

  /** The i-th sector that a call reaches. */
  function SectorOf(aligned: bool, pos: nat, i: nat): nat
  {
    if aligned then DirectSector(pos, i) else BouncedSector(pos, i)
  }

  /** Inside 4 GB nothing wraps. */
  lemma InRange(aligned: bool, pos: nat, size: nat)
    requires pos + size <= TURN
    ensures forall i :: 0 <= i < size ==> SectorOf(aligned, pos, i) == pos + i
  {
  }

  /** A call returns its size: the status of its last operation, after the wait, is Ok.
      An aligned call has one operation, another one for each sector. */
  predicate Succeeds(aligned: bool, pos: nat, size: nat, total: nat, answers: nat -> Answer, waits: nat -> Wait)
    requires size >= 1
  {
    if aligned then Reported(DirectSector(pos, 0), size, total, size != 1, answers(0), waits(0))
    else Reported(BouncedSector(pos, size - 1), 1, total, false, answers(size - 1), waits(size - 1))
  }

  /** Every sector of the call is transferred. */
  predicate AllTransferred(aligned: bool, pos: nat, size: nat, total: nat, answers: nat -> Answer, waits: nat -> Wait)
  {
    if aligned then Completes(DirectSector(pos, 0), size, total, answers(0), waits(0))
    else forall i :: 0 <= i < size ==> Completes(BouncedSector(pos, i), 1, total, answers(i), waits(i))
  }

  /** A call fails exactly if during its last operation a flag is stuck, the stop command is
      refused, or the error of an accepted transfer on the card is recorded. */
  lemma FailsIff(aligned: bool, pos: nat, size: nat, total: nat, answers: nat -> Answer, waits: nat -> Wait)
    requires size >= 1
    ensures var last, n := if aligned then 0 else size - 1, if aligned then size else 1;
            var first, w := (if aligned then pos else pos + size - 1) % 0x80_0000, waits(last);
            !Succeeds(aligned, pos, size, total, answers, waits) <==>
            w.stuck || (aligned && size > 1 && w.stopRejected) ||
            (answers(last).Accepted? && first < total && (w.failed || first + n > total))
  {
  }

  /** The sectors that were asked for are transferred. */
  predicate RequestMet(aligned: bool, pos: nat, size: nat, total: nat, answers: nat -> Answer, waits: nat -> Wait)
  {
    AllTransferred(aligned, pos, size, total, answers, waits) &&
    forall i :: 0 <= i < size ==> SectorOf(aligned, pos, i) == pos + i
  }

  predicate Honest(aligned: bool, pos: nat, size: nat, total: nat, answers: nat -> Answer, waits: nat -> Wait)
    requires size >= 1
  {
    Succeeds(aligned, pos, size, total, answers, waits) ==> RequestMet(aligned, pos, size, total, answers, waits)
  }

  /** A call that reports success has transferred the sectors it was asked for, whatever
      happens during its waits, exactly if it is one operation that the card accepts and that
      does not end silently, on a first sector that the card has, and if it either starts
      within 4 GB or, wrapped, runs over the end of the card. */
  lemma SuccessIsHonestIff(aligned: bool, pos: nat, size: nat, total: nat, answers: nat -> Answer)
    requires size >= 1
    ensures (forall waits: nat -> Wait :: Honest(aligned, pos, size, total, answers, waits))
            <==> (aligned || size == 1) && answers(0).Accepted? && pos % TURN < total &&
                 (pos < TURN || pos % TURN + size > total)
  {
    if (aligned || size == 1) && answers(0).Accepted? && pos % TURN < total {
      OneOperationIsHonestIff(aligned, pos, size, total, answers);
    } else {
      var waits: nat -> Wait :=
        (k: nat) => if !aligned && size > 1 && k == 0 then Smooth().(failed := true) else Smooth();
      var last := if aligned then 0 else size - 1;
      assert waits(last) == Smooth();
      assert !Completes(SectorOf(aligned, pos, 0), if aligned then size else 1, total, answers(0), waits(0));
      assert !Honest(aligned, pos, size, total, answers, waits);
    }
  }

  lemma OneOperationIsHonestIff(aligned: bool, pos: nat, size: nat, total: nat, answers: nat -> Answer)
    requires size >= 1 && (aligned || size == 1) && answers(0).Accepted? && pos % TURN < total
    ensures (forall waits: nat -> Wait :: Honest(aligned, pos, size, total, answers, waits))
            <==> pos < TURN || pos % TURN + size > total
  {
    PathsAreRightIff(pos, size);
    assert SectorOf(aligned, pos, 0) == DirectSector(pos, 0) == pos % TURN;
    if pos < TURN || pos % TURN + size > total {
      forall waits: nat -> Wait
        ensures Honest(aligned, pos, size, total, answers, waits)
      {
      }
    } else {
      var waits: nat -> Wait := (k: nat) => Smooth();
      assert Succeeds(aligned, pos, size, total, answers, waits);
      assert SectorOf(aligned, pos, 0) != pos + 0;
      assert !Honest(aligned, pos, size, total, answers, waits);
    }
  }

  /** Three families of failing inputs. Whatever is requested, if the card rejects every
      command and nothing else happens, success is reported and nothing is transferred; */
  lemma RejectionIsReportedAsSuccess(aligned: bool, pos: nat, size: nat, total: nat)
    requires size >= 1
    ensures var answers, waits: nat -> Wait := (k: nat) => Rejected, (k: nat) => Smooth();
            Succeeds(aligned, pos, size, total, answers, waits) &&
            forall i: nat :: !Starts(SectorOf(aligned, pos, i), total, answers(i))
  {
  }

  /** if the transfers end silently, success is reported and at least one sector, of a call
      through the bounce buffer every sector, is not written; */
  lemma SilenceIsReportedAsSuccess(aligned: bool, pos: nat, size: nat, total: nat, waits: nat -> Wait)
    requires size >= 1 && forall i: nat :: i < size ==> !waits(i).stuck && !waits(i).stopRejected
    ensures var answers := (k: nat) => Silent;
            Succeeds(aligned, pos, size, total, answers, waits) &&
            if aligned then Moved(pos % TURN, size, total, answers(0), waits(0)) < size
            else forall i: nat :: i < size ==> Moved(BouncedSector(pos, i), 1, total, answers(i), waits(i)) == 0
  {
    assert !waits(size - 1).stuck && !waits(size - 1).stopRejected;
  }

  /** and past 4 GB an accepted and undisturbed call reports success for other sectors,
      every one of them. */
  lemma WrappedIsReportedAsSuccess(aligned: bool, pos: nat, size: nat, total: nat)
    requires size >= 1 && pos >= TURN && pos % TURN + size <= total <= TURN
    ensures var answers, waits: nat -> Wait := (k: nat) => Accepted, (k: nat) => Smooth();
            Succeeds(aligned, pos, size, total, answers, waits) &&
            AllTransferred(aligned, pos, size, total, answers, waits) &&
            forall i: nat :: i < size ==> SectorOf(aligned, pos, i) != pos + i
  {
    forall i: nat | i < size
      ensures BouncedSector(pos, i) == pos % TURN + i
    {
      SmallSum(pos, i);
    }
  }

  /** Accepted and undisturbed, a call inside the card succeeds and transfers what was asked
      for. */
  lemma UndisturbedSucceeds(aligned: bool, pos: nat, size: nat, total: nat, answers: nat -> Answer, waits: nat -> Wait)
    requires size >= 1 && pos + size <= total <= TURN
    requires forall i: nat :: i < size ==> answers(i).Accepted? && !waits(i).failed
    requires forall i: nat :: i < size ==> !waits(i).stuck && !waits(i).stopRejected
    ensures Succeeds(aligned, pos, size, total, answers, waits)
    ensures RequestMet(aligned, pos, size, total, answers, waits)
  {
    InRange(aligned, pos, size);
    assert answers(0).Accepted? && answers(size - 1).Accepted?;
    assert !waits(0).failed && !waits(size - 1).failed && !waits(0).stuck && !waits(size - 1).stuck;
  }

  /** rt_sdcard_read. aligned says whether the buffer's address is a multiple of 4; if not,
      each sector goes through dma. */
  method Read(card: Card, pos: nat, buf: array<byte>, at: nat, size: nat, aligned: bool, dma: array<byte>,
              answers: nat -> Answer, waits: nat -> Wait) returns (count: nat)
    requires size >= 1 && at + size * SECTOR_SIZE <= buf.Length && dma.Length == SECTOR_SIZE && dma != buf
    modifies card`transferError, card`stopCondition, card`transfer, buf, dma
    ensures count == if Succeeds(aligned, pos, size, |card.sectors|, answers, waits) then size else 0
    ensures SameOutside(old(buf[..]), buf[..], at, size * SECTOR_SIZE)
    ensures !aligned ==>
              forall i {:trigger Block(buf[..], at, i)} ::
                0 <= i < size && Completes(BouncedSector(pos, i), 1, |card.sectors|, answers(i), waits(i)) ==>
                  Block(buf[..], at, i) == card.sectors[BouncedSector(pos, i)]
    ensures aligned && AllTransferred(aligned, pos, size, |card.sectors|, answers, waits) ==>
              Filled(buf[..], at, size, card.sectors, pos % TURN)
    ensures aligned && !Starts(DirectSector(pos, 0), |card.sectors|, answers(0)) ==> buf[..] == old(buf[..])
    ensures AllTransferred(aligned, pos, size, |card.sectors|, answers, waits) &&
            pos + size <= |card.sectors| <= TURN ==>
              Filled(buf[..], at, size, card.sectors, pos)
  {
    if pos + size <= TURN {
      InRange(aligned, pos, size);
      assert SectorOf(aligned, pos, 0) == pos;
    }
    if !aligned {
      count := ReadBounced(card, pos, buf, at, size, dma, answers, waits);
      if pos + size <= |card.sectors| <= TURN {
        assert forall i :: 0 <= i < size ==> SectorOf(false, pos, i) == BouncedSector(pos, i);
      }
    } else {
      count := ReadDirect(card, pos, buf, at, size, answers, waits);
    }
  }

  method ReadDirect(card: Card, pos: nat, buf: array<byte>, at: nat, size: nat,
                    answers: nat -> Answer, waits: nat -> Wait) returns (count: nat)
    requires size >= 1 && at + size * SECTOR_SIZE <= buf.Length
    modifies card`transferError, card`stopCondition, card`transfer, buf
    ensures count == if Succeeds(true, pos, size, |card.sectors|, answers, waits) then size else 0
    ensures SameOutside(old(buf[..]), buf[..], at, size * SECTOR_SIZE)
    ensures AllTransferred(true, pos, size, |card.sectors|, answers, waits) ==>
              Filled(buf[..], at, size, card.sectors, pos % TURN)
    ensures !Starts(DirectSector(pos, 0), |card.sectors|, answers(0)) ==> buf[..] == old(buf[..])
  {
    hide Filled;
    FirstAddress(pos);
    var status;
    if size == 1 {
      status := card.Start(pos * SECTOR_SIZE % WORD, 1, false, answers(0));
    } else {
      status := card.Start(pos * SECTOR_SIZE % WORD, size, true, answers(0));
    }
    status := card.WaitRead(buf, at, answers(0), waits(0));
    count := if status.Ok? then size else 0;
  }

  method ReadBounced(card: Card, pos: nat, buf: array<byte>, at: nat, size: nat, dma: array<byte>,
                     answers: nat -> Answer, waits: nat -> Wait) returns (count: nat)
    requires size >= 1 && at + size * SECTOR_SIZE <= buf.Length && dma.Length == SECTOR_SIZE && dma != buf
    modifies card`transferError, card`stopCondition, card`transfer, buf, dma
    ensures count == if Succeeds(false, pos, size, |card.sectors|, answers, waits) then size else 0
    ensures SameOutside(old(buf[..]), buf[..], at, size * SECTOR_SIZE)
    ensures forall i {:trigger Block(buf[..], at, i)} ::
              0 <= i < size && Completes(BouncedSector(pos, i), 1, |card.sectors|, answers(i), waits(i)) ==>
                Block(buf[..], at, i) == card.sectors[BouncedSector(pos, i)]
  {
    FirstAddress(pos);
    var address, i: nat := pos * SECTOR_SIZE % WORD, 0;
    var status := Ok;
    while i < size
      invariant i <= size && address < WORD
      invariant address % SECTOR_SIZE == 0 && address / SECTOR_SIZE == BouncedSector(pos, i)
      invariant i > 0 ==>
                  (status.Ok? <==>
                   Reported(BouncedSector(pos, i - 1), 1, |card.sectors|, false, answers(i - 1), waits(i - 1)))
      invariant SameOutside(old(buf[..]), buf[..], at, size * SECTOR_SIZE)
      invariant forall j {:trigger Block(buf[..], at, j)} ::
                  0 <= j < i && Completes(BouncedSector(pos, j), 1, |card.sectors|, answers(j), waits(j)) ==>
                    Block(buf[..], at, j) == card.sectors[BouncedSector(pos, j)]
    {
      status := ReadOne(card, address, dma, answers(i), waits(i));
      ghost var was := buf[..];
      CopyBlock(dma, buf, at, i);
      NextAddress(address, pos, i);
      address := (address + SECTOR_SIZE) % WORD;
      i := i + 1;
    }
    count := if status.Ok? then size else 0;
  }

  /** One sector into the bounce buffer; the status of the commands is overwritten. */
  method ReadOne(card: Card, address: nat, dma: array<byte>, a: Answer, w: Wait) returns (status: Status)
    requires dma.Length == SECTOR_SIZE
    modifies card`transferError, card`stopCondition, card`transfer, dma
    ensures var first, total := address / SECTOR_SIZE, |card.sectors|;
            (status.Ok? <==> Reported(first, 1, total, false, a, w)) &&
            (Completes(first, 1, total, a, w) ==> dma[..] == card.sectors[first])
  {
    status := card.Start(address, 1, false, a);
    status := card.WaitRead(dma, 0, a, w);
    assert Block(dma[..], 0, 0) == dma[..];
  }

  /** memcpy of one sector to block i. */
  method CopyBlock(from: array<byte>, buf: array<byte>, at: nat, i: nat)
    requires from.Length == SECTOR_SIZE && at + (i + 1) * SECTOR_SIZE <= buf.Length && from != buf
    modifies buf
    ensures Block(buf[..], at, i) == from[..]
    ensures forall j {:trigger Block(buf[..], at, j)} ::
              0 <= j < i ==> Block(buf[..], at, j) == Block(old(buf[..]), at, j)
    ensures SameOutside(old(buf[..]), buf[..], at + i * SECTOR_SIZE, SECTOR_SIZE)
  {
    var to := at + i * SECTOR_SIZE;
    forall k | 0 <= k < SECTOR_SIZE {
      buf[to + k] := from[k];
    }
  }

  // ----- writing

  /** The card after n single-sector writes. */
  function Bounced(sectors: seq<Sector>, pos: nat, data: seq<byte>, at: nat, n: nat,
                   answers: nat -> Answer, waits: nat -> Wait): (r: seq<Sector>)
    requires at + n * SECTOR_SIZE <= |data|
    ensures |r| == |sectors|
  {
    if n == 0 then sectors
    else
      var before := Bounced(sectors, pos, data, at, n - 1, answers, waits);
      var first := BouncedSector(pos, n - 1);
      if Moved(first, 1, |sectors|, answers(n - 1), waits(n - 1)) == 1
      then before[first := Block(data, at, n - 1)] else before
  }

  /** Writing sector by sector amounts to one transfer, if every sector is transferred. */
  lemma {:induction false} BouncedTransfers(sectors: seq<Sector>, pos: nat, data: seq<byte>, at: nat, n: nat,
                                            answers: nat -> Answer, waits: nat -> Wait)
    requires at + n * SECTOR_SIZE <= |data| && pos + n <= |sectors| <= TURN
    requires AllTransferred(false, pos, n, |sectors|, answers, waits)
    ensures Transferred(sectors, Bounced(sectors, pos, data, at, n, answers, waits), pos, data, at, n)
  {
    hide Transferred, BouncedSector;
    if n == 0 {
      NothingTransferred(sectors, pos, data, at);
    } else {
      BouncedTransfers(sectors, pos, data, at, n - 1, answers, waits);
      assert BouncedSector(pos, n - 1) == pos + (n - 1) by { InsideTurn(pos, n - 1); }
      assert Completes(BouncedSector(pos, n - 1), 1, |sectors|, answers(n - 1), waits(n - 1));
      OneMore(sectors, Bounced(sectors, pos, data, at, n - 1, answers, waits), pos, data, at, n);
    }
  }

  /** rt_sdcard_write. */
  method Write(card: Card, pos: nat, buf: array<byte>, at: nat, size: nat, aligned: bool, dma: array<byte>,
               answers: nat -> Answer, waits: nat -> Wait) returns (count: nat)
    requires size >= 1 && at + size * SECTOR_SIZE <= buf.Length && dma.Length == SECTOR_SIZE && dma != buf
    modifies card, dma
    ensures count == if Succeeds(aligned, pos, size, |old(card.sectors)|, answers, waits) then size else 0
    ensures aligned ==>
              Transferred(old(card.sectors), card.sectors, pos % TURN, buf[..], at,
                          Moved(pos % TURN, size, |old(card.sectors)|, answers(0), waits(0)))
    ensures !aligned ==> card.sectors == Bounced(old(card.sectors), pos, buf[..], at, size, answers, waits)
    ensures AllTransferred(aligned, pos, size, |old(card.sectors)|, answers, waits) &&
            pos + size <= |old(card.sectors)| <= TURN ==>
              Transferred(old(card.sectors), card.sectors, pos, buf[..], at, size)
  {
    hide Transferred, Bounced, Succeeds;
    ghost var was := card.sectors;
    if !aligned {
      count := WriteBounced(card, pos, buf, at, size, dma, answers, waits);
      if AllTransferred(false, pos, size, |was|, answers, waits) && pos + size <= |was| <= TURN {
        BouncedTransfers(was, pos, buf[..], at, size, answers, waits);
      }
    } else {
      count := WriteDirect(card, pos, buf, at, size, answers, waits);
    }
  }

  method WriteDirect(card: Card, pos: nat, buf: array<byte>, at: nat, size: nat,
                     answers: nat -> Answer, waits: nat -> Wait) returns (count: nat)
    requires size >= 1 && at + size * SECTOR_SIZE <= buf.Length
    modifies card
    ensures count == if Succeeds(true, pos, size, |old(card.sectors)|, answers, waits) then size else 0
    ensures Transferred(old(card.sectors), card.sectors, pos % TURN, buf[..], at,
                        Moved(pos % TURN, size, |old(card.sectors)|, answers(0), waits(0)))
  {
    FirstAddress(pos);
    var status;
    if size == 1 {
      status := card.Start(pos * SECTOR_SIZE % WORD, 1, false, answers(0));
    } else {
      status := card.Start(pos * SECTOR_SIZE % WORD, size, true, answers(0));
    }
    status := card.WaitWrite(buf, at, answers(0), waits(0));
    count := if status.Ok? then size else 0;
  }

  method WriteBounced(card: Card, pos: nat, buf: array<byte>, at: nat, size: nat, dma: array<byte>,
                      answers: nat -> Answer, waits: nat -> Wait) returns (count: nat)
    requires size >= 1 && at + size * SECTOR_SIZE <= buf.Length && dma.Length == SECTOR_SIZE && dma != buf
    modifies card, dma
    ensures count == if Succeeds(false, pos, size, |old(card.sectors)|, answers, waits) then size else 0
    ensures card.sectors == Bounced(old(card.sectors), pos, buf[..], at, size, answers, waits)
  {
    FirstAddress(pos);
    var address, i: nat := pos * SECTOR_SIZE % WORD, 0;
    var status := Ok;
    while i < size
      invariant i <= size && address < WORD
      invariant address % SECTOR_SIZE == 0 && address / SECTOR_SIZE == BouncedSector(pos, i)
      invariant buf[..] == old(buf[..]) && |card.sectors| == |old(card.sectors)|
      invariant i > 0 ==>
                  (status.Ok? <==>
                   Reported(BouncedSector(pos, i - 1), 1, |card.sectors|, false, answers(i - 1), waits(i - 1)))
      invariant card.sectors == Bounced(old(card.sectors), pos, buf[..], at, i, answers, waits)
    {
      forall k | 0 <= k < SECTOR_SIZE {
        dma[k] := buf[at + i * SECTOR_SIZE + k];
      }
      assert dma[..] == Block(buf[..], at, i);
      status := WriteOne(card, address, dma, answers(i), waits(i));
      NextAddress(address, pos, i);
      address := (address + SECTOR_SIZE) % WORD;
      i := i + 1;
    }
    count := if status.Ok? then size else 0;
  }

  /** One sector from the bounce buffer; the status of the commands is overwritten. */
  method WriteOne(card: Card, address: nat, dma: array<byte>, a: Answer, w: Wait) returns (status: Status)
    requires dma.Length == SECTOR_SIZE
    modifies card
    ensures var first, total := address / SECTOR_SIZE, |old(card.sectors)|;
            (status.Ok? <==> Reported(first, 1, total, false, a, w)) &&
            card.sectors == if Moved(first, 1, total, a, w) == 1 then old(card.sectors)[first := dma[..]]
                            else old(card.sectors)
  {
    ghost var was := card.sectors;
    status := card.Start(address, 1, false, a);
    status := card.WaitWrite(dma, 0, a, w);
    assert Block(dma[..], 0, 0) == dma[..];
  }
}
