/** A ring of slots with a read and a save index, one slot of which stays unused, so that
    equal indices mean an empty ring. The serial receiver and the audio queue share it. */
module RingBuffer {

  function Next(i: nat, n: nat): nat { if i + 1 >= n then 0 else i + 1 }

  /** The elements between the read and the save index, around the end of the buffer. */
  function Contents<T>(buf: seq<T>, read: nat, save: nat): seq<T>
    requires read < |buf| && save < |buf|
  {
    if read <= save then buf[read..save] else buf[read..] + buf[..save]
  }

  /** Storing at the save index appends; when the ring was full, the oldest element has
      to give way. */
  lemma SaveAppends<T>(buf: seq<T>, read: nat, save: nat, x: T)
    requires read < |buf| && save < |buf|
    ensures var q := Contents(buf, read, save);
            var buf' := buf[save := x];
            if Next(save, |buf|) == read
            then |q| == |buf| - 1 && Contents(buf', Next(read, |buf|), Next(save, |buf|)) == (q + [x])[1..]
            else |q| < |buf| - 1 && Contents(buf', read, Next(save, |buf|)) == q + [x]
  {
  }

  lemma ReadRemoves<T>(buf: seq<T>, read: nat, save: nat)
    requires read < |buf| && save < |buf| && read != save
    ensures var q := Contents(buf, read, save);
            q != [] && q[0] == buf[read] && Contents(buf, Next(read, |buf|), save) == q[1..]
  {
  }

  /** An element alone in the ring is at the read index, right before the save index. */
  lemma AloneInRing<T>(buf: seq<T>, read: nat, save: nat)
    requires read < |buf| && save < |buf| && |buf| > 1
    ensures Next(read, |buf|) == save <==> |Contents(buf, read, save)| == 1
    ensures read == save <==> Contents(buf, read, save) == []
  {
  }
}
