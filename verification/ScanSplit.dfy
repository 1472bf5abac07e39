/** wlan_scan_channel_list: splitting a zero-terminated channel list into scan commands. */
module ScanSplit {
  import opened Common

  const PARAM_SIZE: nat := 7          // sizeof(ChanScanParamSet_t), packed
  const HEADER_SIZE: nat := 4         // sizeof(MrvlIEtypesHeader_t)
  const U16: nat := 0x1_0000

  datatype Channel = Channel(radioType: byte, number: byte, mode: byte, minTime: nat, maxTime: nat)

  /** A command as it is executed: the TLV's length field, the length of all TLVs, and the
      channel entries that the length field covers. */
  datatype Command = Command(tlvLen: nat, bufferLen: nat, entries: seq<Channel>)

  /** The channels before the terminator. */
  function Listed(chans: seq<Channel>): (r: seq<Channel>)
    ensures r <= chans && forall i :: 0 <= i < |r| ==> r[i].number != 0
    ensures |r| < |chans| ==> chans[|r|].number == 0
  {
    if chans == [] || chans[0].number == 0 then [] else [chans[0]] + Listed(chans[1..])
  }

  /** A channel that an unfiltered scan visits alone. */
  predicate Special(filtered: bool, c: Channel)
  {
    !filtered && (c.number == 1 || c.number == 6 || c.number == 11)
  }

  /** A command's channels: at least one, at most max, and a special one only alone. */
  predicate Proper(filtered: bool, max: nat, a: seq<Channel>)
  {
    1 <= |a| <= max && forall i :: 0 <= i < |a| && Special(filtered, a[i]) ==> |a| == 1
  }

  /** A command may end before channel next. */
  predicate MayEnd(filtered: bool, max: nat, a: seq<Channel>, next: Channel)
    requires a != []
  {
    |a| == max || Special(filtered, a[|a| - 1]) || Special(filtered, next)
  }

  /** The split: in order, proper commands, none ended without need. */
  predicate IsSplit(filtered: bool, max: nat, cmds: seq<seq<Channel>>, list: seq<Channel>)
  {
    Concat(cmds) == list && (forall i :: 0 <= i < |cmds| ==> Proper(filtered, max, cmds[i])) &&
    forall i {:trigger cmds[i]} :: 0 <= i < |cmds| - 1 ==> MayEnd(filtered, max, cmds[i], cmds[i + 1][0])
  }

  /** There is only one such split, so the three conditions say everything. */
  lemma {:induction false} SplitIsUnique(filtered: bool, max: nat, a: seq<seq<Channel>>, b: seq<seq<Channel>>,
                                         list: seq<Channel>)
    requires IsSplit(filtered, max, a, list) && IsSplit(filtered, max, b, list)
    ensures a == b
  {
    hide Proper, IsSplit;
    EmptyIffListIs(filtered, max, a, list);
    EmptyIffListIs(filtered, max, b, list);
    if list != [] {
      FirstCommand(filtered, max, a, list);
      FirstCommand(filtered, max, b, list);
      SplitIsUnique(filtered, max, a[1..], b[1..], list[|a[0]|..]);
      assert a == [a[0]] + a[1..] && b == [b[0]] + b[1..];
    }
  }

  lemma EmptyIffListIs(filtered: bool, max: nat, a: seq<seq<Channel>>, list: seq<Channel>)
    requires IsSplit(filtered, max, a, list)
    ensures a == [] <==> list == []
  {
    if a != [] {
      assert Proper(filtered, max, a[0]);
    }
  }

  /** The list decides where the first command ends: where it may, and not later. */
  lemma FirstCommand(filtered: bool, max: nat, a: seq<seq<Channel>>, list: seq<Channel>)
    requires IsSplit(filtered, max, a, list) && a != []
    ensures var n := |a[0]|;
            1 <= n <= max && n <= |list| && a[0] == list[..n] && IsSplit(filtered, max, a[1..], list[n..]) &&
            (n == |list| || n == max || Special(filtered, list[n - 1]) || Special(filtered, list[n])) &&
            forall k :: 0 <= k < n && Special(filtered, list[k]) ==> n == 1
  {
    var t, n := a[1..], |a[0]|;
    assert list == a[0] + Concat(t);
    assert Proper(filtered, max, a[0]);
    assert forall i :: 0 <= i < |t| ==> t[i] == a[i + 1];
    assert forall k :: 0 <= k < n ==> list[k] == a[0][k];
    if t != [] {
      assert Proper(filtered, max, a[1]);
      assert Concat(t) == t[0] + Concat(t[1..]);
      assert list[n] == a[1][0];
    }
  }

  /** What a split does to the channels: in an unfiltered scan each of 1, 6 and 11 has a
      command of its own; every other command but the last is full or ends before one of them. */
  lemma LoneChannels(filtered: bool, max: nat, cmds: seq<seq<Channel>>, list: seq<Channel>, i: nat)
    requires IsSplit(filtered, max, cmds, list) && i < |cmds|
    ensures 1 <= |cmds[i]| <= max
    ensures !filtered ==> forall k :: 0 <= k < |cmds[i]| && cmds[i][k].number in {1, 6, 11} ==> |cmds[i]| == 1
    ensures i + 1 < |cmds| ==>
              |cmds[i]| == max || (!filtered && cmds[i][0].number in {1, 6, 11}) ||
              (!filtered && |cmds[i + 1]| == 1 && cmds[i + 1][0].number in {1, 6, 11})
  {
    assert Proper(filtered, max, cmds[i]);
    if i + 1 < |cmds| {
      assert Proper(filtered, max, cmds[i + 1]);
      assert MayEnd(filtered, max, cmds[i], cmds[i + 1][0]);
    }
  }

  /** What the length fields must be. */
  predicate Measured(offset: nat, c: Command, a: seq<Channel>)
  {
    c == Command(7 * |a|, offset + 4 + 7 * |a|, a)
  }

  /** The two nested loops. offset is where the channel TLV starts in the TLV buffer;
      status gives what executing each command returns, 0 for success. */
  method ScanChannelList(chans: seq<Channel>, max: int, filtered: bool, offset: nat, status: nat -> int)
    returns (ok: bool, sent: seq<Command>, ghost cmds: seq<seq<Channel>>)
    requires 1 <= max && PARAM_SIZE * max < U16
    requires |Listed(chans)| < |chans|
    ensures IsSplit(filtered, max, cmds, Listed(chans))
    ensures |sent| == |cmds| && forall i :: 0 <= i < |cmds| ==> Measured(offset, sent[i], cmds[i])
    ensures ok <==> sent == [] || status(|sent| - 1) == 0
  {
    hide Proper, MayEnd, Listed, Measured;
    ghost var list := Listed(chans);
    var param := new Channel[max](_ => Channel(0, 0, 0, 0, 0));
    var p, ret := 0, 0;
    sent, cmds := [], [];
    while chans[p].number != 0
      invariant 0 <= p <= |list| && Concat(cmds) == list[..p]
      invariant forall i :: 0 <= i < |cmds| ==> Proper(filtered, max, cmds[i])
      invariant forall i {:trigger cmds[i]} :: 0 <= i < |cmds| - 1 ==>
                  cmds[i] != [] && cmds[i + 1] != [] && MayEnd(filtered, max, cmds[i], cmds[i + 1][0])
      invariant cmds != [] && p < |list| ==> cmds[|cmds| - 1] != [] && MayEnd(filtered, max, cmds[|cmds| - 1], list[p])
      invariant |sent| == |cmds| && forall i :: 0 <= i < |cmds| ==> Measured(offset, sent[i], cmds[i])
      invariant ret == if sent == [] then 0 else status(|sent| - 1)
      decreases |list| - p
    {
      var c, q := NextCommand(chans, p, max, filtered, offset, param);
      ghost var a := chans[p..q];
      assert a == list[p..q];
      sent, cmds := sent + [c], cmds + [a];
      ConcatAppend(cmds[..|cmds| - 1], [a]);
      assert cmds[..|cmds| - 1] + [a] == cmds && Concat([a]) == a + Concat([]);
      assert list[..p] + a == list[..q];
      p, ret := q, status(|sent| - 1);
    }
    assert list[..p] == list;
    SplitNonempty(filtered, max, cmds);
    ok := ret == 0;
  }

  lemma SplitNonempty(filtered: bool, max: nat, cmds: seq<seq<Channel>>)
    requires forall i :: 0 <= i < |cmds| ==> Proper(filtered, max, cmds[i])
    ensures forall i :: 0 <= i < |cmds| ==> cmds[i] != []
  {
  }

  /** One turn of the outer loop: the channels chans[p..q] go into the TLV. */
  method NextCommand(chans: seq<Channel>, p: nat, max: nat, filtered: bool, offset: nat, param: array<Channel>)
    returns (c: Command, q: nat)
    requires 1 <= max == param.Length && PARAM_SIZE * max < U16
    requires p < |Listed(chans)| < |chans|
    modifies param
    ensures p < q <= |Listed(chans)| && Proper(filtered, max, chans[p..q])
    ensures q < |Listed(chans)| ==> MayEnd(filtered, max, chans[p..q], chans[q])
    ensures Measured(offset, c, chans[p..q])
  {
    hide Listed;
    ghost var list := Listed(chans);
    var tlvIdx: nat, len: nat, bufferLen: nat, doneEarly := 0, 0, 0, false;
    q := p;
    while tlvIdx < max && chans[q].number != 0 && !doneEarly
      invariant 0 <= tlvIdx <= max && q == p + tlvIdx <= |list|
      invariant len == PARAM_SIZE * tlvIdx && (tlvIdx > 0 ==> bufferLen == offset + HEADER_SIZE + len)
      invariant param[..tlvIdx] == chans[p..q] && (tlvIdx == 0 ==> !doneEarly)
      invariant tlvIdx > 0 ==> Proper(filtered, max, chans[p..q])
      invariant tlvIdx > 0 ==> (doneEarly <==> Special(filtered, chans[q - 1]) || Special(filtered, chans[q]))
      decreases max - tlvIdx
    {
      assert q < |list|;
      param[tlvIdx] := chans[q];
      len := (len + PARAM_SIZE) % U16;
      bufferLen := offset + HEADER_SIZE + len;
      tlvIdx := tlvIdx + 1;
      doneEarly := false;
      if !filtered && (chans[q].number == 1 || chans[q].number == 6 || chans[q].number == 11) {
        doneEarly := true;
      }
      q := q + 1;
      if !filtered && (chans[q].number == 1 || chans[q].number == 6 || chans[q].number == 11) {
        doneEarly := true;
      }
      assert chans[p..q] == chans[p..q - 1] + [chans[q - 1]];
    }
    c := Command(len, bufferLen, param[..len / PARAM_SIZE]);
  }
}
