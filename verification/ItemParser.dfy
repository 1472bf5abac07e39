/** InterruptScanResult and WlanparserScanResult: the second parser of the same format,
    which fills a table of scan results, and the walk over all descriptions of a response. */
module ItemParser {
  import opened Common
  import opened Elements
  import BssParser

  const MAX_SETS: nat := 32           // MRVDRV_MAX_BSSID_LIST
  const SHORTEST: nat := 18           // MAC address and the 12 bytes the length check asks for
  const WORD: nat := 0x1_0000_0000

  datatype Security = NoSecurity | WEP | WPA_PSK | WPA2_PSK | UnSupported

  /** ScanResultItem, without the fields that come from the capabilities. */
  datatype Item = Item(
    mac: seq<byte>,
    rssi: byte,
    ssid: seq<byte>,
    channel: byte,
    dataRates: seq<byte>,
    supportedRates: seq<byte>,
    security: Security)

  datatype Scan = Scan(item: Item, wpaFlag: bool, wpa2Flag: bool)

  predicate Shaped(s: Scan) { |s.item.dataRates| == RATES_SIZE && |s.item.supportedRates| == RATES_SIZE }

  predicate AllFit(es: seq<Element>) { forall i :: 0 <= i < |es| ==> WellFormed(es[i]) }

  function Judge(wpa: bool, wpa2: bool): Security
  {
    if wpa2 then WPA2_PSK else if wpa then WPA_PSK else WEP
  }

  /** The switch. */
  function Note(s: Scan, e: Element): (s': Scan)
    requires Shaped(s) && WellFormed(e)
    ensures Shaped(s')
  {
    var t := s.item;
    if e.id == SSID then s.(item := t.(ssid := e.body[..Min(|e.body|, SSID_SIZE)]))
    else if e.id == SUPPORTED_RATES then
      s.(item := t.(dataRates := Put(t.dataRates, 0, e.body), supportedRates := Put(t.supportedRates, 0, e.body)))
    else if e.id == DS_PARAM_SET then s.(item := t.(channel := e.body[0]))
    else if Vendor(e, WPA_TYPE) then s.(wpaFlag := true)
    else if e.id == RSN_IE then s.(wpa2Flag := true)
    else s
  }

  /** One turn of the element loop: the switch, then the security so far. */
  function Apply(s: Scan, e: Element): (s': Scan)
    requires Shaped(s) && WellFormed(e)
    ensures Shaped(s')
  {
    var t := Note(s, e);
    t.(item := t.item.(security := Judge(t.wpaFlag, t.wpa2Flag)))
  }

  function Fold(s: Scan, es: seq<Element>): (r: Scan)
    requires Shaped(s) && AllFit(es)
    ensures Shaped(r)
    decreases |es|
  {
    if es == [] then s else Fold(Apply(s, es[0]), es[1..])
  }

  function Start(item: Item, b: Beacon): Scan
  {
    Scan(item.(mac := b.mac, rssi := b.rssi), false, false)
  }

  // ----- one description

  method Switch(buf: seq<byte>, p: nat, elemLen: nat, s: Scan, ghost e: Element) returns (s': Scan)
    requires p + 2 + elemLen <= |buf| && buf[p..p + 2 + elemLen] == Raw(e)
    requires Shaped(s) && WellFormed(e)
    ensures s' == Apply(s, e)
  {
    s' := s;
    var id := buf[p];
    ghost var raw := buf[p..p + 2 + elemLen];
    assert id == raw[0] == e.id && elemLen == |e.body|;
    assert buf[p + 2..p + 2 + elemLen] == raw[2..] == e.body;
    if id == SSID {
      var n := if elemLen < SSID_SIZE then elemLen else SSID_SIZE;
      assert buf[p + 2..p + 2 + n] == e.body[..n];
      s' := s.(item := s.item.(ssid := buf[p + 2..p + 2 + n]));
    } else if id == SUPPORTED_RATES {
      var rates := buf[p + 2..p + 2 + elemLen];
      s' := s.(item := s.item.(dataRates := Put(s.item.dataRates, 0, rates),
                               supportedRates := Put(s.item.supportedRates, 0, rates)));
    } else if id == DS_PARAM_SET {
      s' := s.(item := s.item.(channel := buf[p + 2]));
    } else if id == VENDOR_SPECIFIC_221 {
      var wpa := SameOui(buf, p + 2, elemLen, WPA_TYPE);
      if wpa {
        s' := s.(wpaFlag := true);
      }
    } else if id == RSN_IE {
      s' := s.(wpa2Flag := true);
    }
    if s'.wpa2Flag {
      s' := s'.(item := s'.item.(security := WPA2_PSK));
    } else if s'.wpaFlag {
      s' := s'.(item := s'.item.(security := WPA_PSK));
    } else {
      s' := s'.(item := s'.item.(security := WEP));
    }
  }

  /** The element loop. */
  method ParseElements(buf: seq<byte>, at: nat, size: int, s: Scan, ghost es: seq<Element>) returns (t: Scan)
    requires size >= 0 && at + size <= |buf| && buf[at..at + size] == EncodeElements(es)
    requires Shaped(s) && AllFit(es)
    ensures t == Fold(s, es)
  {
    hide Apply, WellFormed;
    var p, bytesLeft := at, size;
    t := s;
    ghost var rest := es;
    while bytesLeft >= 2
      invariant p + bytesLeft == at + size && 0 <= bytesLeft
      invariant buf[p..at + size] == EncodeElements(rest) && AllFit(rest)
      invariant Shaped(t) && Fold(t, rest) == Fold(s, es)
      decreases bytesLeft
    {
      DecodeFirst(rest);
      ghost var bytes := buf[p..at + size];
      var elemLen: nat := buf[p + 1];
      assert buf[p] == bytes[0] && buf[p + 1] == bytes[1];
      if bytesLeft < elemLen {
        bytesLeft := 0;
        continue;
      }
      assert buf[p..p + 2 + elemLen] == bytes[..2 + elemLen];
      assert buf[p + 2 + elemLen..at + size] == bytes[2 + elemLen..];
      t := Switch(buf, p, elemLen, t, rest[0]);
      p, bytesLeft := p + elemLen + 2, bytesLeft - (elemLen + 2);
      rest := rest[1..];
    }
    DecodeFirst(rest);
  }

  /** The description of a well-formed beacon, written into the item that was there. */
  method ParseItem(item: Item, buf: seq<byte>, start: nat, size: nat, ghost b: Beacon) returns (t: Item)
    requires start + size <= |buf| && buf[start..start + size] == Encode(b)
    requires FixedSizes(b) && AllFit(b.elements) && Shaped(Scan(item, false, false))
    ensures t == Fold(Start(item, b), b.elements).item
    ensures t.mac == buf[start..start + 6] && t.rssi == buf[start + 6]
    ensures b.elements != [] ==> SecurityFits(t.security, HasWpa(b.elements), HasRsn(b.elements))
  {
    hide Fold, AllFit, SecurityFits, HasWpa, HasRsn;
    EncodedFields(b);
    FlagsSayPresence(Start(item, b), b.elements);
    LastElementWins(Start(item, b), b.elements);
    ghost var bytes := buf[start..start + size];
    var p, left: int := start, size;
    t := item.(mac := buf[p..p + MAC_SIZE]);
    assert t.mac == bytes[..MAC_SIZE];
    p, left := p + MAC_SIZE, left - MAC_SIZE;
    t := t.(rssi := buf[p]);
    assert t.rssi == bytes[MAC_SIZE];
    p, left := p + 1, left - 1;
    p, left := p + 8, left - 8;
    p, left := p + 2, left - 2;
    p, left := p + 2, left - 2;
    SubSlice(buf, start, size, FIXED_SIZE, size);
    var s := ParseElements(buf, p, left, Scan(t, false, false), b.elements);
    t := s.item;
  }

  // ----- what it says about a network

  /** An RSN element, and a vendor element of the OUI 00-50-F2 and type 1. */
  predicate HasRsn(es: seq<Element>) { exists i :: 0 <= i < |es| && es[i].id == 48 }

  predicate HasWpa(es: seq<Element>)
  {
    exists i :: 0 <= i < |es| && es[i].id == 221 && [0x00, 0x50, 0xf2, 0x01] <= es[i].body
  }

  /** WPA2 with an RSN element, WPA with a WPA element and no RSN element, WEP with neither. */
  predicate SecurityFits(security: Security, wpa: bool, rsn: bool)
  {
    (security == WPA2_PSK <==> rsn) && (security == WPA_PSK <==> wpa && !rsn) && (security == WEP <==> !wpa && !rsn)
  }

  lemma {:induction false} FlagsSayPresence(s: Scan, es: seq<Element>)
    requires Shaped(s) && AllFit(es)
    ensures var t := Fold(s, es);
            (t.wpaFlag <==> s.wpaFlag || HasWpa(es)) && (t.wpa2Flag <==> s.wpa2Flag || HasRsn(es)) &&
            if es == [] then t.item.security == s.item.security
            else SecurityFits(t.item.security, t.wpaFlag, t.wpa2Flag)
    decreases |es|
  {
    if es != [] {
      VendorBytes(es[0]);
      FlagsSayPresence(Apply(s, es[0]), es[1..]);
      Split(es);
    }
  }

  lemma Split(es: seq<Element>)
    requires es != []
    ensures HasWpa(es) <==> (es[0].id == 221 && [0x00, 0x50, 0xf2, 0x01] <= es[0].body) || HasWpa(es[1..])
    ensures HasRsn(es) <==> es[0].id == 48 || HasRsn(es[1..])
  {
    var tail := es[1..];
    assert forall i :: 0 <= i < |tail| ==> tail[i] == es[i + 1];
    assert forall i :: 0 < i < |es| ==> es[i] == tail[i - 1];
  }

  /** The security depends only on which elements there are, once there is one: WPA2 with
      an RSN element, else WPA with a WPA vendor element, else WEP. */
  lemma SecurityIgnoresOrder(item: Item, b: Beacon, c: Beacon)
    requires Shaped(Scan(item, false, false)) && AllFit(b.elements) && AllFit(c.elements)
    requires b.elements != []
    requires SameElements(b.elements, c.elements)
    ensures SecurityFits(Fold(Start(item, b), b.elements).item.security, HasWpa(b.elements), HasRsn(b.elements))
    ensures Fold(Start(item, c), c.elements).item.security == Fold(Start(item, b), b.elements).item.security
  {
    FlagsSayPresence(Start(item, b), b.elements);
    FlagsSayPresence(Start(item, c), c.elements);
    SamePresence(b.elements, c.elements);
    SamePresence(c.elements, b.elements);
    assert b.elements[0] in b.elements;
  }

  ghost predicate SameElements(es: seq<Element>, fs: seq<Element>)
  {
    forall e: Element :: e in es <==> e in fs
  }

  lemma SamePresence(es: seq<Element>, fs: seq<Element>)
    requires SameElements(es, fs)
    ensures HasWpa(es) ==> HasWpa(fs)
    ensures HasRsn(es) ==> HasRsn(fs)
  {
    forall i | 0 <= i < |es|
      ensures exists j :: 0 <= j < |fs| && es[i] == fs[j]
    {
      assert es[i] in es;
      assert es[i] in fs;
    }
  }

  lemma {:induction false} LastElementWins(s: Scan, es: seq<Element>)
    requires Shaped(s) && AllFit(es)
    ensures var t := Fold(s, es).item;
            t.mac == s.item.mac && t.rssi == s.item.rssi &&
            t.ssid == (match Last(es, 0)
                       case Some(n) => n[..Min(|n|, 32)]
                       case None => s.item.ssid) &&
            t.channel == (if Last(es, 3).Some? && |Last(es, 3).value| > 0
                          then Last(es, 3).value[0] else s.item.channel)
    decreases |es|
  {
    if es != [] {
      LastElementWins(Apply(s, es[0]), es[1..]);
      if Last(es[1..], DS_PARAM_SET).Some? {
        LastIsSomeIffPresent(es[1..], DS_PARAM_SET);
      }
    }
  }

  /** Byte k of the last supported rates element that has one. */
  function LastRate(es: seq<Element>, k: nat): Option<byte>
  {
    if es == [] then None
    else if LastRate(es[1..], k).Some? then LastRate(es[1..], k)
    else if es[0].id == 1 && k < |es[0].body| then Some(es[0].body[k])
    else None
  }

  /** Each byte of both rate tables comes from the last such element that is long enough. */
  lemma {:induction false} LastRateWins(s: Scan, es: seq<Element>, k: nat)
    requires Shaped(s) && AllFit(es) && k < RATES_SIZE
    ensures var t := Fold(s, es).item;
            t.dataRates[k] == (if LastRate(es, k).Some? then LastRate(es, k).value else s.item.dataRates[k]) &&
            t.supportedRates[k] == if LastRate(es, k).Some? then LastRate(es, k).value else s.item.supportedRates[k]
    decreases |es|
  {
    if es != [] {
      LastRateWins(Apply(s, es[0]), es[1..], k);
    }
  }

  /** On every beacon that the first parser accepts, the two parsers agree on address,
      signal strength, channel and SSID, wherever they agreed before or the beacon says. */
  lemma ParsersAgree(d: BssParser.Bss, item: Item, b: Beacon)
    requires BssParser.Sized(d) && BssParser.BeaconFits(b) && Shaped(Scan(item, false, false)) && AllFit(b.elements)
    requires BssParser.Fold(BssParser.Start(d, b), b.elements).ok
    ensures var x := BssParser.Fold(BssParser.Start(d, b), b.elements).scan.bss;
            var y := Fold(Start(item, b), b.elements).item;
            x.fixed.mac == y.mac && x.fixed.rssi == y.rssi &&
            (Last(b.elements, SSID).Some? || d.ssid == item.ssid ==> x.ssid == y.ssid) &&
            (Last(b.elements, DS_PARAM_SET).Some? || d.channel == item.channel ==> x.channel == y.channel)
  {
    hide BssParser.Fold, Fold;
    BssParser.LastElementWins(BssParser.Start(d, b), b.elements);
    LastElementWins(Start(item, b), b.elements);
    if Last(b.elements, SSID).Some? {
      BssParser.LastFits(b.elements, SSID);
    }
    if Last(b.elements, DS_PARAM_SET).Some? {
      BssParser.LastFits(b.elements, DS_PARAM_SET);
    }
  }

  // ----- the walk over a response

  datatype Span = Span(start: nat, size: nat)

  /** The descriptions that get an item: up to the given number, as long as lengths are
      good and there is room, those with enough bytes. */
  function Recorded(buf: seq<byte>, cursor: nat, bytesLeft: nat, sets: nat, room: nat): seq<Span>
    requires cursor + bytesLeft <= |buf|
    decreases bytesLeft
  {
    if sets == 0 || room == 0 || !HasDescription(buf, cursor, bytesLeft) then []
    else
      var size := SizeAt(buf, cursor, bytesLeft);
      var next := cursor + 2 + size;
      if size >= SHORTEST
      then [Span(cursor + 2, size)] + Recorded(buf, next, bytesLeft - 2 - size, sets - 1, room - 1)
      else Recorded(buf, next, bytesLeft - 2 - size, sets - 1, room)
  }

  lemma RecordedNext(buf: seq<byte>, cursor: nat, bytesLeft: nat, sets: nat, room: nat)
    requires cursor + bytesLeft <= |buf|
    ensures var size := SizeAt(buf, cursor, bytesLeft);
            var r := Recorded(buf, cursor, bytesLeft, sets, room);
            if sets == 0 || bytesLeft == 0 || room == 0 || !HasDescription(buf, cursor, bytesLeft) then r == []
            else if size >= 18 then
              r == [Span(cursor + 2, size)] + Recorded(buf, cursor + 2 + size, bytesLeft - 2 - size, sets - 1, room - 1)
            else r == Recorded(buf, cursor + 2 + size, bytesLeft - 2 - size, sets - 1, room)
    ensures sets > 0 ==> Recorded(buf, cursor + bytesLeft, 0, sets - 1, room) == []
  {
  }

  /** How many items fit the result buffer. */
  function Room(count: nat, itemSize: nat, resultSize: nat): nat
    requires itemSize > 0
    decreases resultSize - count * itemSize
  {
    if (count + 1) * itemSize > resultSize then 0 else 1 + Room(count + 1, itemSize, resultSize)
  }

  /** As many as fit, and not one more. */
  lemma {:induction false} RoomIsAllThatFits(count: nat, itemSize: nat, resultSize: nat)
    requires itemSize > 0 && count * itemSize <= resultSize
    ensures var all := count + Room(count, itemSize, resultSize);
            all * itemSize <= resultSize < (all + 1) * itemSize
    decreases resultSize - count * itemSize
  {
    RoomNext(count, itemSize, resultSize);
    hide Room;
    if (count + 1) * itemSize <= resultSize {
      RoomIsAllThatFits(count + 1, itemSize, resultSize);
    }
  }

  /** One item less when one is taken; and no more room exactly when the next one does not fit. */
  lemma RoomNext(count: nat, itemSize: nat, resultSize: nat)
    requires itemSize > 0
    ensures Room(count, itemSize, resultSize) == 0 <==> (count + 1) * itemSize > resultSize
    ensures (count + 1) * itemSize <= resultSize ==>
              Room(count, itemSize, resultSize) == Room(count + 1, itemSize, resultSize) + 1
  {
  }

  /** The framing half of InterruptScanResult, on any bytes: where the description is and
      whether an item is taken for it. */
  method NextDescription(buf: seq<byte>, cursor: nat, bytesLeft: nat, haveBuffer: bool,
                         count: nat, itemSize: nat, resultSize: nat)
    returns (ok: bool, span: Span, cursor': nat, bytesLeft': nat, count': nat)
    requires cursor + bytesLeft <= |buf| && bytesLeft > 0
    requires 0 < itemSize < 0x8000_0000 && count * itemSize <= resultSize < 0x8000_0000
    ensures cursor' + bytesLeft' == cursor + bytesLeft && bytesLeft' < bytesLeft
    ensures count' == (if ok then count + 1 else count) && count' * itemSize <= resultSize
    ensures var room := Room(count, itemSize, resultSize);
            if !haveBuffer || room == 0 || !HasDescription(buf, cursor, bytesLeft) then bytesLeft' == 0 && !ok
            else var size := buf[cursor] as int + 256 * buf[cursor + 1] as int;
                 bytesLeft' == bytesLeft - 2 - size && (ok <==> size >= 18) && span == Span(cursor + 2, size)
  {
    ok, span, cursor', bytesLeft', count' := false, Span(0, 0), cursor, bytesLeft, count;
    var beaconSize: nat := 0;
    if bytesLeft' >= 2 {
      beaconSize := Le16(buf[cursor'..cursor' + 2]);
      cursor', bytesLeft' := cursor' + 2, bytesLeft' - 2;
    }
    if beaconSize == 0 || beaconSize > bytesLeft' || !haveBuffer {
      cursor', bytesLeft' := cursor' + bytesLeft', 0;
      return;
    }
    hide Room;
    RoomNext(count, itemSize, resultSize);
    NoWrap(count, itemSize);
    if (count + 1) * itemSize % WORD > resultSize {
      cursor', bytesLeft' := cursor' + bytesLeft', 0;
      return;
    }
    span := Span(cursor', beaconSize);
    cursor', bytesLeft' := cursor' + beaconSize, bytesLeft' - beaconSize;
    var left: int := beaconSize - MAC_SIZE;
    if left < 12 {
      return;
    }
    ok, count' := true, count + 1;
  }

  /** The 32-bit product in the room test does not wrap. */
  lemma NoWrap(count: nat, itemSize: nat)
    requires itemSize < 0x8000_0000 && count * itemSize < 0x8000_0000
    ensures (count + 1) * itemSize % WORD == (count + 1) * itemSize
  {
  }

  /** WlanparserScanResult, on any bytes: it ends, stays inside the response, and takes
      items for exactly the recorded descriptions, never more than the buffer holds. */
  method Walk(buf: seq<byte>, cursor: nat, size: nat, sets: nat, haveBuffer: bool,
              count: nat, itemSize: nat, resultSize: nat)
    returns (ok: bool, spans: seq<Span>, count': nat)
    requires cursor + size <= |buf|
    requires 0 < itemSize < 0x8000_0000 && count * itemSize <= resultSize < 0x8000_0000
    ensures ok <==> sets <= 32
    ensures spans == if ok && haveBuffer
                     then Recorded(buf, cursor, size, sets, Room(count, itemSize, resultSize)) else []
    ensures count' == count + |spans| && count' * itemSize <= resultSize
  {
    hide Room, Recorded, HasDescription, SizeAt;
    ok, spans, count' := true, [], count;
    if sets > MAX_SETS {
      return false, [], count;
    }
    var p, bytesLeft, idx := cursor, size, 0;
    while idx < sets && bytesLeft != 0
      invariant idx <= sets && p + bytesLeft == cursor + size
      invariant count' == count + |spans| && count' * itemSize <= resultSize
      invariant if !haveBuffer then spans == [] else
                Recorded(buf, cursor, size, sets, Room(count, itemSize, resultSize))
                == spans + Recorded(buf, p, bytesLeft, sets - idx, Room(count', itemSize, resultSize))
      decreases bytesLeft
    {
      ghost var before := spans;
      ghost var room := Room(count', itemSize, resultSize);
      RecordedNext(buf, p, bytesLeft, sets - idx, room);
      SizeIsLittleEndian(buf, p, bytesLeft);
      RoomNext(count', itemSize, resultSize);
      var taken, span, q, left, n := NextDescription(buf, p, bytesLeft, haveBuffer, count', itemSize, resultSize);
      if taken {
        spans := spans + [span];
        ghost var rest := Recorded(buf, q, left, sets - idx - 1, Room(n, itemSize, resultSize));
        assert before + ([span] + rest) == spans + rest;
      }
      p, bytesLeft, count' := q, left, n;
      idx := idx + 1;
    }
    RecordedNext(buf, p, bytesLeft, sets - idx, Room(count', itemSize, resultSize));
  }

  /** Recorded descriptions lie in the response one behind another, each after its length. */
  lemma {:induction false} SpansAreInOrder(buf: seq<byte>, cursor: nat, bytesLeft: nat, sets: nat, room: nat)
    requires cursor + bytesLeft <= |buf|
    ensures var r := Recorded(buf, cursor, bytesLeft, sets, room);
            |r| <= room && |r| <= sets &&
            (forall i :: 0 <= i < |r| ==>
              cursor + 2 <= r[i].start && r[i].start + r[i].size <= cursor + bytesLeft && r[i].size >= 18 &&
              buf[r[i].start - 2] as int + 256 * buf[r[i].start - 1] as int == r[i].size) &&
            forall i, j :: 0 <= i < j < |r| ==> r[i].start + r[i].size + 2 <= r[j].start
    decreases bytesLeft
  {
    hide Recorded, Le16;
    RecordedNext(buf, cursor, bytesLeft, sets, room);
    SizeIsLittleEndian(buf, cursor, bytesLeft);
    if sets > 0 && room > 0 && HasDescription(buf, cursor, bytesLeft) {
      var size := SizeAt(buf, cursor, bytesLeft);
      var left := if size >= SHORTEST then room - 1 else room;
      SpansAreInOrder(buf, cursor + 2 + size, bytesLeft - 2 - size, sets - 1, left);
    }
  }

  // ----- a response that encodes a list of beacons

  function Bytes16(n: nat): (s: seq<byte>)
    requires n < 0x1_0000
    ensures |s| == 2 && Le16(s) == n
  {
    [n % 256, n / 256]
  }

  predicate Encodable(bs: seq<Beacon>)
  {
    forall i :: 0 <= i < |bs| ==> FixedSizes(bs[i]) && |Encode(bs[i])| < 0x1_0000
  }

  function Response(bs: seq<Beacon>): seq<byte>
    requires Encodable(bs)
  {
    if bs == [] then [] else Bytes16(|Encode(bs[0])|) + Encode(bs[0]) + Response(bs[1..])
  }

  /** The span holds exactly the encoding of the beacon. */
  predicate Holds(buf: seq<byte>, r: Span, b: Beacon)
  {
    r.start + r.size <= |buf| && buf[r.start..r.start + r.size] == Encode(b)
  }

  /** The walk takes an item for each of the first beacons, as many as there are sets and
      room, and finds each beacon's own encoding. */
  lemma {:induction false} WalkFindsBeacons(buf: seq<byte>, cursor: nat, bs: seq<Beacon>, sets: nat, room: nat)
    requires cursor <= |buf| && Encodable(bs) && buf[cursor..] == Response(bs)
    ensures var r := Recorded(buf, cursor, |buf| - cursor, sets, room);
            |r| == Min(|bs|, Min(sets, room)) && forall i :: 0 <= i < |r| ==> Holds(buf, r[i], bs[i])
    decreases |bs|
  {
    hide Recorded, Encode, HasDescription, SizeAt, Holds, Response;
    RecordedNext(buf, cursor, |buf| - cursor, sets, room);
    if bs == [] {
      NothingLeft(buf, cursor);
    } else if sets > 0 && room > 0 {
      FirstOfResponse(buf, cursor, bs);
      var n := |Encode(bs[0])|;
      WalkFindsBeacons(buf, cursor + 2 + n, bs[1..], sets - 1, room - 1);
      var tail := Recorded(buf, cursor + 2 + n, |buf| - cursor - 2 - n, sets - 1, room - 1);
      var r := [Span(cursor + 2, n)] + tail;
      forall i | 0 <= i < |r|
        ensures Holds(buf, r[i], bs[i])
      {
        if i > 0 {
          assert r[i] == tail[i - 1] && bs[i] == bs[1..][i - 1];
        }
      }
    }
  }

  lemma NothingLeft(buf: seq<byte>, cursor: nat)
    requires cursor <= |buf| && buf[cursor..] == Response([])
    ensures cursor == |buf| && !HasDescription(buf, cursor, 0)
  {
  }

  lemma FirstOfResponse(buf: seq<byte>, cursor: nat, bs: seq<Beacon>)
    requires cursor <= |buf| && bs != [] && Encodable(bs) && buf[cursor..] == Response(bs)
    ensures var n := |Encode(bs[0])|;
            n >= FIXED_SIZE && cursor + 2 + n <= |buf| && Encodable(bs[1..]) &&
            HasDescription(buf, cursor, |buf| - cursor) && SizeAt(buf, cursor, |buf| - cursor) == n &&
            Holds(buf, Span(cursor + 2, n), bs[0]) && buf[cursor + 2 + n..] == Response(bs[1..])
  {
    hide Encode;
    EncodedFields(bs[0]);
    var one, rest := Encode(bs[0]), buf[cursor..];
    var n := |one|;
    assert rest == Bytes16(n) + one + Response(bs[1..]);
    assert buf[cursor..cursor + 2] == rest[..2] == Bytes16(n);
    assert buf[cursor + 2..cursor + 2 + n] == rest[2..2 + n] == one;
    assert buf[cursor + 2 + n..] == rest[2 + n..] == Response(bs[1..]);
  }

  /** The item for a beacon, written over the item that was there. */
  function ItemOf(item: Item, b: Beacon): (r: Item)
    requires AllFit(b.elements) && Shaped(Scan(item, false, false))
    ensures Shaped(Scan(r, false, false))
  {
    Fold(Start(item, b), b.elements).item
  }

  predicate Readable(bs: seq<Beacon>)
  {
    Encodable(bs) && forall i :: 0 <= i < |bs| ==> AllFit(bs[i].elements)
  }

  /** The buffer holds so many items and no more. */
  predicate TableFits(table: nat, itemSize: nat, resultSize: nat)
  {
    table * itemSize <= resultSize < (table + 1) * itemSize
  }

  /** Items from count to count + done are those of the first beacons, the others unchanged. */
  predicate FilledUpTo(was: seq<Item>, now: seq<Item>, count: nat, done: nat, bs: seq<Beacon>)
    requires Readable(bs) && done <= |bs| && count + done <= |was| == |now|
    requires forall i :: 0 <= i < |was| ==> Shaped(Scan(was[i], false, false))
  {
    forall i :: 0 <= i < |was| ==>
      now[i] == if count <= i < count + done then ItemOf(was[i], bs[i - count]) else was[i]
  }

  /** WlanparserScanResult on a response that encodes a list of beacons: item after item of
      the table is what the element fold makes of the beacons, as many as sets and room allow. */
  method FillTable(buf: seq<byte>, cursor: nat, sets: nat, table: array<Item>, count: nat, itemSize: nat,
                   resultSize: nat, ghost bs: seq<Beacon>) returns (ok: bool, count': nat)
    requires cursor <= |buf| && Readable(bs) && buf[cursor..] == Response(bs)
    requires 0 < itemSize < 0x8000_0000 && count <= table.Length && resultSize < 0x8000_0000
    requires TableFits(table.Length, itemSize, resultSize)
    requires forall i :: 0 <= i < table.Length ==> Shaped(Scan(table[i], false, false))
    modifies table
    ensures ok <==> sets <= 32
    ensures count' == count + if ok then Min(|bs|, Min(sets, table.Length - count)) else 0
    ensures FilledUpTo(old(table[..]), table[..], count, count' - count, bs)
  {
    hide *;
    ghost var was := table[..];
    ok, count' := sets <= MAX_SETS, count;
    NothingFilled(was, count, bs);
    AtMostMaxSets(sets);
    if !ok {
      return;
    }
    var p: nat, bytesLeft: nat, idx: nat := cursor, |buf| - cursor, 0;
    Begins(buf, cursor, bs);
    while idx < sets && bytesLeft != 0
      invariant idx <= sets && p + bytesLeft == |buf| && count <= count' <= table.Length && count' - count <= |bs|
      invariant bytesLeft == 0 ==> count' - count <= idx && (count' == table.Length || count' - count == |bs|)
      invariant bytesLeft != 0 ==> count' == count + idx && idx < |bs| && Rest(buf, p, bs, idx)
      invariant FilledUpTo(was, table[..], count, count' - count, bs)
      decreases bytesLeft
    {
      OneMore(buf, p, bs, idx);
      SizeIsLittleEndian(buf, p, bytesLeft);
      ItemBefore(was, table[..], count, idx, bs);
      RoomInTable(count', table.Length, itemSize, resultSize);
      var taken, span, q, left, n := NextDescription(buf, p, bytesLeft, true, count', itemSize, resultSize);
      if taken {
        ghost var before := table[..];
        var item := ParseItem(table[count'], buf, span.start, span.size, bs[idx]);
        table[count'] := item;
        assert table[..] == before[count' := item];
        FilledNext(was, before, count, idx, bs, item);
      }
      p, bytesLeft, count' := q, left, n;
      idx := idx + 1;
    }
    MinIs(sets, table.Length - count);
    MinIs(|bs|, Min(sets, table.Length - count));
  }

  /** What is left of the response from p on encodes the beacons from idx on. */
  predicate Rest(buf: seq<byte>, p: nat, bs: seq<Beacon>, idx: nat)
  {
    p <= |buf| && idx <= |bs| && Encodable(bs[idx..]) && buf[p..] == Response(bs[idx..])
  }

  lemma AtMostMaxSets(sets: nat)
    ensures sets <= MAX_SETS <==> sets <= 32
  {
  }

  lemma MinIs(a: nat, b: nat)
    ensures Min(a, b) == if a < b then a else b
  {
  }

  lemma RoomInTable(count: nat, table: nat, itemSize: nat, resultSize: nat)
    requires itemSize > 0 && count <= table && TableFits(table, itemSize, resultSize)
    ensures count * itemSize <= resultSize && (Room(count, itemSize, resultSize) == 0 <==> count == table)
  {
    RoomNext(count, itemSize, resultSize);
    if count < table {
      assert (count + 1) * itemSize <= table * itemSize;
    }
  }

  lemma Begins(buf: seq<byte>, cursor: nat, bs: seq<Beacon>)
    requires cursor <= |buf| && Readable(bs) && buf[cursor..] == Response(bs)
    ensures cursor == |buf| <==> bs == []
    ensures Rest(buf, cursor, bs, 0)
  {
    assert bs[0..] == bs;
    if cursor == |buf| {
      LastOne(buf, cursor, bs);
    } else {
      OneLeft(buf, cursor, bs);
    }
  }

  /** The description at the cursor is the next beacon's, and what follows encodes the rest. */
  lemma OneMore(buf: seq<byte>, p: nat, bs: seq<Beacon>, idx: nat)
    requires p < |buf| && idx < |bs| && Readable(bs) && Rest(buf, p, bs, idx)
    ensures var n, left := SizeAt(buf, p, |buf| - p), |buf| - p;
            HasDescription(buf, p, left) && n >= 18 && p + 2 + n <= |buf| &&
            buf[p + 2..p + 2 + n] == Encode(bs[idx]) && FixedSizes(bs[idx]) && AllFit(bs[idx].elements) &&
            Rest(buf, p + 2 + n, bs, idx + 1) && (p + 2 + n == |buf| <==> idx + 1 == |bs|)
  {
    hide Response, Encode, AllFit;
    FirstOfResponse(buf, p, bs[idx..]);
    var n := |Encode(bs[idx])|;
    assert bs[idx..][0] == bs[idx] && bs[idx..][1..] == bs[idx + 1..];
    if p + 2 + n == |buf| {
      LastOne(buf, p + 2 + n, bs[idx + 1..]);
    } else {
      OneLeft(buf, p + 2 + n, bs[idx + 1..]);
    }
  }

  lemma NothingFilled(was: seq<Item>, count: nat, bs: seq<Beacon>)
    requires Readable(bs) && count <= |was| && forall i :: 0 <= i < |was| ==> Shaped(Scan(was[i], false, false))
    ensures FilledUpTo(was, was, count, 0, bs)
  {
  }

  lemma ItemBefore(was: seq<Item>, now: seq<Item>, count: nat, done: nat, bs: seq<Beacon>)
    requires Readable(bs) && done <= |bs| && count + done <= |was| == |now|
    requires forall i :: 0 <= i < |was| ==> Shaped(Scan(was[i], false, false))
    requires FilledUpTo(was, now, count, done, bs)
    ensures count + done < |was| ==>
              now[count + done] == was[count + done] && Shaped(Scan(now[count + done], false, false))
  {
  }

  lemma FilledNext(was: seq<Item>, now: seq<Item>, count: nat, done: nat, bs: seq<Beacon>, item: Item)
    requires Readable(bs) && done < |bs| && count + done < |was| == |now|
    requires forall i :: 0 <= i < |was| ==> Shaped(Scan(was[i], false, false))
    requires FilledUpTo(was, now, count, done, bs)
    requires item == Fold(Start(was[count + done], bs[done]), bs[done].elements).item
    ensures FilledUpTo(was, now[count + done := item], count, done + 1, bs)
  {
    hide Fold, AllFit, Shaped;
    assert item == ItemOf(was[count + done], bs[done]);
  }

  lemma LastOne(buf: seq<byte>, q: nat, bs: seq<Beacon>)
    requires q == |buf| && Encodable(bs) && buf[q..] == Response(bs)
    ensures bs == []
  {
    if bs != [] {
      FirstOfResponse(buf, q, bs);
    }
  }

  lemma OneLeft(buf: seq<byte>, q: nat, bs: seq<Beacon>)
    requires q < |buf| && Encodable(bs) && buf[q..] == Response(bs)
    ensures bs != []
  {
  }
}
