/** InterpretBSSDescriptionWithIE: the parser that fills the scan table. Its element loop
    is proved equal to a left fold over the elements of the beacon. */
module BssParser {
  import opened Common
  import opened Elements

  datatype Network = FH | DS

  /** What the fixed fields give. */
  datatype Fixed = Fixed(
    mac: seq<byte>,
    rssi: byte,
    beacon: seq<byte>,                // beaconbuf, everything after the RSSI
    timestamp: seq<byte>,
    period: nat,
    capability: seq<byte>,
    privacy: bool,
    ibss: bool)

  /** BSSDescriptor_t; the structures that elements are copied into are byte buffers. */
  datatype Bss = Bss(
    fixed: Fixed,
    ssid: seq<byte>,                  // the first SsidLength bytes
    dataRates: seq<byte>,
    supportedRates: seq<byte>,
    extra: bool,
    network: Network,
    channel: byte,
    atim: nat,
    country: seq<byte>,
    erp: byte,
    wpa: seq<byte>,
    wmm: seq<byte>,
    rsn: seq<byte>)

  /** The parser's variables in the element loop. */
  datatype Scan = Scan(bss: Bss, rateSize: nat, foundDataRateIE: bool)

  predicate Sized(b: Bss)
  {
    |b.dataRates| == RATES_SIZE && |b.supportedRates| == RATES_SIZE && |b.country| == COUNTRY_SIZE &&
    |b.wpa| == IE_SIZE && |b.wmm| == WMM_PARAMETER_SIZE && |b.rsn| == IE_SIZE
  }

  predicate Shaped(s: Scan) { Sized(s.bss) && s.rateSize <= RATES_SIZE }

  /** An element whose copy fits where this parser puts it. */
  predicate Fits(e: Element)
  {
    WellFormed(e) && (e.id == SSID ==> |e.body| <= SSID_SIZE) && (e.id == IBSS_PARAM_SET ==> |e.body| >= 2) &&
    (e.id == ERP_INFO ==> |e.body| >= 1) && (e.id == COUNTRY_INFO ==> !(COUNTRY_SIZE - 2 < |e.body| < 255))
  }

  predicate AllFit(es: seq<Element>) { forall i :: 0 <= i < |es| ==> Fits(es[i]) }

  predicate BeaconFits(b: Beacon)
  {
    FixedSizes(b) && AllFit(b.elements) && |Encode(b)| <= MAC_SIZE + 1 + BEACON_BUFFER_SIZE
  }

  /** The length check that makes the whole parse fail. */
  predicate BadCountry(e: Element) { e.id == COUNTRY_INFO && (|e.body| < 3 || |e.body| > 254) }

  /** The prefix of an element that fits a 256-byte structure. */
  function Cut(e: Element): seq<byte> { Raw(e)[..Min(|Raw(e)|, IE_SIZE)] }

  /** What one element does. */
  function Apply(s: Scan, e: Element): (s': Scan)
    requires Shaped(s) && Fits(e) && !BadCountry(e)
    ensures Shaped(s')
  {
    var b := s.bss;
    if e.id == SSID then s.(bss := b.(ssid := e.body))
    else if e.id == SUPPORTED_RATES then
      Scan(b.(dataRates := Put(b.dataRates, 0, e.body), supportedRates := Put(b.supportedRates, 0, e.body)),
           |e.body|, true)
    else if e.id == EXTENDED_SUPPORTED_RATES then
      if s.foundDataRateIE then
        var more := e.body[..Min(|e.body|, RATES_SIZE - s.rateSize)];
        s.(bss := b.(dataRates := Put(b.dataRates, s.rateSize, more),
                     supportedRates := Put(b.supportedRates, s.rateSize, more)))
      else s
    else if e.id == EXTRA_IE then s.(bss := b.(extra := true))
    else if e.id == FH_PARAM_SET then s.(bss := b.(network := FH))
    else if e.id == DS_PARAM_SET then s.(bss := b.(network := DS, channel := e.body[0]))
    else if e.id == IBSS_PARAM_SET then s.(bss := b.(atim := Le16(e.body[..2])))
    else if e.id == COUNTRY_INFO then s.(bss := b.(country := Put(b.country, 0, Raw(e))))
    else if e.id == ERP_INFO then s.(bss := b.(erp := e.body[0]))
    else if Vendor(e, WPA_TYPE) then s.(bss := b.(wpa := Put(b.wpa, 0, Cut(e))))
    else if Vendor(e, WMM_TYPE) && (|Raw(e)| == WMM_PARAMETER_SIZE || |Raw(e)| == WMM_INFO_SIZE) then
      s.(bss := b.(wmm := Put(b.wmm, 0, Raw(e))))
    else if e.id == RSN_IE then s.(bss := b.(rsn := Put(b.rsn, 0, Cut(e))))
    else s
  }

  /** A parse: whether it succeeded, and the variables at its end. */
  datatype Outcome = Outcome(ok: bool, scan: Scan)

  function Fold(s: Scan, es: seq<Element>): (r: Outcome)
    requires Shaped(s) && AllFit(es)
    ensures Shaped(r.scan)
    decreases |es|
  {
    if es == [] then Outcome(true, s)
    else if BadCountry(es[0]) then Outcome(false, s)
    else Fold(Apply(s, es[0]), es[1..])
  }

  /** The fixed fields. */
  function Start(d: Bss, b: Beacon): (s: Scan)
    requires FixedSizes(b) && Sized(d)
    ensures Shaped(s)
  {
    var f := Fixed(b.mac, b.rssi, Encode(b)[MAC_SIZE + 1..], b.timestamp, Le16(b.interval), b.capability,
                   Privacy(b.capability), Ibss(b.capability));
    Scan(d.(fixed := f), 0, false)
  }

  /** The fixed fields are what the bytes of a description say. */
  predicate FixedFrom(f: Fixed, d: seq<byte>)
    requires |d| >= FIXED_SIZE
  {
    f.mac == d[..6] && f.rssi == d[6] && f.beacon == d[7..] && f.timestamp == d[7..15] &&
    f.period as int == d[15] as int + 256 * d[16] as int && f.capability == d[17..19] &&
    (f.privacy <==> d[17] / 16 % 2 == 1) && (f.ibss <==> d[17] / 2 % 2 == 1)
  }

  lemma StartIsFixed(d: Bss, b: Beacon)
    requires FixedSizes(b) && Sized(d)
    ensures |Encode(b)| >= FIXED_SIZE && FixedFrom(Start(d, b).bss.fixed, Encode(b))
  {
    EncodedFields(b);
    hide Encode;
    var bytes := Encode(b);
    assert b.interval[0] == bytes[15] && b.interval[1] == bytes[16];
    assert b.capability[0] == bytes[17];
  }

  lemma {:induction false} FixedStays(s: Scan, es: seq<Element>)
    requires Shaped(s) && AllFit(es)
    ensures Fold(s, es).scan.bss.fixed == s.bss.fixed
    decreases |es|
  {
    hide Apply;
    if es != [] && !BadCountry(es[0]) {
      ApplyFields(s, es[0]);
      FixedStays(Apply(s, es[0]), es[1..]);
    }
  }

  // ----- the code

  /** One case of the switch, on the element at p. */
  method Switch(buf: seq<byte>, p: nat, elemLen: nat, s: Scan, ghost e: Element) returns (ok: bool, s': Scan)
    requires p + 2 + elemLen <= |buf| && buf[p..p + 2 + elemLen] == Raw(e)
    requires Shaped(s) && Fits(e)
    ensures ok <==> !BadCountry(e)
    ensures s' == if ok then Apply(s, e) else s
  {
    hide Put, Le16;
    ok, s' := true, s;
    var id := buf[p];
    var totalIeLen := elemLen + 2;
    ghost var raw := buf[p..p + totalIeLen];
    assert id == raw[0] == e.id && elemLen == |e.body|;
    assert buf[p + 2..p + totalIeLen] == raw[2..] == e.body;
    if id == SSID {
      s' := s.(bss := s.bss.(ssid := buf[p + 2..p + totalIeLen]));
    } else if id == SUPPORTED_RATES {
      var rates := buf[p + 2..p + totalIeLen];
      s' := Scan(s.bss.(dataRates := Put(s.bss.dataRates, 0, rates),
                        supportedRates := Put(s.bss.supportedRates, 0, rates)),
                 elemLen, true);
    } else if id == EXTENDED_SUPPORTED_RATES {
      if s.foundDataRateIE {
        var bytesToCopy := elemLen;
        if elemLen + s.rateSize > RATES_SIZE {
          bytesToCopy := RATES_SIZE - s.rateSize;
        }
        var rates := buf[p + 2..p + 2 + bytesToCopy];
        assert rates == e.body[..bytesToCopy];
        s' := s.(bss := s.bss.(dataRates := Put(s.bss.dataRates, s.rateSize, rates),
                               supportedRates := Put(s.bss.supportedRates, s.rateSize, rates)));
      }
    } else if id == EXTRA_IE {
      s' := s.(bss := s.bss.(extra := true));
    } else if id == FH_PARAM_SET {
      s' := s.(bss := s.bss.(network := FH));
    } else if id == DS_PARAM_SET {
      s' := s.(bss := s.bss.(network := DS, channel := buf[p + 2]));
    } else if id == IBSS_PARAM_SET {
      assert buf[p + 2..p + 4] == e.body[..2];
      s' := s.(bss := s.bss.(atim := Le16(buf[p + 2..p + 4])));
    } else if id == COUNTRY_INFO {
      if elemLen < 3 || elemLen > 254 {
        return false, s;
      }
      s' := s.(bss := s.bss.(country := Put(s.bss.country, 0, buf[p..p + totalIeLen])));
    } else if id == ERP_INFO {
      s' := s.(bss := s.bss.(erp := buf[p + 2]));
    } else if id == VENDOR_SPECIFIC_221 {
      s' := SwitchVendor(buf, p, elemLen, s, e);
    } else if id == RSN_IE {
      var n := Min(totalIeLen, IE_SIZE);
      assert buf[p..p + n] == raw[..n];
      s' := s.(bss := s.bss.(rsn := Put(s.bss.rsn, 0, buf[p..p + n])));
    }
  }

  method SwitchVendor(buf: seq<byte>, p: nat, elemLen: nat, s: Scan, ghost e: Element) returns (s': Scan)
    requires p + 2 + elemLen <= |buf| && buf[p..p + 2 + elemLen] == Raw(e)
    requires Shaped(s) && Fits(e) && e.id == VENDOR_SPECIFIC_221
    ensures s' == Apply(s, e)
  {
    hide Put, Le16;
    s' := s;
    var totalIeLen := elemLen + 2;
    ghost var raw := buf[p..p + totalIeLen];
    assert buf[p + 2..p + 2 + elemLen] == raw[2..] == e.body;
    var wpa := SameOui(buf, p + 2, elemLen, WPA_TYPE);
    if wpa {
      var n := Min(totalIeLen, IE_SIZE);
      assert buf[p..p + n] == raw[..n];
      s' := s.(bss := s.bss.(wpa := Put(s.bss.wpa, 0, buf[p..p + n])));
    } else {
      var wmm := SameOui(buf, p + 2, elemLen, WMM_TYPE);
      if wmm && (totalIeLen == WMM_PARAMETER_SIZE || totalIeLen == WMM_INFO_SIZE) {
        s' := s.(bss := s.bss.(wmm := Put(s.bss.wmm, 0, buf[p..p + totalIeLen])));
      }
    }
  }

  /** The element loop. bytesLeft is signed, as in the source. */
  method ParseElements(buf: seq<byte>, at: nat, size: int, s: Scan, ghost es: seq<Element>) returns (r: Outcome)
    requires size >= 0 && at + size <= |buf| && buf[at..at + size] == EncodeElements(es)
    requires Shaped(s) && AllFit(es)
    ensures r == Fold(s, es)
  {
    hide Apply, Fits;
    var p, bytesLeft, t := at, size, s;
    ghost var rest := es;
    while bytesLeft >= 2
      invariant p + bytesLeft == at + size && 0 <= bytesLeft
      invariant buf[p..at + size] == EncodeElements(rest) && AllFit(rest)
      invariant Shaped(t) && Fold(t, rest) == Fold(s, es)
      decreases bytesLeft
    {
      DecodeFirst(rest);
      ghost var bytes := buf[p..at + size];
      var elemLen: nat := buf[p + 1];
      assert buf[p] == bytes[0] && buf[p + 1] == bytes[1];
      if bytesLeft < elemLen {
        bytesLeft := 0;
        continue;
      }
      assert buf[p..p + 2 + elemLen] == bytes[..2 + elemLen];
      assert buf[p + 2 + elemLen..at + size] == bytes[2 + elemLen..];
      var ok, u := Switch(buf, p, elemLen, t, rest[0]);
      if !ok {
        return Outcome(false, u);
      }
      t := u;
      p, bytesLeft := p + elemLen + 2, bytesLeft - (elemLen + 2);
      rest := rest[1..];
    }
    DecodeFirst(rest);
    r := Outcome(true, t);
  }

  /** The whole function, on a buffer whose next description, if it has one, encodes a
      beacon that fits: the result is the fold over the beacon's elements. */
  method Interpret(d: Bss, buf: seq<byte>, cursor: nat, bytesLeft: nat, ghost b: Beacon)
    returns (r: Outcome, cursor': nat, bytesLeft': nat)
    requires cursor + bytesLeft <= |buf| && Sized(d)
    requires HasDescription(buf, cursor, bytesLeft) ==>
               BeaconFits(b) && Description(buf, cursor, bytesLeft) == Encode(b)
    ensures cursor' + bytesLeft' == cursor + bytesLeft
    ensures !HasDescription(buf, cursor, bytesLeft) ==>
              bytesLeft' == 0 && r == Outcome(false, Scan(d, 0, false))
    ensures HasDescription(buf, cursor, bytesLeft) ==>
              bytesLeft' == bytesLeft - 2 - |Encode(b)| && r == Fold(Start(d, b), b.elements) &&
              |Encode(b)| >= FIXED_SIZE && FixedFrom(r.scan.bss.fixed, buf[cursor + 2..cursor + 2 + |Encode(b)|])
  {
    hide Fold, AllFit, FixedFrom;
    if HasDescription(buf, cursor, bytesLeft) {
      StartIsFixed(d, b);
      FixedStays(Start(d, b), b.elements);
    }
    var beaconSize: nat := 0;
    cursor', bytesLeft' := cursor, bytesLeft;
    r := Outcome(false, Scan(d, 0, false));
    if bytesLeft' >= 2 {
      beaconSize := Le16(buf[cursor'..cursor' + 2]);
      cursor', bytesLeft' := cursor' + 2, bytesLeft' - 2;
    }
    if beaconSize == 0 || beaconSize > bytesLeft' {
      cursor', bytesLeft' := cursor' + bytesLeft', 0;
      return;
    }
    var p, start := cursor', cursor';
    cursor', bytesLeft' := cursor' + beaconSize, bytesLeft' - beaconSize;
    ghost var bytes := buf[p..p + beaconSize];
    EncodedFields(b);
    var left: int := beaconSize;
    var mac := buf[p..p + MAC_SIZE];
    assert mac == bytes[..MAC_SIZE];
    p, left := p + MAC_SIZE, left - MAC_SIZE;
    if left < 12 {
      assert false;                   // the encoding has all fixed fields
    }
    var rssi := buf[p];
    assert rssi == bytes[MAC_SIZE];
    p, left := p + 1, left - 1;
    var beacon := buf[p..p + left];
    SubSlice(buf, start, beaconSize, MAC_SIZE + 1, beaconSize);
    var timestamp := buf[p..p + 8];
    SubSlice(buf, start, beaconSize, 7, 15);
    p, left := p + 8, left - 8;
    SubSlice(buf, start, beaconSize, 15, 17);
    var period := Le16(buf[p..p + 2]);
    p, left := p + 2, left - 2;
    SubSlice(buf, start, beaconSize, 17, 19);
    var capability := buf[p..p + 2];
    p, left := p + 2, left - 2;
    SubSlice(buf, start, beaconSize, FIXED_SIZE, beaconSize);
    var f := Fixed(mac, rssi, beacon, timestamp, period, capability, Privacy(capability), Ibss(capability));
    var e := d.(fixed := f);
    r := ParseElements(buf, p, left, Scan(e, 0, false), b.elements);
  }

  // ----- what the fold means, without the fold

  lemma {:induction false} SucceedsIffCountryIsGood(s: Scan, es: seq<Element>)
    requires Shaped(s) && AllFit(es)
    ensures Fold(s, es).ok <==> forall i :: 0 <= i < |es| && es[i].id == 7 ==> 3 <= |es[i].body| <= 254
    decreases |es|
  {
    hide Apply;
    if es != [] && !BadCountry(es[0]) {
      SucceedsIffCountryIsGood(Apply(s, es[0]), es[1..]);
      assert forall i :: 0 < i < |es| ==> es[i] == es[1..][i - 1];
    }
  }

  function OrElse<T>(o: Option<T>, d: T): T { if o.Some? then o.value else d }

  lemma ApplyFields(s: Scan, e: Element)
    requires Shaped(s) && Fits(e) && !BadCountry(e)
    ensures Apply(s, e).bss.fixed == s.bss.fixed
    ensures Apply(s, e).bss.ssid == if e.id == SSID then e.body else s.bss.ssid
    ensures Apply(s, e).bss.channel == if e.id == DS_PARAM_SET then e.body[0] else s.bss.channel
    ensures Apply(s, e).bss.erp == if e.id == ERP_INFO then e.body[0] else s.bss.erp
    ensures Apply(s, e).bss.atim as int
            == if e.id == IBSS_PARAM_SET then e.body[0] as int + 256 * e.body[1] as int else s.bss.atim
    ensures Apply(s, e).bss.extra <==> s.bss.extra || e.id == EXTRA_IE
    ensures Apply(s, e).bss.network
            == if e.id == FH_PARAM_SET then FH else if e.id == DS_PARAM_SET then DS else s.bss.network
  {
    hide Put, Cut, Vendor;
  }

  lemma LastFits(es: seq<Element>, id: byte)
    requires AllFit(es) && Last(es, id).Some?
    ensures Fits(Element(id, Last(es, id).value))
  {
    LastIsSomeIffPresent(es, id);
  }

  /** SSID, channel, ERP flags and ATIM window come from the last element that carries them;
      an extra element is noted; the fixed fields stay. */
  lemma {:induction false} LastElementWins(s: Scan, es: seq<Element>)
    requires Shaped(s) && AllFit(es) && Fold(s, es).ok
    ensures var d := Fold(s, es).scan.bss;
            d.fixed == s.bss.fixed &&
            d.ssid == OrElse(Last(es, 0), s.bss.ssid) &&
            d.channel == (if Last(es, 3).Some? && |Last(es, 3).value| > 0
                          then Last(es, 3).value[0] else s.bss.channel) &&
            d.erp == (if Last(es, 42).Some? && |Last(es, 42).value| > 0 then Last(es, 42).value[0] else s.bss.erp) &&
            d.atim as int == (if Last(es, 6).Some? && |Last(es, 6).value| > 1
                              then Last(es, 6).value[0] as int + 256 * Last(es, 6).value[1] as int else s.bss.atim) &&
            (d.extra <==> s.bss.extra || Last(es, 133).Some?)
    decreases |es|
  {
    hide Apply;
    if es != [] {
      LastElementWins(Apply(s, es[0]), es[1..]);
      ApplyFields(s, es[0]);
      forall id | id in {DS_PARAM_SET, ERP_INFO, IBSS_PARAM_SET} && Last(es[1..], id).Some?
        ensures Fits(Element(id, Last(es[1..], id).value))
      {
        LastFits(es[1..], id);
      }
    }
  }

  /** The last of all FH and DS elements. */
  function LastNetwork(es: seq<Element>): Option<Network>
  {
    if es == [] then None
    else if LastNetwork(es[1..]).Some? then LastNetwork(es[1..])
    else if es[0].id == 2 then Some(FH)
    else if es[0].id == 3 then Some(DS)
    else None
  }

  /** It decides the kind of network. */
  lemma {:induction false} LastNetworkWins(s: Scan, es: seq<Element>)
    requires Shaped(s) && AllFit(es) && Fold(s, es).ok
    ensures Fold(s, es).scan.bss.network == OrElse(LastNetwork(es), s.bss.network)
    decreases |es|
  {
    hide Apply;
    if es != [] {
      LastNetworkWins(Apply(s, es[0]), es[1..]);
      ApplyFields(s, es[0]);
    }
  }

  predicate CarriesRates(e: Element) { e.id == 1 || e.id == 50 }

  predicate NoRates(es: seq<Element>) { forall i :: 0 <= i < |es| ==> !CarriesRates(es[i]) }

  lemma {:induction false} RatesUntouched(s: Scan, es: seq<Element>)
    requires Shaped(s) && AllFit(es) && NoRates(es)
    ensures var t := Fold(s, es).scan;
            t.bss.dataRates == s.bss.dataRates && t.bss.supportedRates == s.bss.supportedRates &&
            t.rateSize == s.rateSize && t.foundDataRateIE == s.foundDataRateIE
    decreases |es|
  {
    if es != [] && !BadCountry(es[0]) {
      RatesUntouched(Apply(s, es[0]), es[1..]);
    }
  }

  lemma {:induction false} FoldAppend(s: Scan, es: seq<Element>, fs: seq<Element>)
    requires Shaped(s) && AllFit(es + fs)
    ensures AllFit(es) && AllFit(fs)
    ensures Fold(s, es + fs) == if Fold(s, es).ok then Fold(Fold(s, es).scan, fs) else Fold(s, es)
    decreases |es|
  {
    hide Apply;
    assert forall i :: 0 <= i < |fs| ==> fs[i] == (es + fs)[|es| + i];
    assert forall i :: 0 <= i < |es| ==> es[i] == (es + fs)[i];
    if es == [] {
      assert es + fs == fs;
    } else if !BadCountry(es[0]) {
      FoldAppend(Apply(s, es[0]), es[1..], fs);
      assert (es + fs)[1..] == es[1..] + fs;
    }
  }

  /** The length of the last supported rates element. */
  function RatesBefore(es: seq<Element>): Option<nat>
  {
    if es == [] then None
    else
      var e := es[|es| - 1];
      if e.id == 1 then Some(|e.body|) else RatesBefore(es[..|es| - 1])
  }

  /** Byte k of the rate tables according to the last element that reaches it: supported rates
      from the start on, extended ones behind the last supported ones before them, if any. */
  function RateByte(es: seq<Element>, k: nat): Option<byte>
  {
    if es == [] then None
    else
      var e, init := es[|es| - 1], es[..|es| - 1];
      var m := RatesBefore(init);
      if e.id == 1 && k < |e.body| then Some(e.body[k])
      else if e.id == 50 && m.Some? && m.value <= k < m.value + |e.body| then Some(e.body[k - m.value])
      else RateByte(init, k)
  }

  /** On every list of elements this is what both tables hold. */
  lemma {:induction false} LastRateWins(s: Scan, es: seq<Element>, k: nat)
    requires Shaped(s) && !s.foundDataRateIE && AllFit(es) && Fold(s, es).ok && k < 14
    ensures var t := Fold(s, es).scan;
            t.foundDataRateIE == RatesBefore(es).Some? &&
            (t.foundDataRateIE ==> t.rateSize == RatesBefore(es).value) &&
            t.bss.dataRates[k] == OrElse(RateByte(es, k), s.bss.dataRates[k]) &&
            t.bss.supportedRates[k] == OrElse(RateByte(es, k), s.bss.supportedRates[k])
    decreases |es|
  {
    hide Apply, Fold;
    if es == [] {
      EmptyFold(s);
    } else {
      var init, e := es[..|es| - 1], es[|es| - 1];
      assert es == init + [e];
      FoldAppend(s, init, [e]);
      LastRateWins(s, init, k);
      var t := Fold(s, init).scan;
      FoldOne(t, e);
      ApplyRates(t, e, k);
    }
  }

  lemma EmptyFold(s: Scan)
    requires Shaped(s)
    ensures Fold(s, []) == Outcome(true, s)
  {
  }

  lemma FoldOne(s: Scan, e: Element)
    requires Shaped(s) && Fits(e)
    ensures Fold(s, [e]) == if BadCountry(e) then Outcome(false, s) else Outcome(true, Apply(s, e))
  {
    hide Apply;
  }

  lemma ApplyRates(s: Scan, e: Element, k: nat)
    requires Shaped(s) && Fits(e) && !BadCountry(e) && k < 14
    ensures var t, m := Apply(s, e), s.rateSize;
            t.foundDataRateIE == (s.foundDataRateIE || e.id == 1) &&
            t.rateSize == (if e.id == 1 then |e.body| else m) &&
            if e.id == 1 && k < |e.body| then t.bss.dataRates[k] == t.bss.supportedRates[k] == e.body[k]
            else if e.id == 50 && s.foundDataRateIE && m <= k < m + |e.body| then
              t.bss.dataRates[k] == t.bss.supportedRates[k] == e.body[k - m]
            else t.bss.dataRates[k] == s.bss.dataRates[k] && t.bss.supportedRates[k] == s.bss.supportedRates[k]
  {
    hide Vendor, Cut, Le16;
  }

  /** Both rate tables start with the first 14 of the supported rates followed by one later
      extended rates element; the rest of them is what was there before. */
  lemma RatesAreJoined(s: Scan, pre: seq<Element>, rates: Element, mid: seq<Element>, more: Element, post: seq<Element>)
    requires Shaped(s) && AllFit(pre + [rates] + mid + [more] + post)
    requires NoRates(pre) && NoRates(mid) && NoRates(post)
    requires rates.id == 1 && more.id == 50
    requires Fold(s, pre + [rates] + mid + [more] + post).ok
    ensures var d := Fold(s, pre + [rates] + mid + [more] + post).scan.bss;
            var joined := rates.body + more.body;
            var n := Min(|joined|, 14);
            d.dataRates == joined[..n] + s.bss.dataRates[n..] &&
            d.supportedRates == joined[..n] + s.bss.supportedRates[n..]
  {
    hide Apply;
    FoldAppend(s, pre + [rates] + mid + [more], post);
    FoldAppend(s, pre + [rates] + mid, [more]);
    FoldAppend(s, pre + [rates], mid);
    FoldAppend(s, pre, [rates]);
    var s1 := Fold(s, pre).scan;
    RatesUntouched(s, pre);
    OneElement(s1, rates);
    var s2 := Apply(s1, rates);
    RatesUntouched(s2, mid);
    var s3 := Fold(s2, mid).scan;
    OneElement(s3, more);
    var s4 := Apply(s3, more);
    RatesUntouched(s4, post);
    TwoPuts(s1, rates, s3, more);
  }

  lemma OneElement(s: Scan, e: Element)
    requires Shaped(s) && Fits(e)
    ensures !BadCountry(e) ==> Fold(s, [e]) == Outcome(true, Apply(s, e))
  {
    hide Apply;
  }

  lemma TwoPuts(s1: Scan, rates: Element, s3: Scan, more: Element)
    requires Shaped(s1) && Shaped(s3) && Fits(rates) && Fits(more)
    requires rates.id == SUPPORTED_RATES && more.id == EXTENDED_SUPPORTED_RATES
    requires var s2 := Apply(s1, rates);
             s3.rateSize == s2.rateSize && s3.foundDataRateIE == s2.foundDataRateIE &&
             s3.bss.dataRates == s2.bss.dataRates && s3.bss.supportedRates == s2.bss.supportedRates
    ensures var joined := rates.body + more.body;
            var n := Min(|joined|, RATES_SIZE);
            var d := Apply(s3, more).bss;
            d.dataRates == joined[..n] + s1.bss.dataRates[n..] &&
            d.supportedRates == joined[..n] + s1.bss.supportedRates[n..]
  {
    hide Put;
    PutPut(s1.bss.dataRates, rates.body, more.body);
    PutPut(s1.bss.supportedRates, rates.body, more.body);
  }

  lemma PutPut(r: seq<byte>, a: seq<byte>, b: seq<byte>)
    requires |r| == RATES_SIZE && |a| <= RATES_SIZE
    ensures var n := Min(|a + b|, RATES_SIZE);
            Put(Put(r, 0, a), |a|, b[..Min(|b|, RATES_SIZE - |a|)]) == (a + b)[..n] + r[n..]
  {
  }

  // ----- the structures that elements are copied into

  datatype Kind = Country | Wpa | Wmm | Rsn

  function Buffer(kind: Kind, b: Bss): seq<byte>
  {
    match kind
    case Country => b.country
    case Wpa => b.wpa
    case Wmm => b.wmm
    case Rsn => b.rsn
  }

  /** What an element writes over the start of such a structure. */
  function Image(kind: Kind, e: Element): (r: Option<seq<byte>>)
  {
    var whole, cut := Some(Raw(e)), Some(Cut(e));
    match kind
    case Country => if e.id == COUNTRY_INFO then whole else None
    case Wpa => if Vendor(e, WPA_TYPE) then cut else None
    case Wmm =>
      if Vendor(e, WMM_TYPE) && (|Raw(e)| == WMM_PARAMETER_SIZE || |Raw(e)| == WMM_INFO_SIZE) then whole else None
    case Rsn => if e.id == RSN_IE then cut else None
  }

  /** In bytes: the element itself, identifier and length first, of a WPA or RSN element at
      most 256 bytes. */
  lemma ImageBytes(e: Element)
    ensures var whole := [e.id, |e.body|] + e.body;
            var cut := whole[..Min(|whole|, 256)];
            Image(Country, e) == (if e.id == 7 then Some(whole) else None) &&
            Image(Wpa, e) == (if e.id == 221 && [0x00, 0x50, 0xf2, 0x01] <= e.body then Some(cut) else None) &&
            Image(Wmm, e) == (if e.id == 221 && [0x00, 0x50, 0xf2, 0x02] <= e.body && (|whole| == 26 || |whole| == 9)
                              then Some(whole) else None) &&
            Image(Rsn, e) == (if e.id == 48 then Some(cut) else None)
  {
    VendorBytes(e);
  }

  /** Byte k of the last image that is long enough to have one. */
  function LastByte(kind: Kind, es: seq<Element>, k: nat): Option<byte>
  {
    if es == [] then None
    else
      var x := Image(kind, es[0]);
      if LastByte(kind, es[1..], k).Some? then LastByte(kind, es[1..], k)
      else if x.Some? && k < |x.value| then Some(x.value[k])
      else None
  }

  lemma ApplyImage(s: Scan, e: Element, kind: Kind, k: nat)
    requires Shaped(s) && Fits(e) && !BadCountry(e) && k < |Buffer(kind, s.bss)|
    ensures |Buffer(kind, Apply(s, e).bss)| == |Buffer(kind, s.bss)|
    ensures var x := Image(kind, e);
            Buffer(kind, Apply(s, e).bss)[k] == if x.Some? && k < |x.value| then x.value[k] else Buffer(kind, s.bss)[k]
  {
    hide Apply, Cut, Vendor, BadCountry, Fits;
    match kind
    case Country => CountryImage(s, e);
    case Wpa => VendorImage(s, e);
    case Wmm => VendorImage(s, e);
    case Rsn => RsnImage(s, e);
  }

  lemma CountryImage(s: Scan, e: Element)
    requires Shaped(s) && Fits(e) && !BadCountry(e)
    ensures Apply(s, e).bss.country == if e.id == COUNTRY_INFO then Put(s.bss.country, 0, Raw(e)) else s.bss.country
  {
    hide Put, Le16, Vendor, Cut;
  }

  lemma VendorImage(s: Scan, e: Element)
    requires Shaped(s) && Fits(e) && !BadCountry(e)
    ensures Apply(s, e).bss.wpa == if Vendor(e, WPA_TYPE) then Put(s.bss.wpa, 0, Cut(e)) else s.bss.wpa
    ensures Apply(s, e).bss.wmm
            == if Vendor(e, WMM_TYPE) && (|Raw(e)| == WMM_PARAMETER_SIZE || |Raw(e)| == WMM_INFO_SIZE)
               then Put(s.bss.wmm, 0, Raw(e)) else s.bss.wmm
  {
    hide Put, Le16;
    if Vendor(e, WPA_TYPE) {
      assert e.body[3] == WPA_TYPE;
    }
  }

  lemma RsnImage(s: Scan, e: Element)
    requires Shaped(s) && Fits(e) && !BadCountry(e)
    ensures Apply(s, e).bss.rsn == if e.id == RSN_IE then Put(s.bss.rsn, 0, Cut(e)) else s.bss.rsn
  {
    hide Put, Le16, Cut;
  }

  /** Each byte of the country, WPA, WMM and RSN structures is that of the last element which
      reaches so far, or what was there before: a shorter element leaves the rest of a longer
      earlier one. */
  lemma {:induction false} LastByteWins(s: Scan, es: seq<Element>, kind: Kind, k: nat)
    requires Shaped(s) && AllFit(es) && Fold(s, es).ok && k < |Buffer(kind, s.bss)|
    ensures |Buffer(kind, Fold(s, es).scan.bss)| == |Buffer(kind, s.bss)|
    ensures Buffer(kind, Fold(s, es).scan.bss)[k] == OrElse(LastByte(kind, es, k), Buffer(kind, s.bss)[k])
    decreases |es|
  {
    hide Apply, Buffer, Image;
    if es != [] {
      ApplyImage(s, es[0], kind, k);
      LastByteWins(Apply(s, es[0]), es[1..], kind, k);
    }
  }
}
