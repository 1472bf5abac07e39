/** Beacons as the firmware hands them to the driver: six fixed fields, then information
    elements in the format of section 7.3.2 of IEEE 802.11-2007. */
module Elements {
  import opened Common

  // element ids that the parsers know
  const SSID: byte := 0
  const SUPPORTED_RATES: byte := 1
  const FH_PARAM_SET: byte := 2
  const DS_PARAM_SET: byte := 3
  const IBSS_PARAM_SET: byte := 6
  const COUNTRY_INFO: byte := 7
  const ERP_INFO: byte := 42
  const RSN_IE: byte := 48
  const EXTENDED_SUPPORTED_RATES: byte := 50
  const EXTRA_IE: byte := 133
  const VENDOR_SPECIFIC_221: byte := 221

  const MAC_SIZE: nat := 6            // MRVDRV_ETH_ADDR_LEN
  const FIXED_SIZE: nat := 19         // MAC, RSSI, time stamp, interval, capabilities
  const RATES_SIZE: nat := 14         // WLAN_SUPPORTED_RATES
  const SSID_SIZE: nat := 32          // WLAN_MAX_SSID_LENGTH
  const WMM_INFO_SIZE: nat := 9       // sizeof(IEEEtypes_WmmInfo_t)
  const WMM_PARAMETER_SIZE: nat := 26 // sizeof(IEEEtypes_WmmParameter_t)
  const IE_SIZE: nat := 256           // IEEE_MAX_IE_SIZE
  const COUNTRY_SIZE: nat := 254      // sizeof(IEEEtypes_CountryInfoFullSet_t)
  const BEACON_BUFFER_SIZE: nat := 512

  const OUI: seq<byte> := [0x00, 0x50, 0xf2]
  const WPA_TYPE: byte := 1
  const WMM_TYPE: byte := 2

  datatype AnyElement = Element(id: byte, body: seq<byte>)

  /** The length of an element is one byte. */
  type Element = e: AnyElement | |e.body| < 256 witness Element(0, [])

  datatype Beacon = Beacon(
    mac: seq<byte>,
    rssi: byte,
    timestamp: seq<byte>,
    interval: seq<byte>,
    capability: seq<byte>,
    elements: seq<Element>)

  function Raw(e: Element): (r: seq<byte>)
    ensures |r| == |e.body| + 2
  {
    [e.id, |e.body|] + e.body
  }

  function EncodeElements(es: seq<Element>): seq<byte>
  {
    if es == [] then [] else Raw(es[0]) + EncodeElements(es[1..])
  }

  function Encode(b: Beacon): seq<byte>
  {
    b.mac + [b.rssi] + b.timestamp + b.interval + b.capability + EncodeElements(b.elements)
  }

  /** A two-byte little-endian field. */
  function Le16(s: seq<byte>): nat
    requires |s| == 2
  {
    var low: nat, high: nat := s[0], s[1];
    low + 256 * high
  }

  predicate Privacy(capability: seq<byte>)
    requires |capability| == 2
  {
    capability[0] / 16 % 2 == 1
  }

  predicate Ibss(capability: seq<byte>)
    requires |capability| == 2
  {
    capability[0] / 2 % 2 == 1
  }

  /** A vendor element of the given type under the OUI 00-50-F2. */
  predicate Vendor(e: Element, kind: byte)
  {
    e.id == VENDOR_SPECIFIC_221 && OUI + [kind] <= e.body
  }

  /** The same in bytes, for the two types that are known. */
  lemma VendorBytes(e: Element)
    ensures Vendor(e, WPA_TYPE) <==> e.id == 221 && [0x00, 0x50, 0xf2, 0x01] <= e.body
    ensures Vendor(e, WMM_TYPE) <==> e.id == 221 && [0x00, 0x50, 0xf2, 0x02] <= e.body
  {
    assert OUI + [WPA_TYPE] == [0x00, 0x50, 0xf2, 0x01];
    assert OUI + [WMM_TYPE] == [0x00, 0x50, 0xf2, 0x02];
  }

  /** Long enough for the fields that are read, short enough for where it is copied to. */
  predicate WellFormed(e: Element)
  {
    (e.id == SUPPORTED_RATES ==> |e.body| <= RATES_SIZE) &&
    (e.id == DS_PARAM_SET ==> |e.body| >= 1) &&
    (e.id == VENDOR_SPECIFIC_221 ==> !(e.body <= OUI))
  }

  predicate FixedSizes(b: Beacon)
  {
    |b.mac| == MAC_SIZE && |b.timestamp| == 8 && |b.interval| == 2 && |b.capability| == 2
  }

  /** The body of the last element with the given id. */
  function Last(es: seq<Element>, id: byte): (r: Option<seq<byte>>)
    ensures r.Some? ==> |r.value| < 256
  {
    if es == [] then None
    else if Last(es[1..], id).Some? then Last(es[1..], id)
    else if es[0].id == id then Some(es[0].body)
    else None
  }

  lemma {:induction false} LastIsSomeIffPresent(es: seq<Element>, id: byte)
    ensures Last(es, id).Some? <==> exists e :: e in es && e.id == id
    ensures Last(es, id).Some? ==> Element(id, Last(es, id).value) in es
  {
    if es != [] {
      LastIsSomeIffPresent(es[1..], id);
      assert es == [es[0]] + es[1..] && es[0] in es;
      if Last(es[1..], id).None? && es[0].id == id {
        assert es[0] == Element(id, es[0].body);
      }
    }
  }

  /** The first element of an encoding can be read off its bytes. */
  lemma DecodeFirst(es: seq<Element>)
    ensures es == [] <==> |EncodeElements(es)| < 2
    ensures es == [] ==> EncodeElements(es) == []
    ensures es != [] ==>
              var bytes, e := EncodeElements(es), es[0];
              bytes[0] == e.id && bytes[1] == |e.body| && |e.body| + 2 <= |bytes| &&
              bytes[2..|e.body| + 2] == e.body && bytes[..|e.body| + 2] == Raw(e) &&
              bytes[|e.body| + 2..] == EncodeElements(es[1..])
  {
  }

  /** Where the fields of an encoded beacon are. */
  lemma EncodedFields(b: Beacon)
    requires FixedSizes(b)
    ensures var bytes := Encode(b);
            |bytes| == FIXED_SIZE + |EncodeElements(b.elements)| &&
            bytes[..6] == b.mac && bytes[6] == b.rssi && bytes[7..15] == b.timestamp &&
            bytes[15..17] == b.interval && bytes[17..19] == b.capability &&
            bytes[FIXED_SIZE..] == EncodeElements(b.elements)
  {
  }

  // ----- descriptions in the response buffer

  /** The two-byte length that precedes a description, or 0 where it cannot be read. */
  function SizeAt(buf: seq<byte>, cursor: nat, bytesLeft: nat): nat
    requires cursor + bytesLeft <= |buf|
  {
    if bytesLeft >= 2 then Le16(buf[cursor..cursor + 2]) else 0
  }

  predicate HasDescription(buf: seq<byte>, cursor: nat, bytesLeft: nat)
    requires cursor + bytesLeft <= |buf|
  {
    bytesLeft >= 2 && 0 < SizeAt(buf, cursor, bytesLeft) <= bytesLeft - 2
  }

  /** There is one if the little-endian length can be read, is not 0 and does not exceed what
      follows. */
  lemma SizeIsLittleEndian(buf: seq<byte>, cursor: nat, bytesLeft: nat)
    requires cursor + bytesLeft <= |buf|
    ensures bytesLeft >= 2 ==>
              var size := buf[cursor] as int + 256 * buf[cursor + 1] as int;
              SizeAt(buf, cursor, bytesLeft) == size &&
              (HasDescription(buf, cursor, bytesLeft) <==> 0 < size && size + 2 <= bytesLeft)
    ensures bytesLeft < 2 ==> !HasDescription(buf, cursor, bytesLeft)
  {
  }

  /** The bytes after the length. */
  function Description(buf: seq<byte>, cursor: nat, bytesLeft: nat): seq<byte>
    requires cursor + bytesLeft <= |buf| && HasDescription(buf, cursor, bytesLeft)
  {
    buf[cursor + 2..cursor + 2 + SizeAt(buf, cursor, bytesLeft)]
  }

  /** buf[at..] overwritten with bytes. */
  function Put(buf: seq<byte>, at: nat, bytes: seq<byte>): (r: seq<byte>)
    requires at + |bytes| <= |buf|
    ensures |r| == |buf|
  {
    buf[..at] + bytes + buf[at + |bytes|..]
  }

  /** rt_memcmp of a vendor element's first four bytes, which stops at a difference. The
      element's body is buf[at..at + len]. */
  method SameOui(buf: seq<byte>, at: nat, len: nat, kind: byte) returns (same: bool)
    requires at + len <= |buf| && !(buf[at..at + len] <= OUI)
    ensures same <==> OUI + [kind] <= buf[at..at + len]
  {
    var oui := OUI + [kind];
    ghost var body := buf[at..at + len];
    var i := 0;
    assert body[..|body|] == body;
    while i < 4
      invariant 0 <= i <= 4 && i <= len && body[..i] == oui[..i]
      invariant i < 4 ==> i < len
    {
      if buf[at + i] != oui[i] {
        assert body[i] != oui[i];
        return false;
      }
      assert body[..i + 1] == body[..i] + [body[i]];
      i := i + 1;
    }
    same := true;
  }
}
