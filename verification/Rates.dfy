/** The rates that an access point and the card have in common, for the association. */
module Rates {
  import opened Common

  const RATES: nat := 14              // WLAN_SUPPORTED_RATES, G_SUPPORTED_RATES
  const SUCCESS: int := 0
  const FAILURE: int := -1
  const ENOMEM: int := 12

  /** SupportedRates, the card's table. */
  const CARD_RATES: seq<byte> :=
    [0x82, 0x84, 0x8b, 0x96, 0x0c, 0x12, 0x18, 0x24, 0x30, 0x48, 0x60, 0x6c, 0, 0]

  /** The entries before the first zero. */
  function Listed(s: seq<byte>): (r: seq<byte>)
    ensures r <= s && 0 !in r
    ensures |r| < |s| ==> s[|r|] == 0
  {
    if s == [] || s[0] == 0 then [] else [s[0]] + Listed(s[1..])
  }

  /** The same rate, whether or not it is marked as basic. */
  predicate Same(a: byte, b: byte) { a % 0x80 == b % 0x80 }

  /** Two rates match if they are equal or differ in the top bit only. */
  lemma SameButForBasicBit(a: byte, b: byte)
    ensures Same(a, b) <==> a == b || a == b + 0x80 || b == a + 0x80
  {
  }

  function FirstMatch(ap: seq<byte>, r: byte): Option<byte>
  {
    if ap == [] then None else if Same(ap[0], r) then Some(ap[0]) else FirstMatch(ap[1..], r)
  }

  function AsSeq(o: Option<byte>): seq<byte> { if o.Some? then [o.value] else [] }

  /** For each card rate in order, the first matching rate of the access point. */
  function Intersection(ap: seq<byte>, card: seq<byte>): (r: seq<byte>)
    ensures |r| <= |card|
  {
    if card == [] then []
    else Intersection(ap, card[..|card| - 1]) + AsSeq(FirstMatch(ap, card[|card| - 1]))
  }

  function Zeros(n: nat): seq<byte> { seq(n, _ => 0) }

  /** s[i], or what lies behind s: both loops test an element before its index. */
  function Peek(s: seq<byte>, i: nat, beyond: byte): byte
    requires i <= |s|
  {
    if i < |s| then s[i] else beyond
  }

  /** The inner loop: the first rate in tmp that matches r. */
  method Lookup(tmp: seq<byte>, r: byte, beyond: byte) returns (m: Option<byte>)
    ensures m == FirstMatch(Listed(tmp), r)
  {
    var j := 0;
    while Peek(tmp, j, beyond) != 0 && j < |tmp|
      invariant 0 <= j <= |tmp| && FirstMatch(Listed(tmp), r) == FirstMatch(Listed(tmp[j..]), r)
      decreases |tmp| - j
    {
      assert tmp[j..][1..] == tmp[j + 1..];
      if r % 0x80 == tmp[j] % 0x80 {
        return Some(tmp[j]);
      }
      j := j + 1;
    }
    m := None;
  }

  /** get_common_rates. The buffer rate1 must have room for one byte more than the card
      has rates, as it has for the card's table. beyond1 and beyond2 are the bytes behind
      the copy of rate1 and behind rate2. */
  method GetCommonRates(rate1: array<byte>, rate2: seq<byte>, automatic: bool, dataRate: nat,
                        memory: bool, beyond1: byte, beyond2: byte) returns (ret: int)
    requires |Listed(rate2)| < rate1.Length
    modifies rate1
    ensures !memory ==> ret == -ENOMEM && rate1[..] == old(rate1[..])
    ensures memory ==>
              var c := Intersection(Listed(old(rate1[..])), Listed(rate2));
              rate1[..] == c + Zeros(rate1.Length - |c|) &&
              ret == if automatic || Holds(c, dataRate) then SUCCESS else FAILURE
  {
    if !memory {
      return -ENOMEM;
    }
    var tmp := rate1[..];
    Intersect(rate1, tmp, rate2, beyond1, beyond2);
    ret := SUCCESS;
    if !automatic {
      IntersectionListed(Listed(tmp), Listed(rate2));
      var found := Search(rate1, dataRate, Intersection(Listed(tmp), Listed(rate2)));
      ret := if found then SUCCESS else FAILURE;
    }
  }

  /** c has the fixed rate that the user asked for. */
  predicate Holds(c: seq<byte>, dataRate: nat) { exists x :: x in c && x % 0x80 == dataRate }

  /** It is there with or without the basic bit. */
  lemma HoldsWithOrWithoutBasicBit(c: seq<byte>, dataRate: nat)
    ensures Holds(c, dataRate) <==> dataRate < 0x80 && exists x :: x in c && (x == dataRate || x == dataRate + 0x80)
  {
    forall x: byte
      ensures x % 0x80 == dataRate <==> dataRate < 0x80 && (x == dataRate || x == dataRate + 0x80)
    {
    }
  }

  /** The nested loops. */
  method Intersect(rate1: array<byte>, tmp: seq<byte>, rate2: seq<byte>, beyond1: byte, beyond2: byte)
    requires |Listed(rate2)| < rate1.Length
    modifies rate1
    ensures var c := Intersection(Listed(tmp), Listed(rate2)); rate1[..] == c + Zeros(rate1.Length - |c|)
  {
    hide Listed, FirstMatch, Same;
    ghost var ap, card := Listed(tmp), Listed(rate2);
    forall k | 0 <= k < rate1.Length {
      rate1[k] := 0;
    }
    var i, out := 0, 0;
    while Peek(rate2, i, beyond2) != 0 && i < |rate2|
      invariant 0 <= i <= |card| && out == |Intersection(ap, card[..i])|
      invariant rate1[..] == Intersection(ap, card[..i]) + Zeros(rate1.Length - out)
      decreases |rate2| - i
    {
      InListed(rate2, i);
      assert card[..i + 1][..i] == card[..i];
      var m := Lookup(tmp, rate2[i], beyond1);
      if m.Some? {
        ghost var was := rate1[..];
        rate1[out] := m.value;
        assert rate1[..] == was[out := m.value];
        out := out + 1;
      }
      i := i + 1;
    }
    assert card[..|card|] == card;
  }

  /** The search for the fixed rate, which the terminator ends. */
  method Search(rate1: array<byte>, dataRate: nat, ghost c: seq<byte>) returns (found: bool)
    requires |c| < rate1.Length && 0 !in c && rate1[..] == c + Zeros(rate1.Length - |c|)
    ensures found <==> Holds(c, dataRate)
  {
    var p := 0;
    assert forall k :: 0 <= k < rate1.Length ==> rate1[k] == rate1[..][k];
    assert forall k :: 0 <= k < |c| ==> c[k] in c;
    while rate1[p] != 0
      invariant 0 <= p <= |c|
      invariant forall k :: 0 <= k < p ==> c[k] % 0x80 != dataRate
      decreases |c| - p
    {
      if rate1[p] % 0x80 == dataRate {
        assert c[p] in c;
        return true;
      }
      p := p + 1;
    }
    found := false;
  }

  lemma InListed(s: seq<byte>, i: nat)
    requires i <= |Listed(s)| && i < |s| && s[i] != 0
    ensures i < |Listed(s)| && Listed(s)[i] == s[i]
  {
  }

  lemma {:induction false} IntersectionListed(ap: seq<byte>, card: seq<byte>)
    requires 0 !in ap
    ensures 0 !in Intersection(ap, card)
  {
    if card != [] {
      IntersectionListed(ap, card[..|card| - 1]);
      MatchIsInList(ap, card[|card| - 1]);
    }
  }

  lemma {:induction false} MatchIsInList(ap: seq<byte>, r: byte)
    ensures FirstMatch(ap, r).Some? ==> FirstMatch(ap, r).value in ap && Same(FirstMatch(ap, r).value, r)
    ensures FirstMatch(ap, r).None? ==> forall x :: x in ap ==> !Same(x, r)
  {
    if ap != [] {
      MatchIsInList(ap[1..], r);
      assert ap == [ap[0]] + ap[1..];
    }
  }

  /** strlen. */
  method StrLen(a: array<byte>) returns (n: nat)
    requires |Listed(a[..])| < a.Length
    ensures n == |Listed(a[..])|
  {
    n := 0;
    while a[n] != 0
      invariant n <= |Listed(a[..])|
      decreases |Listed(a[..])| - n
    {
      InListed(a[..], n);
      n := n + 1;
    }
    AtZero(a[..], n);
  }

  lemma AtZero(s: seq<byte>, n: nat)
    requires n <= |Listed(s)| && n < |s| && s[n] == 0
    ensures n == |Listed(s)|
  {
    var l := Listed(s);
    assert forall k :: 0 <= k < |l| ==> l[k] in l;
  }

  lemma CardTable()
    ensures Listed(CARD_RATES) == [0x82, 0x84, 0x8b, 0x96, 0x0c, 0x12, 0x18, 0x24, 0x30, 0x48, 0x60, 0x6c]
  {
    hide Listed;
    var c: seq<byte> := [0x82, 0x84, 0x8b, 0x96, 0x0c, 0x12, 0x18, 0x24, 0x30, 0x48, 0x60, 0x6c];
    ListedPadded(c, 2);
    assert CARD_RATES == c + Zeros(2);
  }

  lemma ListedPadded(c: seq<byte>, n: nat)
    requires 0 !in c
    ensures Listed(c + Zeros(n)) == c
  {
    if c != [] {
      ListedPadded(c[1..], n);
      assert (c + Zeros(n))[1..] == c[1..] + Zeros(n);
      assert forall x :: x in c[1..] ==> x in c;
    }
  }

  /** setup_rates_from_bssdesc: the rates for the association and their number. */
  method SetupRates(supported: seq<byte>, out: array<byte>, automatic: bool, dataRate: nat, memory: bool, beyond: byte)
    returns (ok: bool, size: nat)
    requires |supported| == RATES == out.Length
    modifies out
    ensures var c := Intersection(Listed(supported), Listed(CARD_RATES));
            ok == (memory && (automatic || Holds(c, dataRate))) &&
            (ok ==> size == |c| < RATES && out[..] == c + Zeros(RATES - size)) && (!ok ==> size == 0)
  {
    forall k | 0 <= k < RATES {
      out[k] := supported[k];
    }
    assert out[..] == supported;
    CardTable();
    var ret := GetCommonRates(out, CARD_RATES, automatic, dataRate, memory, beyond, 0);
    ok := ret == SUCCESS;
    size := 0;
    if ok {
      ghost var c := Intersection(Listed(supported), Listed(CARD_RATES));
      IntersectionListed(Listed(supported), Listed(CARD_RATES));
      ListedPadded(c, RATES - |c|);
      var n := StrLen(out);
      size := Min(n, RATES);
    }
  }

  // ----- what the intersection is

  /** For the card's rates one after another, */
  lemma {:induction false} IntersectionOfAll(ap: seq<byte>, a: seq<byte>, b: seq<byte>)
    ensures Intersection(ap, a + b) == Intersection(ap, a) + Intersection(ap, b)
  {
    hide FirstMatch, AsSeq;
    if b == [] {
      assert a + b == a;
    } else {
      var init := b[..|b| - 1];
      IntersectionOfAll(ap, a, init);
      assert (a + b)[..|a + b| - 1] == a + init;
      var x := AsSeq(FirstMatch(ap, b[|b| - 1]));
      assert Intersection(ap, a) + Intersection(ap, init) + x == Intersection(ap, a) + (Intersection(ap, init) + x);
    }
  }

  /** the first of the access point's rates that matches, as the access point has it. */
  lemma IntersectionOfOne(ap: seq<byte>, r: byte, i: nat)
    requires i <= |ap| && forall j :: 0 <= j < i ==> ap[j] % 0x80 != r % 0x80
    requires i < |ap| ==> ap[i] % 0x80 == r % 0x80
    ensures Intersection(ap, [r]) == if i < |ap| then [ap[i]] else []
  {
    assert [r][..0] == [];
    FirstMatchAt(ap, r, i);
  }

  lemma {:induction false} FirstMatchAt(ap: seq<byte>, r: byte, i: nat)
    requires i <= |ap| && forall j :: 0 <= j < i ==> ap[j] % 0x80 != r % 0x80
    requires i < |ap| ==> ap[i] % 0x80 == r % 0x80
    ensures FirstMatch(ap, r) == if i < |ap| then Some(ap[i]) else None
  {
    if i > 0 {
      FirstMatchAt(ap[1..], r, i - 1);
    }
  }

  predicate Has(s: seq<byte>, d: byte) { exists x :: x in s && Same(x, d) }

  lemma HasAppend(a: seq<byte>, b: seq<byte>, d: byte)
    ensures Has(a + b, d) <==> Has(a, d) || Has(b, d)
  {
  }

  /** A rate is in the result exactly if both sides have it. */
  lemma {:induction false} InBoth(ap: seq<byte>, card: seq<byte>, d: byte)
    ensures Has(Intersection(ap, card), d) <==> Has(ap, d) && Has(card, d)
  {
    if card != [] {
      var init, last := card[..|card| - 1], card[|card| - 1];
      InBoth(ap, init, d);
      HasAppend(Intersection(ap, init), AsSeq(FirstMatch(ap, last)), d);
      HasAppend(init, [last], d);
      assert card == init + [last];
      assert Has([last], d) <==> Same(last, d) by {
        assert last in [last];
      }
      MatchHas(ap, last, d);
    }
  }

  lemma MatchHas(ap: seq<byte>, r: byte, d: byte)
    ensures Has(AsSeq(FirstMatch(ap, r)), d) <==> Has(ap, d) && Same(r, d)
  {
    MatchIsInList(ap, r);
    var m := FirstMatch(ap, r);
    if m.Some? {
      assert m.value in AsSeq(m);
    }
  }

  lemma {:induction false} FirstMatchAppend(a: seq<byte>, b: seq<byte>, r: byte)
    ensures FirstMatch(a + b, r) == if FirstMatch(a, r).Some? then FirstMatch(a, r) else FirstMatch(b, r)
  {
    if a == [] {
      assert a + b == b;
    } else {
      FirstMatchAppend(a[1..], b, r);
      assert (a + b)[1..] == a[1..] + b;
    }
  }

  lemma {:induction false} MatchOfSame(ap: seq<byte>, q: byte, r: byte)
    requires Same(q, r)
    ensures FirstMatch(ap, q) == FirstMatch(ap, r)
  {
    if ap != [] {
      MatchOfSame(ap[1..], q, r);
    }
  }

  /** Looking a rate up in the intersection finds what looking it up in the access point's
      rates finds, if the card has the rate. */
  lemma {:induction false} LookupInIntersection(ap: seq<byte>, card: seq<byte>, r: byte)
    ensures FirstMatch(Intersection(ap, card), r)
            == if exists y :: y in card && Same(y, r) then FirstMatch(ap, r) else None
  {
    if card != [] {
      var init, last := card[..|card| - 1], card[|card| - 1];
      LookupInIntersection(ap, init, r);
      FirstMatchAppend(Intersection(ap, init), AsSeq(FirstMatch(ap, last)), r);
      MatchIsInList(ap, last);
      assert card == init + [last];
      if Same(last, r) {
        assert last in card;
        MatchOfSame(ap, last, r);
      } else {
        assert (exists y :: y in card && Same(y, r)) <==> (exists y :: y in init && Same(y, r));
      }
    }
  }

  /** Intersecting again, with all or some of the card's rates in the same order, gives what
      the access point's rates give: in particular nothing changes the second time. */
  lemma {:induction false} IntersectAgain(ap: seq<byte>, card: seq<byte>, again: seq<byte>)
    requires forall y :: y in again ==> y in card
    ensures Intersection(Intersection(ap, card), again) == Intersection(ap, again)
  {
    if again != [] {
      var init, last := again[..|again| - 1], again[|again| - 1];
      IntersectAgain(ap, card, init);
      LookupInIntersection(ap, card, last);
      assert last in card && Same(last, last);
    }
  }

  lemma Idempotent(ap: seq<byte>, card: seq<byte>)
    ensures Intersection(Intersection(ap, card), card) == Intersection(ap, card)
  {
    IntersectAgain(ap, card, card);
  }
}
