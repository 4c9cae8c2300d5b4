/** Which spellings of an IPv4 address `parse_ipv4` accepts: src/tunnel/pairing.cpp:72-97. */
module Ipv4Spelling {
  import opened Wire
  import opened Bytes
  import opened Decimal
  import opened Pairing

  /** Octet values in canonical decimal, with dots between. */
  function Spelled(octets: Bytes): (s: Bytes)
    requires octets != []
    ensures s != []
  {
    if |octets| == 1 then Numeral(octets[0])
    else Numeral(octets[0]) + [DOT] + Spelled(octets[1..])
  }

  /** The canonical spelling of an address. */
  function Dotted(v: nat): Bytes {
    Spelled(ToBe(v, 4))
  }

  /** Some octet of the text has three digits and begins with a zero. */
  predicate Padded(s: Bytes)
    decreases |s|
  {
    var k := DigitRun(s);
    (k == 3 && s[0] == ZERO) || (k < |s| && Padded(s[k + 1..]))
  }

  /** The leading zeros that the octet check lets pass: exactly those of three-digit octets. */
  lemma OctetCanonicalIff(s: Bytes)
    requires AllDigits(s) && OctetOk(s)
    ensures Canonical(s) <==> !(|s| == 3 && s[0] == ZERO)
    ensures s == Numeral(ValueOf(s)) <==> Canonical(s)
  {
    if |s| == 2 {
      TwoDigits(s);
    }
    NumeralCanonical(ValueOf(s));
    if Canonical(s) {
      NumeralOfValue(s);
    }
  }

  /** Two texts that each start with digits and a dot. */
  lemma SameFirstOctet(a: Bytes, x: Bytes, b: Bytes, y: Bytes)
    requires AllDigits(a) && AllDigits(b)
    ensures a + [DOT] + x == b + [DOT] + y <==> a == b && x == y
  {
    hide DigitRun;
    var s, t := a + [DOT] + x, b + [DOT] + y;
    assert s[..|a|] == a && t[..|b|] == b;
    DigitRunIs(s, |a|);
    DigitRunIs(t, |b|);
    assert s[|a| + 1..] == x && t[|b| + 1..] == y;
  }

  lemma FromBeMore(pre: Bytes, o: U8)
    ensures FromBe(pre + [o]) == FromBe(pre) * 256 + o
  {
    assert (pre + [o])[..|pre|] == pre;
  }

  lemma OctetByte(d: Bytes)
    requires AllDigits(d) && OctetOk(d)
    ensures 0 < |d| <= 3 && ValueOf(d) < 256
  {
  }

  lemma NumeralDigits(o: nat)
    ensures AllDigits(Numeral(o))
  {
    NumeralCanonical(o);
  }

  /** The octets read from `s` after the octets `pre`, and when `s` is their canonical spelling. */
  lemma {:induction false} SpellingFrom(s: Bytes, pre: Bytes) returns (octets: Bytes)
    requires Ipv4From(s, |pre|, FromBe(pre)).Some?
    ensures |pre| < 4 && |octets| == 4 - |pre|
    ensures Ipv4From(s, |pre|, FromBe(pre)) == Some(FromBe(pre + octets))
    ensures s == Spelled(octets) <==> !Padded(s)
    decreases |s|
  {
    hide DigitRun, ValueOf, OctetOk, Numeral, FromBe;
    var k := DigitRun(s);
    var d := s[..k];
    OctetCanonicalIff(d);
    OctetByte(d);
    var o: U8 := ValueOf(d);
    FromBeMore(pre, o);
    if k == |s| {
      assert d == s;
      octets := [o];
    } else {
      var rest := SpellingFrom(s[k + 1..], pre + [o]);
      octets := [o] + rest;
      assert pre + [o] + rest == pre + octets && octets[1..] == rest;
      assert s == d + [DOT] + s[k + 1..];
      NumeralDigits(o);
      SameFirstOctet(d, s[k + 1..], Numeral(o), Spelled(rest));
    }
  }

  /** An accepted text is the canonical spelling of its address if and only if no octet is padded with zeros. */
  lemma CanonicalIff(s: Bytes)
    requires ParseIpv4(s).Some?
    ensures s == Dotted(ParseIpv4(s).value) <==> !Padded(s)
  {
    assert FromBe([]) == 0;
    var octets := SpellingFrom(s, []);
    assert [] + octets == octets;
    ToBeFromBe(octets);
  }

  lemma NumeralOctet(o: nat)
    requires o < 256
    ensures AllDigits(Numeral(o)) && OctetOk(Numeral(o)) && ValueOf(Numeral(o)) == o
  {
    ValueOfNumeral(o);
    assert Pow10(3) == 1000;
    NumeralLength(o, 3);
  }

  lemma FirstOctet(d: Bytes, rest: Bytes, octets: nat, v: nat)
    requires AllDigits(d) && OctetOk(d) && rest != [] && octets < 4
    ensures Ipv4From(d + [DOT] + rest, octets, v) == Ipv4From(rest, octets + 1, v * 256 + ValueOf(d))
  {
    hide DigitRun, ValueOf, OctetOk;
    var s := d + [DOT] + rest;
    assert s[..|d|] == d && s[|d| + 1..] == rest;
    DigitRunIs(s, |d|);
  }

  lemma {:induction false} SpelledParses(octets: Bytes, pre: Bytes)
    requires |pre| < 4 && |octets| == 4 - |pre|
    ensures Ipv4From(Spelled(octets), |pre|, FromBe(pre)) == Some(FromBe(pre + octets))
    decreases |octets|
  {
    hide Ipv4From, ValueOf, OctetOk, Numeral, FromBe;
    var o := octets[0];
    NumeralOctet(o);
    FromBeMore(pre, o);
    if |octets| == 1 {
      assert octets == [o];
      LastOctet(Numeral(o), FromBe(pre));
    } else {
      SpelledParses(octets[1..], pre + [o]);
      assert pre + [o] + octets[1..] == pre + octets;
      FirstOctet(Numeral(o), Spelled(octets[1..]), |pre|, FromBe(pre));
    }
  }

  /** Every address is read from its canonical spelling. */
  lemma DottedParses(v: nat)
    requires v < 0x1_0000_0000
    ensures ParseIpv4(Dotted(v)) == Some(v)
  {
    hide Ipv4From, Spelled, ToBe;
    assert FromBe([]) == 0;
    SpelledParses(ToBe(v, 4), []);
    assert [] + ToBe(v, 4) == ToBe(v, 4);
    Widths();
    FromBeToBe(v, 4);
  }

  const PLAIN: Bytes := [49, 48, 46, 55, 55, 46, 55, 55, 46, 49, 48]          // "10.77.77.10"
  const WITH_ZERO: Bytes := [49, 48, 46, 55, 55, 46, 55, 55, 46, 48, 49, 48]  // "10.77.77.010"

  /** A leading zero that the comment in the source says is rejected: two texts for one address. */
  lemma LeadingZeroAccepted()
    ensures ParseIpv4(PLAIN) == Some(0x0A4D_4D0A) && ParseIpv4(WITH_ZERO) == Some(0x0A4D_4D0A)
  {
    hide Ipv4From;
    var two: Bytes, three: Bytes := [49, 48], [48, 49, 48];
    TwoDigits(two);
    assert three[..2] == [48, 49];
    TwoDigits(three[..2]);
    assert ValueOf(three) == ValueOf(three[..2]) * 10 + 0;
    TunnelText(two);
    TunnelText(three);
    assert PLAIN == InTunnel(two) && WITH_ZERO == InTunnel(three);
  }

  /** "10.77.77." and a last octet. */
  function InTunnel(d: Bytes): (s: Bytes)
    ensures s != []
  {
    [49, 48] + [DOT] + ([55, 55] + [DOT] + ([55, 55] + [DOT] + d))
  }

  lemma TunnelText(d: Bytes)
    requires AllDigits(d) && OctetOk(d)
    ensures ParseIpv4(InTunnel(d)) == Some(0x0A4D_4D00 + ValueOf(d))
  {
    hide Ipv4From, ValueOf;
    var ten: Bytes, seventy: Bytes := [49, 48], [55, 55];
    TwoDigits(ten);
    TwoDigits(seventy);
    var c := seventy + [DOT] + d;
    var b := seventy + [DOT] + c;
    FirstOctet(ten, b, 0, 0);
    FirstOctet(seventy, c, 1, 10);
    FirstOctet(seventy, d, 2, 0x0A4D);
    LastOctet(d, 0x0A4D4D);
  }
}
