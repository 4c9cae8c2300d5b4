/** Pairing descriptors and their validators: src/tunnel/pairing.cpp:72-366. */
module Pairing {
  import opened Wire
  import opened Bytes
  import opened Decimal
  import opened Base64

  const NEWLINE: U8 := 10
  const DASH: U8 := 45
  const DOT: U8 := 46
  const SLASH: U8 := 47
  const COLON: U8 := 58

  /** Printable: no control character, in particular no newline. */
  ghost predicate Printable(s: Bytes) {
    forall i :: 0 <= i < |s| ==> s[i] > 32
  }

  // ---- IPv4 ----

  /** Length of the leading run of digits. */
  function DigitRun(s: Bytes): (k: nat)
    ensures k <= |s| && AllDigits(s[..k]) && (k < |s| ==> !IsDigit(s[k]))
  {
    if s == [] || !IsDigit(s[0]) then 0
    else
      var k := DigitRun(s[1..]);
      assert s[..1 + k] == [s[0]] + s[1..][..k];
      1 + k
  }

  /** One octet: at most three digits, at most 255, and not two digits or more for a value below ten. */
  predicate OctetOk(s: Bytes)
    requires AllDigits(s)
  {
    0 < |s| <= 3 && (|s| > 1 ==> ValueOf(s) >= 10) && ValueOf(s) <= 255
  }

  /** The rest of the address, with `octets` octets read so far. */
  function Ipv4From(s: Bytes, octets: nat, v: nat): Option<nat>
    decreases |s|
  {
    var k := DigitRun(s);
    if !OctetOk(s[..k]) || octets >= 4 then None
    else
      var w := v * 256 + ValueOf(s[..k]);
      if k == |s| then (if octets == 3 then Some(w) else None)
      else if s[k] != DOT || k + 1 == |s| then None
      else Ipv4From(s[k + 1..], octets + 1, w)
  }

  function ParseIpv4(s: Bytes): Option<nat> {
    if s == [] then None else Ipv4From(s, 0, 0)
  }

  lemma {:induction false} Ipv4Text(s: Bytes, octets: nat, v: nat)
    requires Ipv4From(s, octets, v).Some?
    ensures octets < 4 && 0 < |s| <= 4 * (4 - octets) - 1
    ensures forall i :: 0 <= i < |s| ==> IsDigit(s[i]) || s[i] == DOT
    decreases |s|
  {
    var k := DigitRun(s);
    assert forall i :: 0 <= i < k ==> s[..k][i] == s[i];
    if k < |s| {
      Ipv4Text(s[k + 1..], octets + 1, v * 256 + ValueOf(s[..k]));
      assert forall i :: k < i < |s| ==> s[i] == s[k + 1..][i - k - 1];
    }
  }

  // ---- tunnel addresses ----

  /** 10.77.77.0, the network of `kTunnelSubnet`. */
  const SUBNET: nat := 0x0A4D_4D00

  predicate ValidTunnelIp(s: Bytes) {
    var v := ParseIpv4(s);
    v.Some? && v.value / 256 == SUBNET / 256 && v.value % 256 != 0 && v.value % 256 != 255
  }

  /** Position of the first `c`, or the length. */
  function FirstOf(s: Bytes, c: U8): (i: nat)
    ensures i <= |s| && (forall j :: 0 <= j < i ==> s[j] != c) && (i < |s| ==> s[i] == c)
  {
    if s == [] || s[0] == c then 0 else 1 + FirstOf(s[1..], c)
  }

  datatype Cidr = Cidr(addr: nat, len: nat)

  function SplitCidr(s: Bytes): Option<Cidr> {
    var slash := FirstOf(s, SLASH);
    if slash == |s| then None
    else
      var l := s[slash + 1..];
      if |l| == 0 || |l| > 2 || !AllDigits(l) || (|l| > 1 && l[0] == ZERO) || ValueOf(l) > 32 then None
      else
        var a := ParseIpv4(s[..slash]);
        if a.None? then None else Some(Cidr(a.value, ValueOf(l)))
  }

  /** Only a host route to an address of the tunnel subnet is installed. */
  predicate RouteAllowed(s: Bytes) {
    var c := SplitCidr(s);
    && c.Some? && c.value.len == 32
    && c.value.addr != 0 && c.value.addr / 0x100_0000 != 127 && c.value.addr / 0x1000_0000 != 0xE
    && c.value.addr != 0xFFFF_FFFF
    && ValidTunnelIp(s[..FirstOf(s, SLASH)])
  }

  const HOST_ROUTE: Bytes := [47, 51, 50]  // "/32"

  lemma TunnelIpText(s: Bytes)
    requires ValidTunnelIp(s)
    ensures 0 < |s| <= 15 && Printable(s) && SLASH !in s
  {
    Ipv4Text(s, 0, 0);
  }

  /** The route to a valid tunnel address is always permitted. */
  lemma TunnelRouteAllowed(s: Bytes)
    requires ValidTunnelIp(s)
    ensures RouteAllowed(s + HOST_ROUTE)
  {
    hide ParseIpv4;
    TunnelIpText(s);
    var r := s + HOST_ROUTE;
    var i := FirstOf(r, SLASH);
    assert r[|s|] == SLASH;
    assert i == |s| && r[..i] == s && r[i + 1..] == [51, 50];
    assert [51, 50][..1] == [51] && [51][..0] == [];
    assert ValueOf([51]) == 3;
  }

  const TUNNEL_SUBNET: Bytes := [49, 48, 46, 55, 55, 46, 55, 55, 46, 48, 47, 50, 52]  // "10.77.77.0/24"

  lemma {:induction false} DigitRunIs(s: Bytes, k: nat)
    requires k <= |s| && AllDigits(s[..k]) && (k == |s| || !IsDigit(s[k]))
    ensures DigitRun(s) == k
    decreases k
  {
    if k > 0 {
      assert s[..k][0] == s[0] && s[1..][..k - 1] == s[..k][1..];
      DigitRunIs(s[1..], k - 1);
    }
  }

  lemma TwoDigitOctet(s: Bytes, octets: nat, v: nat)
    requires |s| > 3 && AllDigits(s[..2]) && s[0] != ZERO && s[2] == DOT && octets < 4
    ensures Ipv4From(s, octets, v) == Ipv4From(s[3..], octets + 1, v * 256 + (s[0] - ZERO) * 10 + (s[1] - ZERO))
  {
    DigitRunIs(s, 2);
    TwoDigits(s[..2]);
  }

  lemma OneDigit(s: Bytes)
    requires |s| == 1 && AllDigits(s)
    ensures ValueOf(s) == s[0] - ZERO
  {
    assert s[..0] == [];
  }

  lemma TwoDigits(s: Bytes)
    requires |s| == 2 && AllDigits(s)
    ensures ValueOf(s) == (s[0] - ZERO) * 10 + (s[1] - ZERO)
  {
    assert s[..1][..0] == [];
    assert ValueOf(s[..1]) == s[0] - ZERO;
  }

  lemma LastOctet(d: Bytes, v: nat)
    requires AllDigits(d) && OctetOk(d)
    ensures Ipv4From(d, 3, v) == Some(v * 256 + ValueOf(d))
  {
    assert d[..|d|] == d;
    DigitRunIs(d, |d|);
  }

  const NETWORK: Bytes := [49, 48, 46, 55, 55, 46, 55, 55, 46, 48]  // "10.77.77.0"

  lemma NetworkParses()
    ensures ParseIpv4(NETWORK) == Some(SUBNET)
  {
    hide Ipv4From;
    var b: Bytes := [55, 55, 46, 55, 55, 46, 48];
    var c: Bytes := [55, 55, 46, 48];
    assert NETWORK[3..] == b && b[3..] == c && c[3..] == [48];
    TwoDigitOctet(NETWORK, 0, 0);
    TwoDigitOctet(b, 1, 10);
    TwoDigitOctet(c, 2, 0x0A4D);
    OneDigit([ZERO]);
    LastOctet([ZERO], 0x0A4D4D);
  }

  lemma {:induction false} FirstOfIs(s: Bytes, c: U8, i: nat)
    requires i < |s| && s[i] == c && c !in s[..i]
    ensures FirstOf(s, c) == i
  {
  }

  /** The subnet constant is what the source parses out of `kTunnelSubnet`. */
  lemma SubnetParses()
    ensures SplitCidr(TUNNEL_SUBNET) == Some(Cidr(SUBNET, 24))
  {
    hide ParseIpv4, ValueOf, FirstOf;
    var s := TUNNEL_SUBNET;
    assert s[..10] == NETWORK && s[11..] == [50, 52];
    FirstOfIs(s, SLASH, 10);
    TwoDigits(s[11..]);
    NetworkParses();
  }

  // ---- endpoint hosts ----

  function HexValue(c: U8): Option<nat> {
    if IsDigit(c) then Some(c - ZERO)
    else if 97 <= c <= 102 then Some(c - 87)
    else if 65 <= c <= 70 then Some(c - 55)
    else None
  }

  /** Length of the leading run of hexadecimal digits. */
  function HexRun(s: Bytes): (k: nat)
    ensures k <= |s| && forall i :: 0 <= i < k ==> HexValue(s[i]).Some?
  {
    if s == [] || HexValue(s[0]).None? then 0 else 1 + HexRun(s[1..])
  }

  function HexNumber(s: Bytes): nat
    requires forall i :: 0 <= i < |s| ==> HexValue(s[i]).Some?
  {
    if s == [] then 0 else HexNumber(s[..|s| - 1]) * 16 + HexValue(s[|s| - 1]).value
  }

  datatype Groups = Groups(head: seq<nat>, tail: seq<nat>, gap: bool)

  function AddGroup(g: Groups, x: nat): Groups {
    if g.gap then g.(tail := g.tail + [x]) else g.(head := g.head + [x])
  }

  /** The loop over colon-separated groups with at most one "::". */
  function Ipv6From(s: Bytes, g: Groups): Option<Groups>
    decreases |s|
  {
    var k := HexRun(s);
    if k == 0 || k > 4 || |g.head| + |g.tail| >= 8 then None
    else
      var h := AddGroup(g, HexNumber(s[..k]));
      if k == |s| then Some(h)
      else if s[k] != COLON || k + 1 == |s| then None
      else if s[k + 1] == COLON then
        if g.gap then None
        else if k + 2 == |s| then Some(h.(gap := true))
        else Ipv6From(s[k + 2..], h.(gap := true))
      else Ipv6From(s[k + 1..], h)
  }

  /** The eight groups of a bracketless IPv6 literal. */
  function ParseIpv6(s: Bytes): (r: Option<seq<nat>>)
    ensures r.Some? ==> |r.value| == 8
  {
    if s == [] || |s| > 45 then None
    else if s == [COLON, COLON] then Some([0, 0, 0, 0, 0, 0, 0, 0])
    else if s[0] == COLON && (|s| < 2 || s[1] != COLON) then None
    else
      var r := if s[0] == COLON then Ipv6From(s[2..], Groups([], [], true)) else Ipv6From(s, Groups([], [], false));
      if r.None? then None
      else
        var g := r.value;
        var total := |g.head| + |g.tail|;
        if (if g.gap then total > 7 else total != 8) then None
        else Some(g.head + seq(8 - total, _ => 0) + g.tail)
  }

  lemma {:induction false} Ipv6Text(s: Bytes, g: Groups)
    requires Ipv6From(s, g).Some?
    ensures Printable(s)
    decreases |s|
  {
    hide HexNumber, AddGroup, HexRun, HexValue, Printable;
    var k := HexRun(s);
    var h := AddGroup(g, HexNumber(s[..k]));
    if k == |s| {
      GroupPrintable(s, k, k);
    } else if s[k + 1] == COLON {
      if k + 2 < |s| {
        Ipv6Text(s[k + 2..], h.(gap := true));
      }
      GroupPrintable(s, k, k + 2);
    } else {
      Ipv6Text(s[k + 1..], h);
      GroupPrintable(s, k, k + 1);
    }
  }

  /** One group, its colons and a printable rest. */
  lemma GroupPrintable(s: Bytes, k: nat, m: nat)
    requires k <= m <= |s| && (m < |s| ==> Printable(s[m..]))
    requires forall i :: 0 <= i < k ==> HexValue(s[i]).Some?
    requires forall i :: k <= i < m ==> s[i] == COLON
    ensures Printable(s)
  {
    HexPrintable(s, k);
    SuffixPrintable(s, m);
  }

  lemma HexPrintable(s: Bytes, k: nat)
    requires k <= |s| && forall i :: 0 <= i < k ==> HexValue(s[i]).Some?
    ensures forall i :: 0 <= i < k ==> s[i] > 32
  {
  }

  lemma SuffixPrintable(s: Bytes, k: nat)
    requires k <= |s| && Printable(s[k..])
    ensures forall i :: k <= i < |s| ==> s[i] > 32
  {
    assert forall i :: k <= i < |s| ==> s[i] == s[k..][i - k];
  }

  predicate UsableIpv4(v: nat) {
    v != 0 && v != 0xFFFF_FFFF && v / 0x100_0000 != 127 && v / 0x1000_0000 != 0xE && v / 0x1000_0000 != 0xF
  }

  predicate IsAlnum(c: U8) {
    IsDigit(c) || 65 <= c <= 90 || 97 <= c <= 122
  }

  /** The loop over the characters of a name; `seen` characters of the current label have been seen. */
  predicate LabelsOk(h: Bytes, seen: nat) {
    if h == [] then seen > 0
    else if h[0] == DOT then seen > 0 && LabelsOk(h[1..], 0)
    else
      && (IsAlnum(h[0]) || h[0] == DASH)
      && (h[0] == DASH ==> seen > 0 && |h| > 1 && h[1] != DOT)
      && seen < 63
      && LabelsOk(h[1..], seen + 1)
  }

  predicate ValidHostname(h: Bytes) {
    && h != [] && |h| <= 253 && h[0] != DOT && h[|h| - 1] != DOT
    && LabelsOk(h, 0)
    && exists i :: 0 <= i < |h| && !IsDigit(h[i]) && h[i] != DOT
  }

  predicate ValidHost(h: Bytes) {
    && h != [] && |h| <= 255
    && if h[0] == 91 then
         && |h| >= 4 && h[|h| - 1] == 93
         && var a := ParseIpv6(h[1..|h| - 1]);
            && a.Some?
            && a.value != [0, 0, 0, 0, 0, 0, 0, 0] && a.value != [0, 0, 0, 0, 0, 0, 0, 1]
            && a.value[0] / 256 != 0xFF
       else if ParseIpv4(h).Some? then UsableIpv4(ParseIpv4(h).value)
       else ValidHostname(h)
  }

  lemma {:induction false} LabelsText(h: Bytes, seen: nat)
    requires LabelsOk(h, seen)
    ensures Printable(h)
  {
    if h != [] {
      LabelsText(h[1..], if h[0] == DOT then 0 else seen + 1);
      assert forall i :: 1 <= i < |h| ==> h[i] == h[1..][i - 1];
    }
  }

  lemma HostText(h: Bytes)
    requires ValidHost(h)
    ensures 0 < |h| <= 255 && Printable(h)
  {
    hide ParseIpv6, Ipv4From, LabelsOk, UsableIpv4;
    if h[0] == 91 {
      Ipv6Printable(h[1..|h| - 1]);
      assert forall i :: 1 <= i < |h| - 1 ==> h[i] == h[1..|h| - 1][i - 1];
    } else if ParseIpv4(h).Some? {
      Ipv4Text(h, 0, 0);
    } else {
      LabelsText(h, 0);
    }
  }

  lemma Ipv6Printable(s: Bytes)
    requires ParseIpv6(s).Some?
    ensures Printable(s)
  {
    hide Ipv6From;
    if s != [COLON, COLON] {
      if s[0] == COLON {
        Ipv6Text(s[2..], Groups([], [], true));
        assert forall i :: 2 <= i < |s| ==> s[i] == s[2..][i - 2];
      } else {
        Ipv6Text(s, Groups([], [], false));
      }
    }
  }

  // ---- keys and ports ----

  /** 32 bytes in canonical padded base64. */
  predicate ValidKey(s: Bytes) {
    && |s| == 44 && s[43] == PAD && s[42] != PAD
    && var raw := DecodeStrict(Std, s, true);
       raw.Some? && |raw.value| == 32
  }

  lemma KeyBody(s: Bytes)
    requires |s| == 44 && s[43] == PAD && s[42] != PAD
    ensures StripPad(s) == s[..43]
  {
    assert s[..43][42] == s[42];
  }

  lemma KeyText(s: Bytes)
    requires ValidKey(s)
    ensures Printable(s)
  {
    hide DecodeFrom, StripPad;
    KeyBody(s);
    DecodedSymbols(Std, s[..43], 0, 0);
    NoPad(Std, s[..43]);
    assert forall i :: 0 <= i < 43 ==> s[i] == s[..43][i];
  }

  /** A key has exactly one spelling. */
  lemma KeySpelling(s: Bytes)
    requires ValidKey(s)
    ensures s == Encode(Std, DecodeStrict(Std, s, true).value) + Padding(32)
  {
    hide DecodeFrom, StripPad, Encode;
    KeyBody(s);
    EncodeDecode(Std, s[..43], DecodeStrict(Std, s, true).value);
    assert s == s[..43] + [PAD];
  }

  function ParsePort(s: Bytes): Option<U16> {
    if s == [] || |s| > 5 || !AllDigits(s) || (|s| > 1 && s[0] == ZERO) then None
    else if ValueOf(s) < 1 || ValueOf(s) > 65535 then None
    else Some(ValueOf(s))
  }

  lemma PortBijection(s: Bytes, n: U16)
    requires n > 0
    ensures ParsePort(s) == Some(n) <==> s == Numeral(n)
    ensures |Numeral(n)| <= 5 && Printable(Numeral(n))
  {
    hide Numeral, ValueOf;
    NumeralCanonical(n);
    ValueOfNumeral(n);
    assert Pow10(3) == 1000 && Pow10(5) == 100000;
    NumeralLength(n, 5);
    if ParsePort(s) == Some(n) {
      NumeralOfValue(s);
    }
  }

  // ---- fields ----

  function Line(k: U8, v: Bytes): Bytes {
    [k, 61] + v
  }

  /** "k=v" lines separated by newlines. */
  function Join(keys: Bytes, vals: seq<Bytes>): Bytes
    requires |keys| == |vals| > 0
  {
    if |keys| == 1 then Line(keys[0], vals[0]) else Line(keys[0], vals[0]) + [NEWLINE] + Join(keys[1..], vals[1..])
  }

  /** `parse_fields`: exactly the expected keys, in order, with nonempty values and nothing else. */
  function ParseFields(body: Bytes, keys: Bytes): Option<seq<Bytes>> {
    if keys == [] then None
    else
      var nl := FirstOf(body, NEWLINE);
      var line := body[..nl];
      if |line| <= 2 || line[0] != keys[0] || line[1] != 61 then None
      else if nl == |body| then (if |keys| == 1 then Some([line[2..]]) else None)
      else if nl + 1 == |body| then None
      else
        var r := ParseFields(body[nl + 1..], keys[1..]);
        if r.None? then None else Some([line[2..]] + r.value)
  }

  ghost predicate FieldValues(keys: Bytes, vals: seq<Bytes>) {
    && |keys| == |vals| > 0 && Printable(keys)
    && forall i :: 0 <= i < |vals| ==> vals[i] != [] && Printable(vals[i])
  }

  lemma LineEnds(k: U8, v: Bytes, rest: Bytes)
    requires k > 32 && Printable(v)
    ensures FirstOf(Line(k, v), NEWLINE) == |Line(k, v)|
    ensures FirstOf(Line(k, v) + [NEWLINE] + rest, NEWLINE) == |Line(k, v)|
  {
    var l := Line(k, v);
    assert forall i :: 0 <= i < |l| ==> l[i] != NEWLINE;
    var t := l + [NEWLINE] + rest;
    var i := FirstOf(t, NEWLINE);
    assert t[|l|] == NEWLINE;
    assert t[..|l|] == l;
  }

  /** Fields read back as they were joined. */
  lemma {:induction false} ParseJoined(keys: Bytes, vals: seq<Bytes>)
    requires FieldValues(keys, vals)
    ensures ParseFields(Join(keys, vals), keys) == Some(vals)
    decreases |keys|
  {
    hide FirstOf;
    var l := Line(keys[0], vals[0]);
    if |keys| == 1 {
      LineEnds(keys[0], vals[0], []);
      assert l[..|l|] == l && l[2..] == vals[0] && vals == [vals[0]];
    } else {
      var rest := Join(keys[1..], vals[1..]);
      LineEnds(keys[0], vals[0], rest);
      var body := l + [NEWLINE] + rest;
      assert body[..|l|] == l && body[|l| + 1..] == rest && l[2..] == vals[0];
      JoinNonempty(keys[1..], vals[1..]);
      ParseJoined(keys[1..], vals[1..]);
      assert vals == [vals[0]] + vals[1..];
    }
  }

  lemma JoinNonempty(keys: Bytes, vals: seq<Bytes>)
    requires |keys| == |vals| > 0
    ensures Join(keys, vals) != []
  {
  }

  /** A body that parses is the joined text of its fields. */
  lemma {:induction false} JoinParsed(body: Bytes, keys: Bytes)
    requires ParseFields(body, keys).Some?
    ensures var vals := ParseFields(body, keys).value;
            |vals| == |keys| && keys != [] && Join(keys, vals) == body
    decreases |keys|
  {
    hide FirstOf;
    var nl := FirstOf(body, NEWLINE);
    var line := body[..nl];
    assert line == Line(keys[0], line[2..]);
    if nl < |body| {
      JoinParsed(body[nl + 1..], keys[1..]);
      assert body == line + [NEWLINE] + body[nl + 1..];
      FirstOfHit(body);
    } else {
      assert body == line;
    }
  }

  lemma FirstOfHit(body: Bytes)
    ensures FirstOf(body, NEWLINE) < |body| ==> body[FirstOf(body, NEWLINE)] == NEWLINE
  {
  }

  // ---- codes ----

  const SERVER_PREFIX: Bytes := [83, 67, 83, 84, 49, 58]  // "SCST1:"
  const CLIENT_PREFIX: Bytes := [83, 67, 67, 76, 49, 58]  // "SCCL1:"

  function DecodePrefixed(code: Bytes, prefix: Bytes): Option<Bytes> {
    if |code| <= |prefix| || !(prefix <= code) || |code| - |prefix| > 1024 then None
    else
      var body := Decode(Url, code[|prefix|..]);
      if body.None? || body.value == [] then None else body
  }

  lemma PrefixedBijection(code: Bytes, prefix: Bytes, body: Bytes)
    requires 0 < |body| <= 512
    ensures DecodePrefixed(code, prefix) == Some(body) <==> code == prefix + Encode(Url, body)
  {
    hide Decode, Encode;
    EncodeLength(Url, body);
    if prefix <= code {
      Base64Bijection(Url, code[|prefix|..], body);
      assert code == prefix + code[|prefix|..];
    }
    if code == prefix + Encode(Url, body) {
      assert code[|prefix|..] == Encode(Url, body);
    }
  }

  datatype Server = Server(key: Bytes, host: Bytes, port: U16, macIp: Bytes, winIp: Bytes)

  predicate ValidServer(d: Server) {
    && ValidKey(d.key) && ValidHost(d.host) && d.port != 0
    && ValidTunnelIp(d.macIp) && ValidTunnelIp(d.winIp) && d.macIp != d.winIp
  }

  const SERVER_KEYS: Bytes := [107, 101, 112, 115, 99]  // k e p s c

  function ServerFields(d: Server): seq<Bytes> {
    [d.key, d.host, Numeral(d.port), d.macIp, d.winIp]
  }

  /** `None` where the source throws. */
  function EncodeServer(d: Server): Option<Bytes> {
    if !ValidServer(d) then None else Some(SERVER_PREFIX + Encode(Url, Join(SERVER_KEYS, ServerFields(d))))
  }

  function DecodeServer(code: Bytes): Option<Server> {
    var body := DecodePrefixed(code, SERVER_PREFIX);
    if body.None? then None
    else
      var f := ParseFields(body.value, SERVER_KEYS);
      if f.None? || |f.value| != 5 then None
      else
        var port := ParsePort(f.value[2]);
        if port.None? then None
        else
          var d := Server(f.value[0], f.value[1], port.value, f.value[3], f.value[4]);
          if ValidServer(d) && RouteAllowed(d.macIp + HOST_ROUTE) then Some(d) else None
  }

  datatype Client = Client(key: Bytes, winIp: Bytes)

  predicate ValidClient(d: Client) {
    ValidKey(d.key) && ValidTunnelIp(d.winIp)
  }

  const CLIENT_KEYS: Bytes := [107, 99]  // k c

  function EncodeClient(d: Client): Option<Bytes> {
    if !ValidClient(d) then None else Some(CLIENT_PREFIX + Encode(Url, Join(CLIENT_KEYS, [d.key, d.winIp])))
  }

  function DecodeClient(code: Bytes): Option<Client> {
    var body := DecodePrefixed(code, CLIENT_PREFIX);
    if body.None? then None
    else
      var f := ParseFields(body.value, CLIENT_KEYS);
      if f.None? || |f.value| != 2 then None
      else
        var d := Client(f.value[0], f.value[1]);
        if ValidClient(d) && RouteAllowed(d.winIp + HOST_ROUTE) then Some(d) else None
  }

  lemma ServerText(d: Server)
    requires ValidServer(d)
    ensures FieldValues(SERVER_KEYS, ServerFields(d)) && 0 < |Join(SERVER_KEYS, ServerFields(d))| <= 512
  {
    hide ValidKey, ValidHost, ValidTunnelIp, Numeral;
    KeyText(d.key);
    KeyLength(d.key);
    HostText(d.host);
    PortBijection([], d.port);
    TunnelIpText(d.macIp);
    TunnelIpText(d.winIp);
    JoinLength(SERVER_KEYS, ServerFields(d));
    TotalFive(ServerFields(d));
  }

  function Total(vals: seq<Bytes>): nat {
    if vals == [] then 0 else |vals[0]| + Total(vals[1..])
  }

  lemma TotalFive(v: seq<Bytes>)
    requires |v| == 5
    ensures Total(v) == |v[0]| + |v[1]| + |v[2]| + |v[3]| + |v[4]|
  {
    assert v[1..][1..] == v[2..] && v[2..][1..] == v[3..] && v[3..][1..] == v[4..] && v[4..][1..] == [];
    assert Total(v[4..]) == |v[4]| && Total(v[3..]) == |v[3]| + |v[4]|;
    assert Total(v[2..]) == |v[2]| + Total(v[3..]) && Total(v[1..]) == |v[1]| + Total(v[2..]);
  }

  lemma {:induction false} JoinLength(keys: Bytes, vals: seq<Bytes>)
    requires |keys| == |vals| > 0
    ensures |Join(keys, vals)| == 3 * |keys| - 1 + Total(vals)
  {
    if |keys| > 1 {
      JoinLength(keys[1..], vals[1..]);
    } else {
      assert vals[1..] == [];
    }
  }

  lemma KeyLength(s: Bytes)
    requires ValidKey(s)
    ensures |s| == 44
  {
  }

  lemma ClientText(d: Client)
    requires ValidClient(d)
    ensures FieldValues(CLIENT_KEYS, [d.key, d.winIp]) && 0 < |Join(CLIENT_KEYS, [d.key, d.winIp])| <= 512
  {
    hide ValidKey, ValidTunnelIp;
    KeyText(d.key);
    KeyLength(d.key);
    TunnelIpText(d.winIp);
    var vals: seq<Bytes> := [d.key, d.winIp];
    JoinLength(CLIENT_KEYS, vals);
    assert vals[1..] == [d.winIp] && |vals[1..][1..]| == 0;
    assert Total(vals[1..]) == |d.winIp|;
  }

  /** Every valid server descriptor decodes from its own code. */
  lemma ServerRoundTrip(d: Server)
    requires ValidServer(d)
    ensures DecodeServer(EncodeServer(d).value) == Some(d)
  {
    hide Encode, Join, ParseFields, DecodePrefixed, RouteAllowed, Numeral, ParsePort, FieldValues;
    var vals := ServerFields(d);
    ServerText(d);
    PrefixedBijection(EncodeServer(d).value, SERVER_PREFIX, Join(SERVER_KEYS, vals));
    ParseJoined(SERVER_KEYS, vals);
    PortBijection(Numeral(d.port), d.port);
    TunnelRouteAllowed(d.macIp);
  }

  /** Every accepted server code is the encoding of what it decodes to. */
  lemma ServerCanonical(code: Bytes, d: Server)
    requires DecodeServer(code) == Some(d)
    ensures EncodeServer(d) == Some(code)
  {
    hide Encode, Join, ParseFields, DecodePrefixed, RouteAllowed, Numeral, ParsePort, FieldValues, ValidServer;
    var body := DecodePrefixed(code, SERVER_PREFIX).value;
    var f := ParseFields(body, SERVER_KEYS).value;
    JoinParsed(body, SERVER_KEYS);
    ServerPort(d);
    PortBijection(f[2], d.port);
    assert f == ServerFields(d);
    ServerText(d);
    PrefixedBijection(code, SERVER_PREFIX, body);
  }

  lemma ServerPort(d: Server)
    requires ValidServer(d)
    ensures d.port > 0
  {
  }

  /** Server codes and valid server descriptors correspond one to one. */
  lemma ServerBijection(code: Bytes, d: Server)
    ensures DecodeServer(code) == Some(d) <==> EncodeServer(d) == Some(code)
  {
    if DecodeServer(code) == Some(d) {
      ServerCanonical(code, d);
    }
    if EncodeServer(d) == Some(code) {
      ServerRoundTrip(d);
    }
  }

  lemma ClientRoundTrip(d: Client)
    requires ValidClient(d)
    ensures DecodeClient(EncodeClient(d).value) == Some(d)
  {
    hide Encode, Join, ParseFields, DecodePrefixed, RouteAllowed, FieldValues;
    ClientText(d);
    PrefixedBijection(EncodeClient(d).value, CLIENT_PREFIX, Join(CLIENT_KEYS, [d.key, d.winIp]));
    ParseJoined(CLIENT_KEYS, [d.key, d.winIp]);
    TunnelRouteAllowed(d.winIp);
  }

  lemma ClientCanonical(code: Bytes, d: Client)
    requires DecodeClient(code) == Some(d)
    ensures EncodeClient(d) == Some(code)
  {
    hide Encode, Join, ParseFields, DecodePrefixed, RouteAllowed, FieldValues, ValidClient;
    var body := DecodePrefixed(code, CLIENT_PREFIX).value;
    JoinParsed(body, CLIENT_KEYS);
    assert ParseFields(body, CLIENT_KEYS).value == [d.key, d.winIp];
    ClientText(d);
    PrefixedBijection(code, CLIENT_PREFIX, body);
  }

  /** Client codes and valid client descriptors correspond one to one. */
  lemma ClientBijection(code: Bytes, d: Client)
    ensures DecodeClient(code) == Some(d) <==> EncodeClient(d) == Some(code)
  {
    if DecodeClient(code) == Some(d) {
      ClientCanonical(code, d);
    }
    if EncodeClient(d) == Some(code) {
      ClientRoundTrip(d);
    }
  }

  // ---- the loops ----

  lemma DigitAppended(t: Bytes, d: U8)
    requires AllDigits(t) && IsDigit(d)
    ensures AllDigits(t + [d]) && ValueOf(t + [d]) == ValueOf(t) * 10 + (d - ZERO)
  {
    assert (t + [d])[..|t|] == t;
  }

  /** The inner loop of `parse_ipv4`: the digits from `i` on. */
  method ReadDigits(s: Bytes, i: nat) returns (n: nat, k: nat)
    requires i <= |s|
    ensures k <= |s| && k - i == DigitRun(s[i..]) && AllDigits(s[i..k]) && n == ValueOf(s[i..k])
  {
    n, k := 0, i;
    while k < |s| && IsDigit(s[k])
      invariant i <= k <= |s| && AllDigits(s[i..k]) && n == ValueOf(s[i..k])
    {
      assert s[i..k + 1] == s[i..k] + [s[k]];
      DigitAppended(s[i..k], s[k]);
      n := n * 10 + (s[k] - ZERO);
      k := k + 1;
    }
    assert s[i..][..k - i] == s[i..k];
    DigitRunIs(s[i..], k - i);
  }

  /** One round of the outer loop: octet `s[i..k]`. */
  lemma OctetRound(s: Bytes, i: nat, k: nat, octets: nat, v: nat)
    requires i < |s| && i <= k <= |s| && k - i == DigitRun(s[i..]) && AllDigits(s[i..k])
    ensures Ipv4From(s[i..], octets, v) ==
            if !OctetOk(s[i..k]) || octets >= 4 then None
            else if k == |s| then (if octets == 3 then Some(v * 256 + ValueOf(s[i..k])) else None)
            else if s[k] != DOT || k + 1 == |s| then None
            else Ipv4From(s[k + 1..], octets + 1, v * 256 + ValueOf(s[i..k]))
  {
    hide ValueOf, OctetOk, DigitRun, AllDigits;
    assert s[i..][..k - i] == s[i..k];
    if k < |s| {
      assert s[i..][k - i] == s[k] && s[i..][k - i + 1..] == s[k + 1..];
    }
  }

  method ReadIpv4(s: Bytes) returns (r: Option<nat>)
    ensures r == ParseIpv4(s)
  {
    hide Ipv4From, DigitRun, ValueOf;
    if s == [] {
      return None;
    }
    var v: nat, octets: nat, i: nat := 0, 0, 0;
    assert s[0..] == s;
    while true
      invariant i < |s| && Ipv4From(s[i..], octets, v) == ParseIpv4(s)
      decreases |s| - i
    {
      var n, k := ReadDigits(s, i);
      OctetRound(s, i, k, octets, v);
      if k == i || k - i > 3 || (k - i > 1 && n < 10) || n > 255 || octets >= 4 {
        return None;
      }
      v, octets := v * 256 + n, octets + 1;
      if k == |s| {
        return if octets == 4 then Some(v) else None;
      }
      if s[k] != DOT || k + 1 == |s| {
        return None;
      }
      i := k + 1;
    }
  }

  ghost function Extend(vals: seq<Bytes>, r: Option<seq<Bytes>>): Option<seq<Bytes>> {
    if r.None? then None else Some(vals + r.value)
  }

  lemma ExtendMore(vals: seq<Bytes>, v: Bytes, r: Option<seq<Bytes>>)
    ensures Extend(vals, Extend([v], r)) == Extend(vals + [v], r)
  {
    if r.Some? {
      assert vals + ([v] + r.value) == (vals + [v]) + r.value;
    }
  }

  /** One round of the line loop: the line `body[pos..nl]`. */
  lemma FieldRound(body: Bytes, pos: nat, nl: nat, keys: Bytes, n: nat)
    requires pos <= nl <= |body| && n < |keys| && nl - pos == FirstOf(body[pos..], NEWLINE)
    ensures var line := body[pos..nl];
            ParseFields(body[pos..], keys[n..]) ==
            if |line| <= 2 || line[0] != keys[n] || line[1] != 61 then None
            else if nl == |body| then (if n + 1 == |keys| then Some([line[2..]]) else None)
            else if nl + 1 == |body| then None
            else Extend([line[2..]], ParseFields(body[nl + 1..], keys[n + 1..]))
  {
    hide FirstOf;
    assert body[pos..][..nl - pos] == body[pos..nl] && keys[n..][1..] == keys[n + 1..];
    if nl < |body| {
      assert body[pos..][nl - pos + 1..] == body[nl + 1..];
    }
  }

  lemma NoFields(body: Bytes)
    ensures ParseFields(body, []) == None
  {
  }

  /** The line loop of `parse_fields`. */
  method ReadFields(body: Bytes, keys: Bytes) returns (r: Option<seq<Bytes>>)
    ensures r == ParseFields(body, keys)
  {
    hide FirstOf, ParseFields;
    var pos: nat, vals: seq<Bytes> := 0, [];
    ghost var all := ParseFields(body, keys);
    assert body[0..] == body && keys[0..] == keys;
    assert all.Some? ==> [] + all.value == all.value;
    while true
      invariant pos <= |body| && |vals| <= |keys|
      invariant Extend(vals, ParseFields(body[pos..], keys[|vals|..])) == all
      decreases |keys| - |vals|
    {
      if |vals| == |keys| {
        assert keys[|vals|..] == [];
        NoFields(body[pos..]);
        return None;
      }
      var nl := pos + FirstOf(body[pos..], NEWLINE);
      var line := body[pos..nl];
      FieldRound(body, pos, nl, keys, |vals|);
      if |line| <= 2 || line[0] != keys[|vals|] || line[1] != 61 {
        return None;
      }
      if nl == |body| {
        return if |vals| + 1 == |keys| then Some(vals + [line[2..]]) else None;
      }
      if nl + 1 == |body| {
        return None;
      }
      ExtendMore(vals, line[2..], ParseFields(body[nl + 1..], keys[|vals| + 1..]));
      vals, pos := vals + [line[2..]], nl + 1;
    }
  }
}
