/**
 SRTP protection and rollover-counter recovery: src/crypto/srtp.cpp, section 3.3.1 of RFC 3711.
 HMAC and the AES counter-mode keystream are parameters of the keys.
 */
module Srtp {
  import opened Wire
  import opened Bytes

  const TAG_LEN := 10
  const HEADER_MIN := 12

  /** `mac` is keyed HMAC-SHA1; `stream(iv, i)` is byte `i` of the keystream that starts at `iv`. */
  datatype Keys = Keys(salt: Bytes, mac: Bytes -> Bytes, stream: (Bytes, nat) -> U8)

  /** The tag of `body` for rollover counter `roc`: the first ten bytes of the HMAC of `body || roc`. */
  function Tag(keys: Keys, body: Bytes, roc: U32): (t: Bytes)
    ensures |t| == TAG_LEN
  {
    var d := keys.mac(body + ToBe(roc, 4));
    if |d| >= TAG_LEN then d[..TAG_LEN] else d + seq(TAG_LEN - |d|, _ => 0)
  }

  /** Idealised HMAC: a tag verifies only for the rollover counter it was made with. */
  ghost predicate BindsRoc(keys: Keys) {
    forall body: Bytes, r: U32, r': U32 :: Tag(keys, body, r) == Tag(keys, body, r') ==> r == r'
  }

  /** The assumption can be met. */
  lemma KeysExist()
    ensures exists keys: Keys :: |keys.salt| == 14 && BindsRoc(keys)
  {
    var keys := Keys(seq(14, _ => 0), LastFour, (iv, i) => 0);
    forall body: Bytes, r: U32, r': U32 | Tag(keys, body, r) == Tag(keys, body, r') ensures r == r' {
      LastFourIs(body, ToBe(r, 4));
      LastFourIs(body, ToBe(r', 4));
      Widths();
      ToBeInjective(r, r', 4);
    }
    assert BindsRoc(keys);
  }

  function LastFour(b: Bytes): Bytes {
    if |b| >= 4 then b[|b| - 4..] + seq(6, _ => 0) else []
  }

  lemma LastFourIs(body: Bytes, tail: Bytes)
    requires |tail| == 4
    ensures |LastFour(body + tail)| == 10 && LastFour(body + tail)[..4] == tail
  {
    assert (body + tail)[|body + tail| - 4..] == tail;
  }

  /** `build_rtp_iv`: (salt << 16) xor (ssrc << 64) xor (index << 16). */
  function Iv(salt: Bytes, ssrc: U32, index: nat): Bytes
    requires |salt| == 14
  {
    XorAll([0, 0, 0, 0] + ToBe(ssrc, 4) + ToBe(index, 6) + [0, 0], salt + [0, 0])
  }

  function KeyStream(keys: Keys, iv: Bytes, n: nat): (k: Bytes)
    ensures |k| == n
  {
    if n == 0 then [] else KeyStream(keys, iv, n - 1) + [keys.stream(iv, n - 1)]
  }

  /** Counter mode: exclusive or with the keystream; its own inverse. */
  function Crypt(keys: Keys, iv: Bytes, data: Bytes): (r: Bytes)
    ensures |r| == |data|
  {
    XorAll(data, KeyStream(keys, iv, |data|))
  }

  lemma CryptTwice(keys: Keys, iv: Bytes, data: Bytes)
    ensures Crypt(keys, iv, Crypt(keys, iv, data)) == data
  {
    XorAllTwice(data, KeyStream(keys, iv, |data|));
  }

  /** Two packets of a key share an IV only if SSRC and 48-bit index agree. */
  lemma IvInjective(salt: Bytes, ssrc: U32, index: nat, ssrc': U32, index': nat)
    requires |salt| == 14 && index < 0x1_0000_0000_0000 && index' < 0x1_0000_0000_0000
    requires Iv(salt, ssrc, index) == Iv(salt, ssrc', index')
    ensures ssrc == ssrc' && index == index'
  {
    hide XorAll, ToBe;
    var a := [0, 0, 0, 0] + ToBe(ssrc, 4) + ToBe(index, 6) + [0, 0];
    var b := [0, 0, 0, 0] + ToBe(ssrc', 4) + ToBe(index', 6) + [0, 0];
    XorAllTwice(a, salt + [0, 0]);
    XorAllTwice(b, salt + [0, 0]);
    assert a[4..8] == ToBe(ssrc, 4) && b[4..8] == ToBe(ssrc', 4);
    assert a[8..14] == ToBe(index, 6) && b[8..14] == ToBe(index', 6);
    Widths();
    ToBeInjective(ssrc, ssrc', 4);
    ToBeInjective(index, index', 6);
  }

  // ---- sender ----

  function Index(roc: U32, num: U16): nat {
    roc * 0x1_0000 + num
  }

  type Csrcs = s: seq<U32> | |s| < 16
  type ExtensionWords = s: seq<U32> | |s| < 0x1_0000

  datatype Extension = Extension(profile: U16, words: ExtensionWords)

  /** Version and padding bit. */
  type Lead = x: int | 0 <= x < 8
  const VERSION_2: Lead := 4

  /** One packet as the sender sees it. */
  datatype Sent = Sent(
    lead: Lead, ssrc: U32, roc: U32, num: U16, ts: U32, pt: U8, marker: bool, csrcs: Csrcs, ext: Option<Extension>,
    payload: Bytes)

  function WordBytes(ws: seq<U32>): (b: Bytes)
    ensures |b| == 4 * |ws|
  {
    if ws == [] then [] else ToBe(ws[0], 4) + WordBytes(ws[1..])
  }

  function ExtensionBytes(x: Extension): Bytes {
    ToBe(x.profile, 2) + ToBe(|x.words|, 2) + WordBytes(x.words)
  }

  function FixedHeader(p: Sent): (h: Bytes)
    ensures |h| == HEADER_MIN
  {
    [p.lead * 32 + (if p.ext.Some? then 16 else 0) + |p.csrcs|, p.pt % 128 + (if p.marker then 128 else 0)]
    + ToBe(p.num, 2) + ToBe(p.ts, 4) + ToBe(p.ssrc, 4)
  }

  /** The RTP header, section 5.1 of RFC 3550, field by field. */
  function Header(p: Sent): (h: Bytes)
    ensures |h| >= HEADER_MIN
  {
    FixedHeader(p) + WordBytes(p.csrcs) + if p.ext.Some? then ExtensionBytes(p.ext.value) else []
  }

  /** The protected packet on the wire. */
  function Protect(keys: Keys, p: Sent): Bytes
    requires |keys.salt| == 14
  {
    var body := Header(p) + Crypt(keys, Iv(keys.salt, p.ssrc, Index(p.roc, p.num)), p.payload);
    body + Tag(keys, body, p.roc)
  }

  class SrtpEncryptor {
    const keys: Keys
    const ssrc: U32
    var num: nat
    var roc: U32
    var ts: U32

    ghost predicate Valid() reads this {
      |keys.salt| == 14 && num < 0x1_0000
    }

    constructor (keys: Keys, ssrc: U32)
      requires |keys.salt| == 14
      ensures Valid() && this.keys == keys && this.ssrc == ssrc && num == 0 && roc == 0 && ts == 0
    {
      this.keys, this.ssrc := keys, ssrc;
      num, roc, ts := 0, 0, 0;
    }

    /** Sends the next index; the index advances by one modulo 2^48. */
    method Encrypt(payload: Bytes, pt: U8, marker: bool) returns (out: Bytes)
      requires Valid()
      modifies this
      ensures Valid()
      ensures out == old(Protect(keys, Sent(VERSION_2, ssrc, roc, num, ts, pt, marker, [], None, payload)))
      ensures Index(roc, num) == (old(Index(roc, num)) + 1) % 0x1_0000_0000_0000
      ensures ts == (old(ts) + 480) % 0x1_0000_0000
    {
      hide Crypt, Tag, Iv, ToBe;
      var num0, roc0, ts0 := num, roc, ts;
      num := num + 1;
      if num > 0xFFFF {
        num, roc := 0, (roc + 1) % 0x1_0000_0000;
      }
      ts := (ts + 480) % 0x1_0000_0000;
      var header := [0x80, pt % 128 + (if marker then 128 else 0)] + ToBe(num0, 2) + ToBe(ts0, 4) + ToBe(ssrc, 4);
      assert header == Header(Sent(VERSION_2, ssrc, roc0, num0, ts0, pt, marker, [], None, payload));
      var body := header + Crypt(keys, Iv(keys.salt, ssrc, Index(roc0, num0)), payload);
      out := body + Tag(keys, body, roc0);
    }
  }

  // ---- receiver ----

  /** Highest accepted index of one SSRC, split as the source keeps it. */
  datatype SsrcState = SsrcState(roc: U32, maxSeq: U16)

  datatype RtpHeader = RtpHeader(ssrc: U32, ts: U32, num: U16, pt: U8, marker: bool, headerLen: nat, payloadLen: nat)

  datatype Opened = Opened(header: RtpHeader, pkt: Bytes)

  function GuessRoc(st: Option<SsrcState>, num: U16): U32 {
    if st.None? then 0
    else
      var diff := num as int - st.value.maxSeq as int;
      if diff > 0x7FFF then (if st.value.roc > 0 then st.value.roc - 1 else 0)
      else if diff < -0x7FFF then (st.value.roc + 1) % 0x1_0000_0000
      else st.value.roc
  }

  function CurrentRoc(st: Option<SsrcState>): U32 {
    if st.None? then 0 else st.value.roc
  }

  function AddCandidate(cs: seq<U32>, r: U32): seq<U32> {
    if r in cs then cs else cs + [r]
  }

  /** Guess, current, guess + 1, guess - 1, without repetition. */
  function Candidates(st: Option<SsrcState>, num: U16): seq<U32> {
    var g := GuessRoc(st, num);
    AddCandidate(AddCandidate(AddCandidate(AddCandidate([], g), CurrentRoc(st)), (g + 1) % 0x1_0000_0000),
                 if g > 0 then g - 1 else 0)
  }

  /** RTP header length with CSRCs and extension; `None` if it does not fit the body. */
  function HeaderLen(body: Bytes): (n: Option<nat>)
    requires |body| >= HEADER_MIN
    ensures n.Some? ==> n.value <= |body|
  {
    var fixed := HEADER_MIN + (body[0] % 16) * 4;
    if body[0] / 16 % 2 == 1 then
      if fixed + 4 > |body| then None
      else
        var len := fixed + 4 + FromBe(body[fixed + 2..fixed + 4]) * 4;
        if len > |body| then None else Some(len)
    else if fixed > |body| then None
    else Some(fixed)
  }

  function PacketNum(pkt: Bytes): U16
    requires |pkt| >= HEADER_MIN
  {
    Field16(pkt[2..4])
  }

  function PacketSsrc(pkt: Bytes): U32
    requires |pkt| >= HEADER_MIN
  {
    Field32(pkt[8..12])
  }

  function Field16(b: Bytes): U16
    requires |b| == 2
  {
    Widths();
    FromBeBound(b);
    FromBe(b)
  }

  function Field32(b: Bytes): U32
    requires |b| == 4
  {
    Widths();
    FromBeBound(b);
    FromBe(b)
  }

  /** `try_decrypt`: the packet opened with one candidate rollover counter. */
  function TryOpen(keys: Keys, pkt: Bytes, roc: U32): Option<Opened>
    requires |keys.salt| == 14 && |pkt| >= HEADER_MIN + TAG_LEN
  {
    var n := |pkt| - TAG_LEN;
    var body := pkt[..n];
    if Tag(keys, body, roc) != pkt[n..] then None
    else
      var h := HeaderLen(body);
      if h.None? then None
      else
        var hdr := RtpHeader(PacketSsrc(pkt), Field32(pkt[4..8]), PacketNum(pkt), pkt[1] % 128, pkt[1] >= 128,
                             h.value, n - h.value);
        var iv := Iv(keys.salt, hdr.ssrc, Index(roc, hdr.num));
        Some(Opened(hdr, pkt[..h.value] + Crypt(keys, iv, pkt[h.value..n]) + pkt[n..]))
  }

  /** First candidate that opens the packet, with that candidate. */
  function OpenWith(keys: Keys, pkt: Bytes, cs: seq<U32>): Option<(U32, Opened)>
    requires |keys.salt| == 14 && |pkt| >= HEADER_MIN + TAG_LEN
  {
    if cs == [] then None
    else
      var o := TryOpen(keys, pkt, cs[0]);
      if o.Some? then Some((cs[0], o.value)) else OpenWith(keys, pkt, cs[1..])
  }

  type States = map<U32, SsrcState>

  function StateOf(states: States, ssrc: U32): Option<SsrcState> {
    if ssrc in states then Some(states[ssrc]) else None
  }

  /** `decrypt` without its effect on the state. */
  function Open(keys: Keys, states: States, pkt: Bytes): Option<(U32, Opened)>
    requires |keys.salt| == 14
  {
    if |pkt| < HEADER_MIN + TAG_LEN then None
    else OpenWith(keys, pkt, Candidates(StateOf(states, PacketSsrc(pkt)), PacketNum(pkt)))
  }

  /** `update_state`: the larger index wins. */
  function Raise(states: States, ssrc: U32, roc: U32, num: U16): States {
    if ssrc !in states || Index(roc, num) > Index(states[ssrc].roc, states[ssrc].maxSeq)
    then states[ssrc := SsrcState(roc, num)] else states
  }

  function Receive(keys: Keys, states: States, pkt: Bytes): States
    requires |keys.salt| == 14
  {
    var o := Open(keys, states, pkt);
    if o.None? then states else Raise(states, o.value.1.header.ssrc, o.value.0, o.value.1.header.num)
  }

  // ---- headers ----

  lemma FirstByte(p: Sent)
    ensures var b := FixedHeader(p)[0]; b % 16 == |p.csrcs| && (b / 16 % 2 == 1 <==> p.ext.Some?)
  {
  }

  /** The reader finds the end of every header a sender may write, whatever follows. */
  lemma HeaderRead(p: Sent, rest: Bytes)
    ensures |Header(p) + rest| >= HEADER_MIN && HeaderLen(Header(p) + rest) == Some(|Header(p)|)
  {
    hide ToBe, FromBe, WordBytes, FixedHeader;
    var body := Header(p) + rest;
    var fixed := HEADER_MIN + 4 * |p.csrcs|;
    FirstByte(p);
    assert body[0] == FixedHeader(p)[0];
    if p.ext.Some? {
      var x := p.ext.value;
      assert body[fixed + 2..fixed + 4] == ToBe(|x.words|, 2);
      Widths();
      FromBeToBe(|x.words|, 2);
    }
  }

  function ReadWords(b: Bytes): (ws: seq<U32>)
    requires |b| % 4 == 0
    ensures 4 * |ws| == |b| && WordBytes(ws) == b
  {
    if b == [] then []
    else
      ToBeFromBe(b[..4]);
      assert b == b[..4] + b[4..];
      [Field32(b[..4])] + ReadWords(b[4..])
  }

  /** What the reader takes for a header was written by some sender, so it refuses exactly the others. */
  lemma HeaderWritten(body: Bytes) returns (p: Sent)
    requires |body| >= HEADER_MIN && HeaderLen(body).Some?
    ensures body[..HeaderLen(body).value] == Header(p)
  {
    hide ToBe, FromBe, WordBytes;
    var fixed: nat := HEADER_MIN + (body[0] % 16) * 4;
    var csrcs := ReadWords(body[HEADER_MIN..fixed]);
    var ext: Option<Extension> := None;
    if body[0] / 16 % 2 == 1 {
      var n := HeaderLen(body).value;
      ToBeFromBe(body[fixed..fixed + 2]);
      assert n == fixed + 4 + Field16(body[fixed + 2..fixed + 4]) * 4;
      ToBeFromBe(body[fixed + 2..fixed + 4]);
      ext := Some(Extension(Field16(body[fixed..fixed + 2]), ReadWords(body[fixed + 4..n])));
      assert body[fixed..n] == body[fixed..fixed + 2] + body[fixed + 2..fixed + 4] + body[fixed + 4..n];
      assert ExtensionBytes(ext.value) == body[fixed..n];
      assert body[..n] == body[..HEADER_MIN] + body[HEADER_MIN..fixed] + body[fixed..n];
    } else {
      assert body[..fixed] == body[..HEADER_MIN] + body[HEADER_MIN..fixed];
    }
    p := Sent(body[0] / 32, Field32(body[8..12]), 0, Field16(body[2..4]), Field32(body[4..8]), body[1] % 128,
              body[1] >= 128, csrcs, ext, []);
    FixedWritten(body, p);
  }

  lemma FixedWritten(body: Bytes, p: Sent)
    requires |body| >= HEADER_MIN
    requires p.lead == body[0] / 32 && p.ssrc == Field32(body[8..12]) && p.num == Field16(body[2..4])
    requires p.ts == Field32(body[4..8]) && p.pt == body[1] % 128 && p.marker == (body[1] >= 128)
    requires |p.csrcs| == body[0] % 16 && (p.ext.Some? <==> body[0] / 16 % 2 == 1)
    ensures FixedHeader(p) == body[..HEADER_MIN]
  {
    hide ToBe, FromBe;
    ToBeFromBe(body[2..4]);
    ToBeFromBe(body[4..8]);
    ToBeFromBe(body[8..12]);
    assert body[..HEADER_MIN] == [body[0], body[1]] + body[2..4] + body[4..8] + body[8..12];
  }

  /** A packet with a right tag opens if and only if it starts with an RTP header that fits. */
  lemma OpensIffHeader(keys: Keys, pkt: Bytes, roc: U32)
    requires |keys.salt| == 14 && |pkt| >= HEADER_MIN + TAG_LEN
    requires Tag(keys, pkt[..|pkt| - TAG_LEN], roc) == pkt[|pkt| - TAG_LEN..]
    ensures TryOpen(keys, pkt, roc).Some? <==> exists p: Sent :: Header(p) <= pkt[..|pkt| - TAG_LEN]
  {
    hide HeaderLen, Header, Tag, Crypt, Iv;
    var body := pkt[..|pkt| - TAG_LEN];
    if HeaderLen(body).Some? {
      var p := HeaderWritten(body);
      assert Header(p) <= body;
    }
    if p: Sent :| Header(p) <= body {
      HeaderRead(p, body[|Header(p)|..]);
      assert body == Header(p) + body[|Header(p)|..];
    }
  }

  // ---- a genuine packet ----

  lemma ProtectFields(keys: Keys, p: Sent)
    requires |keys.salt| == 14
    ensures var w := Protect(keys, p);
            && |w| >= HEADER_MIN + TAG_LEN
            && PacketNum(w) == p.num && PacketSsrc(w) == p.ssrc && Field32(w[4..8]) == p.ts
            && w[1] % 128 == p.pt % 128 && (w[1] >= 128) == p.marker
  {
    hide Crypt, Tag, Iv, ToBe, FromBe, ExtensionBytes, WordBytes;
    var w := Protect(keys, p);
    assert w[..HEADER_MIN] == FixedHeader(p);
    Widths();
    assert w[2..4] == ToBe(p.num, 2) && w[4..8] == ToBe(p.ts, 4) && w[8..12] == ToBe(p.ssrc, 4);
    FromBeToBe(p.num, 2);
    FromBeToBe(p.ts, 4);
    FromBeToBe(p.ssrc, 4);
  }

  /** A genuine packet opens with exactly its sender's rollover counter, and then yields the sender's payload. */
  lemma OpensOnlyWithItsRoc(keys: Keys, p: Sent, roc: U32)
    requires |keys.salt| == 14 && BindsRoc(keys)
    ensures |Protect(keys, p)| >= HEADER_MIN + TAG_LEN
    ensures TryOpen(keys, Protect(keys, p), roc).Some? <==> roc == p.roc
    ensures roc == p.roc ==> Genuine(p, TryOpen(keys, Protect(keys, p), roc).value)
  {
    hide Crypt, Tag, Iv, ToBe, FromBe, Header, HeaderLen;
    var w := Protect(keys, p);
    var iv := Iv(keys.salt, p.ssrc, Index(p.roc, p.num));
    var n := |w| - TAG_LEN;
    var body := Header(p) + Crypt(keys, iv, p.payload);
    ProtectFields(keys, p);
    assert w[..n] == body && w[n..] == Tag(keys, body, p.roc);
    if roc == p.roc {
      var h := |Header(p)|;
      HeaderRead(p, Crypt(keys, iv, p.payload));
      assert w[h..n] == Crypt(keys, iv, p.payload) && w[..h] == Header(p);
      CryptTwice(keys, iv, p.payload);
      var o := TryOpen(keys, w, roc).value;
      assert o.pkt[h..n] == p.payload && o.pkt[..h] == Header(p);
    }
  }

  /** The opened packet carries the sender's header, its fields, and the payload behind all of it. */
  ghost predicate Genuine(p: Sent, o: Opened) {
    && o.header.ssrc == p.ssrc && o.header.num == p.num && o.header.ts == p.ts
    && o.header.pt == p.pt % 128 && o.header.marker == p.marker
    && o.header.headerLen == |Header(p)| && o.header.payloadLen == |p.payload|
    && |Header(p)| + |p.payload| <= |o.pkt|
    && o.pkt[..|Header(p)|] == Header(p)
    && o.pkt[|Header(p)|..|Header(p)| + |p.payload|] == p.payload
  }

  lemma OpenWithFinds(keys: Keys, p: Sent, cs: seq<U32>)
    requires |keys.salt| == 14 && BindsRoc(keys) && |Protect(keys, p)| >= HEADER_MIN + TAG_LEN
    ensures var o := OpenWith(keys, Protect(keys, p), cs);
            && (o.Some? <==> p.roc in cs)
            && (o.Some? ==> o.value.0 == p.roc && Genuine(p, o.value.1))
  {
    hide Protect, TryOpen, BindsRoc, Genuine;
    if cs != [] {
      OpensOnlyWithItsRoc(keys, p, cs[0]);
      OpenWithFinds(keys, p, cs[1..]);
    }
  }

  /** Exact acceptance rule: the sender's rollover counter is among the candidates. */
  lemma AcceptedIff(keys: Keys, states: States, p: Sent)
    requires |keys.salt| == 14 && BindsRoc(keys)
    ensures var o := Open(keys, states, Protect(keys, p));
            && (o.Some? <==> p.roc in Candidates(StateOf(states, p.ssrc), p.num))
            && (o.Some? ==> o.value.0 == p.roc && Genuine(p, o.value.1))
  {
    hide Protect, Candidates, OpenWith, BindsRoc, Genuine, PacketNum, PacketSsrc;
    ProtectFields(keys, p);
    OpenWithFinds(keys, p, Candidates(StateOf(states, p.ssrc), p.num));
  }

  // ---- how far a packet may lie from the highest accepted index ----

  const REACH := 98303

  lemma CandidateSet(st: Option<SsrcState>, num: U16, r: U32)
    ensures r in Candidates(st, num) <==>
            var g := GuessRoc(st, num);
            r == g || r == CurrentRoc(st) || r == (g + 1) % 0x1_0000_0000 || r == (if g > 0 then g - 1 else 0)
  {
    hide GuessRoc, CurrentRoc;
    var g, c := GuessRoc(st, num), CurrentRoc(st);
    var a1 := AddCandidate([], g);
    var a2 := AddCandidate(a1, c);
    var a3 := AddCandidate(a2, (g as int + 1) % 0x1_0000_0000);
    assert g in a1 && c in a2;
  }

  /** Any index within 98303 of the highest accepted one is tried with its own rollover counter. */
  lemma WithinReach(st: SsrcState, roc: U32, num: U16)
    requires -REACH <= Index(roc, num) - Index(st.roc, st.maxSeq) <= REACH
    ensures roc in Candidates(Some(st), num)
  {
    CandidateSet(Some(st), num, roc);
    RocDistance(st.roc, st.maxSeq, roc, num);
  }

  lemma RocDistance(roc0: U32, num0: U16, roc: U32, num: U16)
    requires -REACH <= Index(roc, num) - Index(roc0, num0) <= REACH
    ensures var diff := num - num0;
            if diff > 0x7FFF then roc0 - 2 <= roc <= roc0
            else if diff < -0x7FFF then roc0 <= roc <= roc0 + 2
            else roc0 - 1 <= roc <= roc0 + 1
  {
    assert Index(roc, num) - Index(roc0, num0) == (roc - roc0) * 0x1_0000 + (num - num0);
  }

  /** The bound is sharp: one step further ahead a packet can be refused. */
  lemma ReachIsSharp(keys: Keys, p: Sent)
    requires |keys.salt| == 14 && BindsRoc(keys)
    requires p.ssrc == 1 && p.roc == 8 && p.num == 0x8000
    ensures var states := map[1 := SsrcState(7, 0)];
            && Index(p.roc, p.num) - Index(7, 0) == REACH + 1
            && Open(keys, states, Protect(keys, p)).None?
  {
    hide Open, Protect, Genuine, BindsRoc, Candidates, Header;
    AcceptedIff(keys, map[1 := SsrcState(7, 0)], p);
    CandidateSet(Some(SsrcState(7, 0)), p.num, p.roc);
  }

  // ---- runs over a lossy, duplicating, reordering network ----

  /** Receiver states while the packets `ds` arrive in this order. */
  ghost function StatesAfter(keys: Keys, ds: seq<Sent>): States
    requires |keys.salt| == 14
  {
    if ds == [] then map[]
    else Receive(keys, StatesAfter(keys, ds[..|ds| - 1]), Protect(keys, ds[|ds| - 1]))
  }

  /** Indices of the packets of `ssrc` that were accepted when they arrived. */
  ghost function AcceptedIndices(keys: Keys, ds: seq<Sent>, ssrc: U32): set<nat>
    requires |keys.salt| == 14
  {
    if ds == [] then {}
    else
      var init, p := ds[..|ds| - 1], ds[|ds| - 1];
      var accepted := p.ssrc == ssrc && Open(keys, StatesAfter(keys, init), Protect(keys, p)).Some?;
      AcceptedIndices(keys, init, ssrc) + if accepted then {Index(p.roc, p.num)} else {}
  }

  /** `st` is the greatest of the indices; `None` if there is none. */
  ghost predicate IsHighest(indices: set<nat>, st: Option<SsrcState>) {
    match st
    case None => indices == {}
    case Some(v) => Index(v.roc, v.maxSeq) in indices && forall x :: x in indices ==> x <= Index(v.roc, v.maxSeq)
  }

  lemma ReceiveStep(keys: Keys, states: States, p: Sent)
    requires |keys.salt| == 14 && BindsRoc(keys)
    ensures Receive(keys, states, Protect(keys, p)) ==
            if Open(keys, states, Protect(keys, p)).Some? then Raise(states, p.ssrc, p.roc, p.num) else states
  {
    hide Open, Raise, Protect, BindsRoc;
    AcceptedIff(keys, states, p);
  }

  /**
   Whatever the network loses, repeats or reorders, the state of each SSRC is the greatest index accepted
   from it so far.
   */
  lemma StateIsHighest(keys: Keys, ds: seq<Sent>, ssrc: U32)
    requires |keys.salt| == 14 && BindsRoc(keys)
    ensures IsHighest(AcceptedIndices(keys, ds, ssrc), StateOf(StatesAfter(keys, ds), ssrc))
  {
    hide Open, Receive, Protect, BindsRoc, Index;
    if ds != [] {
      var init := ds[..|ds| - 1];
      StateIsHighest(keys, init, ssrc);
      ReceiveStep(keys, StatesAfter(keys, init), ds[|ds| - 1]);
    }
  }

  /** Each arrival is the first of its SSRC with rollover counter 0 or 1, or within reach of the highest accepted. */
  ghost predicate InReach(keys: Keys, ds: seq<Sent>, i: nat)
    requires |keys.salt| == 14 && i < |ds|
  {
    match StateOf(StatesAfter(keys, ds[..i]), ds[i].ssrc)
    case None => ds[i].roc <= 1
    case Some(st) => -REACH <= Index(ds[i].roc, ds[i].num) - Index(st.roc, st.maxSeq) <= REACH
  }

  /** A packet in reach is accepted under its sender's rollover counter and yields the sender's payload. */
  lemma DeliveredInReach(keys: Keys, ds: seq<Sent>, i: nat)
    requires |keys.salt| == 14 && BindsRoc(keys) && i < |ds| && InReach(keys, ds, i)
    ensures var o := Open(keys, StatesAfter(keys, ds[..i]), Protect(keys, ds[i]));
            o.Some? && o.value.0 == ds[i].roc && Genuine(ds[i], o.value.1)
  {
    hide Open, Protect, BindsRoc, StatesAfter, Candidates, Genuine;
    var st := StateOf(StatesAfter(keys, ds[..i]), ds[i].ssrc);
    AcceptedIff(keys, StatesAfter(keys, ds[..i]), ds[i]);
    if st.Some? {
      WithinReach(st.value, ds[i].roc, ds[i].num);
    } else {
      CandidateSet(st, ds[i].num, ds[i].roc);
    }
  }

  // ---- the receiver object ----

  class SrtpDecryptor {
    const keys: Keys
    var states: States
    var counts: map<U32, nat>

    constructor (keys: Keys)
      ensures this.keys == keys && states == map[] && counts == map[]
    {
      this.keys := keys;
      states, counts := map[], map[];
    }

    method CandidateList(ssrc: U32, num: U16) returns (cs: seq<U32>)
      ensures cs == Candidates(StateOf(states, ssrc), num)
    {
      hide AddCandidate;
      var guess: U32, cur: U32 := 0, 0;
      if ssrc in states {
        cur := states[ssrc].roc;
        var diff := num as int - states[ssrc].maxSeq as int;
        if diff > 0x7FFF {
          guess := if cur > 0 then cur - 1 else 0;
        } else if diff < -0x7FFF {
          guess := (cur as int + 1) % 0x1_0000_0000;
        } else {
          guess := cur;
        }
      }
      assert guess == GuessRoc(StateOf(states, ssrc), num) && cur == CurrentRoc(StateOf(states, ssrc));
      cs := AddCandidate([], guess);
      cs := AddCandidate(cs, cur);
      cs := AddCandidate(cs, (guess as int + 1) % 0x1_0000_0000);
      cs := AddCandidate(cs, if guess > 0 then guess - 1 else 0);
    }

    /** Opens `pkt` in place; on failure neither the packet nor the state changes. */
    method Decrypt(pkt: array<U8>) returns (ok: bool, header: RtpHeader)
      requires |keys.salt| == 14
      modifies this, pkt
      ensures ok == old(Open(keys, states, pkt[..])).Some?
      ensures ok ==> header == old(Open(keys, states, pkt[..])).value.1.header
      ensures ok ==> pkt[..] == old(Open(keys, states, pkt[..])).value.1.pkt
      ensures !ok ==> pkt[..] == old(pkt[..]) && counts == old(counts)
      ensures ok ==>
        var seen := if header.ssrc in old(counts) then old(counts)[header.ssrc] else 0;
        counts == old(counts)[header.ssrc := seen + 1]
      ensures states == old(Receive(keys, states, pkt[..]))
    {
      hide TryOpen, Candidates, Raise;
      ok, header := false, RtpHeader(0, 0, 0, 0, false, 0, 0);
      if pkt.Length < HEADER_MIN + TAG_LEN {
        return;
      }
      var p := pkt[..];
      var ssrc, num := PacketSsrc(p), PacketNum(p);
      var cs := CandidateList(ssrc, num);
      for i := 0 to |cs|
        invariant OpenWith(keys, p, cs[i..]) == old(Open(keys, states, pkt[..]))
        invariant pkt[..] == p && states == old(states) && counts == old(counts)
      {
        assert cs[i..][1..] == cs[i + 1..];
        var o := TryOpen(keys, p, cs[i]);
        if o.Some? {
          TryOpenKeepsFields(keys, p, cs[i]);
          header := o.value.header;
          forall j | 0 <= j < pkt.Length {
            pkt[j] := o.value.pkt[j];
          }
          assert pkt[..] == o.value.pkt;
          states := Raise(states, ssrc, cs[i], num);
          counts := counts[ssrc := (if ssrc in counts then counts[ssrc] else 0) + 1];
          return true, header;
        }
      }
    }
  }

  lemma TryOpenKeepsFields(keys: Keys, pkt: Bytes, roc: U32)
    requires |keys.salt| == 14 && |pkt| >= HEADER_MIN + TAG_LEN
    ensures var o := TryOpen(keys, pkt, roc);
            o.Some? ==>
              && |o.value.pkt| == |pkt|
              && o.value.header.ssrc == PacketSsrc(pkt) && o.value.header.num == PacketNum(pkt)
  {
  }
}
