/**
 The enc1103 record layer (src/protocol/record_layer.cpp:24-82) and the reader loop in front of it
 (src/session/session.cpp:598-608). The block cipher and SHA-1 are parameters.
 */
module RecordLayer {
  import opened Wire
  import opened Bytes

  const MAC_LEN := 20
  const BLOCK := 16
  const COUNTER_WINDOW := 6
  const COUNTERS: int := 0x1_0000_0000

  datatype Cipher = Cipher(enc: Bytes -> Bytes, dec: Bytes -> Bytes, hash: Bytes -> Bytes)

  /** `dec` undoes `enc` on 16-byte blocks, and a digest has 20 bytes. */
  ghost predicate Sound(c: Cipher) {
    && (forall b: Bytes :: |b| == BLOCK ==> |c.enc(b)| == BLOCK && c.dec(c.enc(b)) == b)
    && (forall b: Bytes :: |b| == BLOCK ==> |c.dec(b)| == BLOCK)
    && (forall b: Bytes :: |c.hash(b)| == MAC_LEN)
  }

  function Digest(c: Cipher, ctr: U32, body: Bytes): Bytes {
    c.hash(ToBe(ctr, 4) + body)
  }

  /** Idealised SHA-1 tag: for a given body, different counters have different tags. */
  ghost predicate BindsCounter(c: Cipher) {
    forall body: Bytes, i: U32, j: U32 :: Digest(c, i, body) == Digest(c, j, body) ==> i == j
  }

  // ---- cipher block chaining ----

  predicate Blocks(x: Bytes) {
    |x| % BLOCK == 0
  }

  /** The chaining value after `x`: its last block. */
  function Chain(iv: Bytes, x: Bytes): Bytes {
    if x == [] || !Blocks(x) then iv else x[|x| - BLOCK..]
  }

  function CbcEncrypt(c: Cipher, iv: Bytes, p: Bytes): (x: Bytes)
    requires Sound(c) && |iv| == BLOCK && Blocks(p)
    ensures |x| == |p|
    decreases |p|
  {
    if p == [] then []
    else
      var b := c.enc(XorAll(p[..BLOCK], iv));
      b + CbcEncrypt(c, b, p[BLOCK..])
  }

  function CbcDecrypt(c: Cipher, iv: Bytes, x: Bytes): (p: Bytes)
    requires Sound(c) && |iv| == BLOCK && Blocks(x)
    ensures |p| == |x|
    decreases |x|
  {
    if x == [] then []
    else XorAll(c.dec(x[..BLOCK]), iv) + CbcDecrypt(c, x[..BLOCK], x[BLOCK..])
  }

  lemma EncOk(c: Cipher, b: Bytes)
    requires Sound(c) && |b| == BLOCK
    ensures |c.enc(b)| == BLOCK && c.dec(c.enc(b)) == b
  {
  }

  lemma {:induction false} CbcRoundTrip(c: Cipher, iv: Bytes, p: Bytes)
    requires Sound(c) && |iv| == BLOCK && Blocks(p)
    ensures CbcDecrypt(c, iv, CbcEncrypt(c, iv, p)) == p
    decreases |p|
  {
    hide Sound, XorAll;
    if p != [] {
      EncOk(c, XorAll(p[..BLOCK], iv));
      var b := c.enc(XorAll(p[..BLOCK], iv));
      var x := CbcEncrypt(c, iv, p);
      assert x[..BLOCK] == b && x[BLOCK..] == CbcEncrypt(c, b, p[BLOCK..]);
      XorAllTwice(p[..BLOCK], iv);
      CbcRoundTrip(c, b, p[BLOCK..]);
    }
  }

  // ---- one record ----

  /** Counter and CBC chain of one direction. */
  datatype Side = Side(ctr: U32, chain: Bytes)

  function Zeros(n: nat): (z: Bytes)
    ensures |z| == n
  {
    if n == 0 then [] else Zeros(n - 1) + [0]
  }

  function PadLen(n: nat): nat {
    (BLOCK - (2 + n + MAC_LEN) % BLOCK) % BLOCK
  }

  /** Length field, message and filler: what the tag covers. */
  function Body(msg: Bytes): Bytes {
    ToBe(|msg|, 2) + msg + Zeros(PadLen(|msg|))
  }

  function Framed(c: Cipher, ctr: U32, msg: Bytes): Bytes {
    Body(msg) + Digest(c, ctr, Body(msg))
  }

  /** The framed message fits the 16-bit length prefix of the record. */
  predicate Fits(msg: Bytes) {
    2 + |msg| + PadLen(|msg|) + MAC_LEN < 0x1_0000
  }

  lemma FramedShape(c: Cipher, ctr: U32, msg: Bytes)
    requires Sound(c)
    ensures Blocks(Framed(c, ctr, msg)) && |Framed(c, ctr, msg)| == 2 + |msg| + PadLen(|msg|) + MAC_LEN >= 32
  {
    hide Sound, ToBe, Zeros;
    DigestLen(c, ctr, Body(msg));
  }

  /** Ciphertext of one record, without its length prefix. */
  function Sealed(c: Cipher, side: Side, msg: Bytes): Bytes
    requires Sound(c) && |side.chain| == BLOCK
  {
    FramedShape(c, side.ctr, msg);
    CbcEncrypt(c, side.chain, Framed(c, side.ctr, msg))
  }

  function AfterSealing(c: Cipher, side: Side, msg: Bytes): (r: Side)
    requires Sound(c) && |side.chain| == BLOCK
    ensures |r.chain| == BLOCK
  {
    Side((side.ctr + 1) % COUNTERS, Chain(side.chain, Sealed(c, side, msg)))
  }

  function Prefixed(x: Bytes): Bytes {
    ToBe(|x|, 2) + x
  }

  /** First counter from `lo` below `hi` whose tag is `mac`. */
  function FindCounter(c: Cipher, body: Bytes, mac: Bytes, lo: nat, hi: nat): (r: Option<nat>)
    requires hi < COUNTERS
    ensures r.Some? ==> lo <= r.value < hi && Digest(c, r.value, body) == mac
    ensures r.None? ==> forall i :: lo <= i < hi ==> Digest(c, i, body) != mac
    decreases hi - lo
  {
    if lo >= hi then None
    else if Digest(c, lo, body) == mac then Some(lo)
    else FindCounter(c, body, mac, lo + 1, hi)
  }

  /** Lowest counter tried. */
  function Low(ctr: U32): nat {
    if ctr > 0 then ctr - 1 else 0
  }

  /** `ctr_start + DECRYPT_COUNTER_WINDOW` in 32 bits. */
  function High(ctr: U32): (h: nat)
    ensures h < COUNTERS
  {
    (ctr + COUNTER_WINDOW) % COUNTERS
  }

  datatype Received = Received(msg: Option<Bytes>, side: Side)

  /** Outcome for a decrypted plaintext: the message and the next counter. */
  function Check(c: Cipher, ctr: U32, p: Bytes): (Option<Bytes>, U32)
    requires Blocks(p)
  {
    if |p| <= MAC_LEN then (Some(p), (ctr + 1) % COUNTERS)
    else
      var n := |p| - MAC_LEN;
      var found := FindCounter(c, p[..n], p[n..], Low(ctr), High(ctr));
      if found.None? then (None, (ctr + 1) % COUNTERS)
      else
        var next := (found.value + 1) % COUNTERS;
        var inner := FromBe(p[..2]);
        if 2 + inner > n then (None, next) else (Some(p[2..2 + inner]), next)
  }

  /** `decrypt_message`: the chain consumes every block whatever the tag says. */
  function Opened(c: Cipher, side: Side, x: Bytes): (r: Received)
    requires Sound(c) && |side.chain| == BLOCK
    ensures |r.side.chain| == BLOCK
  {
    if x == [] || !Blocks(x) then Received(None, side)
    else
      var (msg, next) := Check(c, side.ctr, CbcDecrypt(c, side.chain, x));
      Received(msg, Side(next, Chain(side.chain, x)))
  }

  // ---- which messages carried a tag ----

  /** The decrypted record ends in the tag of its body for some counter of the window. */
  ghost predicate Tagged(c: Cipher, side: Side, x: Bytes)
    requires Sound(c) && |side.chain| == BLOCK && Blocks(x)
  {
    exists i: U32 :: Low(side.ctr) <= i < High(side.ctr) && EndsInTag(c, i, CbcDecrypt(c, side.chain, x))
  }

  predicate EndsInTag(c: Cipher, ctr: U32, p: Bytes) {
    |p| > MAC_LEN && Digest(c, ctr, p[..|p| - MAC_LEN]) == p[|p| - MAC_LEN..]
  }

  /** A delivered message carried a tag of the window if and only if its record is longer than one block. */
  lemma DeliveredTaggedIff(c: Cipher, side: Side, x: Bytes)
    requires Sound(c) && |side.chain| == BLOCK && Opened(c, side, x).msg.Some?
    ensures Blocks(x) && (Tagged(c, side, x) <==> |x| > BLOCK)
  {
    hide Sound, CbcDecrypt, Digest, FromBe;
    var p := CbcDecrypt(c, side.chain, x);
    if |x| > BLOCK {
      var n := |p| - MAC_LEN;
      var found := FindCounter(c, p[..n], p[n..], Low(side.ctr), High(side.ctr));
      assert EndsInTag(c, found.value, p);
    }
  }

  /** Every record of one block is delivered as it decrypts, whatever it holds. */
  lemma OneBlockDelivered(c: Cipher, side: Side, x: Bytes)
    requires Sound(c) && |side.chain| == BLOCK && |x| == BLOCK
    ensures Opened(c, side, x).msg == Some(CbcDecrypt(c, side.chain, x)) && !Tagged(c, side, x)
  {
    hide Sound, CbcDecrypt;
  }

  // ---- a genuine record ----

  lemma BodyInner(msg: Bytes)
    requires |msg| < 0x1_0000
    ensures |Body(msg)| >= 2 + |msg| && FromBe(Body(msg)[..2]) == |msg| && Body(msg)[2..2 + |msg|] == msg
  {
    Widths();
    FromBeToBe(|msg|, 2);
    assert Body(msg)[..2] == ToBe(|msg|, 2);
  }

  lemma FindsOwn(c: Cipher, body: Bytes, ctr: U32, lo: nat, hi: nat)
    requires BindsCounter(c) && hi < COUNTERS
    ensures FindCounter(c, body, Digest(c, ctr, body), lo, hi) == if lo <= ctr < hi then Some(ctr) else None
  {
    var r := FindCounter(c, body, Digest(c, ctr, body), lo, hi);
    if r.Some? {
      assert Digest(c, r.value, body) == Digest(c, ctr, body);
    }
  }

  /** Whether the receiver's window, in 32-bit arithmetic, contains the sender's counter. */
  predicate InWindow(rx: U32, tx: U32) {
    Low(rx) <= tx < High(rx)
  }

  /** A framed message is recovered exactly when the window holds its counter. */
  lemma CheckGenuine(c: Cipher, rx: U32, tx: U32, msg: Bytes)
    requires Sound(c) && BindsCounter(c) && Fits(msg)
    ensures Blocks(Framed(c, tx, msg))
    ensures Check(c, rx, Framed(c, tx, msg)) ==
            if InWindow(rx, tx) then (Some(msg), (tx + 1) % COUNTERS) else (None, (rx + 1) % COUNTERS)
  {
    hide Digest, Body, BindsCounter;
    var p := Framed(c, tx, msg);
    FramedShape(c, tx, msg);
    BodyInner(msg);
    var n := |p| - MAC_LEN;
    DigestLen(c, tx, Body(msg));
    assert p[..n] == Body(msg) && p[n..] == Digest(c, tx, Body(msg));
    FindsOwn(c, Body(msg), tx, Low(rx), High(rx));
    assert p[..2] == Body(msg)[..2] && p[2..2 + |msg|] == Body(msg)[2..2 + |msg|];
  }

  lemma DigestLen(c: Cipher, ctr: U32, body: Bytes)
    requires Sound(c)
    ensures |Digest(c, ctr, body)| == MAC_LEN
  {
    var b := ToBe(ctr, 4) + body;
    assert |c.hash(b)| == MAC_LEN;
  }

  /** An intact record with agreeing chains is delivered exactly when the window holds its counter. */
  lemma OpenedGenuine(c: Cipher, tx: Side, rx: Side, msg: Bytes)
    requires Sound(c) && BindsCounter(c) && Fits(msg) && |tx.chain| == BLOCK && rx.chain == tx.chain
    ensures var r := Opened(c, rx, Sealed(c, tx, msg));
            && r.side.chain == AfterSealing(c, tx, msg).chain
            && (if InWindow(rx.ctr, tx.ctr) then r.msg == Some(msg) && r.side.ctr == (tx.ctr + 1) % COUNTERS
                else r.msg == None && r.side.ctr == (rx.ctr + 1) % COUNTERS)
  {
    hide Check, Framed, BindsCounter, Sound;
    FramedShape(c, tx.ctr, msg);
    CbcRoundTrip(c, tx.chain, Framed(c, tx.ctr, msg));
    CheckGenuine(c, rx.ctr, tx.ctr, msg);
  }

  /**
   The counter window is computed in 32 bits. Receiver and sender in step, a record is delivered if and only
   if the counter is not among the last six: there the sum wraps and the search is empty.
   */
  lemma DeliveredIffNoWrap(c: Cipher, side: Side, msg: Bytes)
    requires Sound(c) && BindsCounter(c) && Fits(msg) && |side.chain| == BLOCK
    ensures Opened(c, side, Sealed(c, side, msg)).msg == Some(msg) <==> side.ctr + COUNTER_WINDOW < COUNTERS
  {
    hide Opened, Sealed, BindsCounter, Sound, Fits;
    OpenedGenuine(c, side, side, msg);
  }

  // ---- the stream of records ----

  datatype Drained = Drained(side: Side, msgs: seq<Bytes>, rest: Bytes)

  /** A complete record stands at the front of the buffer; `decrypt_stream` stops otherwise. */
  predicate HasRecord(data: Bytes) {
    && |data| >= 2
    && var len := FromBe(data[..2]); len != 0 && len % BLOCK == 0 && 2 + len <= |data|
  }

  function RecordEnd(data: Bytes): (n: nat)
    requires HasRecord(data)
    ensures 2 < n <= |data|
  {
    2 + FromBe(data[..2])
  }

  function Listed(msg: Option<Bytes>): seq<Bytes> {
    if msg.Some? then [msg.value] else []
  }

  /** `decrypt_stream`: messages of all complete records, and what is left of the buffer. */
  function Drain(c: Cipher, side: Side, data: Bytes): (d: Drained)
    requires Sound(c) && |side.chain| == BLOCK
    ensures |d.side.chain| == BLOCK
    decreases |data|
  {
    if !HasRecord(data) then Drained(side, [], data)
    else
      var n := RecordEnd(data);
      var r := Opened(c, side, data[2..n]);
      var d := Drain(c, r.side, data[n..]);
      Drained(d.side, Listed(r.msg) + d.msgs, d.rest)
  }

  lemma RecordExtends(data: Bytes, more: Bytes)
    requires HasRecord(data)
    ensures HasRecord(data + more) && RecordEnd(data + more) == RecordEnd(data)
    ensures (data + more)[2..RecordEnd(data)] == data[2..RecordEnd(data)]
    ensures (data + more)[RecordEnd(data)..] == data[RecordEnd(data)..] + more
  {
    assert (data + more)[..2] == data[..2];
  }

  /** Draining a buffer, then the remainder with more data, is draining everything at once. */
  lemma {:induction false} DrainResumes(c: Cipher, side: Side, data: Bytes, more: Bytes)
    requires Sound(c) && |side.chain| == BLOCK
    ensures var d := Drain(c, side, data);
            var e := Drain(c, d.side, d.rest + more);
            Drain(c, side, data + more) == Drained(e.side, d.msgs + e.msgs, e.rest)
    decreases |data|
  {
    hide Opened, Sound;
    if HasRecord(data) {
      RecordExtends(data, more);
      var n := RecordEnd(data);
      var r := Opened(c, side, data[2..n]);
      DrainResumes(c, r.side, data[n..], more);
      var d := Drain(c, r.side, data[n..]);
      var e := Drain(c, d.side, d.rest + more);
      assert Listed(r.msg) + (d.msgs + e.msgs) == (Listed(r.msg) + d.msgs) + e.msgs;
    } else {
      assert [] + Drain(c, side, data + more).msgs == Drain(c, side, data + more).msgs;
    }
  }

  function Concat(chunks: seq<Bytes>): Bytes {
    if chunks == [] then [] else Concat(chunks[..|chunks| - 1]) + chunks[|chunks| - 1]
  }

  /** The TCP reader: append a chunk to the buffer, drain, keep the remainder. */
  function ReadChunks(c: Cipher, side: Side, chunks: seq<Bytes>): (d: Drained)
    requires Sound(c) && |side.chain| == BLOCK
    ensures |d.side.chain| == BLOCK
  {
    if chunks == [] then Drained(side, [], [])
    else
      var d := ReadChunks(c, side, chunks[..|chunks| - 1]);
      var e := Drain(c, d.side, d.rest + chunks[|chunks| - 1]);
      Drained(e.side, d.msgs + e.msgs, e.rest)
  }

  /** For every byte stream the outcome does not depend on how TCP split it. */
  lemma {:induction false} ChunkingInvisible(c: Cipher, side: Side, chunks: seq<Bytes>)
    requires Sound(c) && |side.chain| == BLOCK
    ensures ReadChunks(c, side, chunks) == Drain(c, side, Concat(chunks))
  {
    hide Drain, Sound;
    if chunks == [] {
      DrainNothing(c, side);
    } else {
      ChunkingInvisible(c, side, chunks[..|chunks| - 1]);
      DrainResumes(c, side, Concat(chunks[..|chunks| - 1]), chunks[|chunks| - 1]);
    }
  }

  lemma DrainNothing(c: Cipher, side: Side)
    requires Sound(c) && |side.chain| == BLOCK
    ensures Drain(c, side, []) == Drained(side, [], [])
  {
  }

  // ---- a channel that damages and loses records ----

  /** The sender's ciphertexts for a list of messages. */
  function SealAll(c: Cipher, tx: Side, msgs: seq<Bytes>): (xs: seq<Bytes>)
    requires Sound(c) && |tx.chain| == BLOCK
    ensures |xs| == |msgs|
    decreases msgs
  {
    if msgs == [] then [] else [Sealed(c, tx, msgs[0])] + SealAll(c, AfterSealing(c, tx, msgs[0]), msgs[1..])
  }

  /** What the channel makes of each record: nothing, or a ciphertext of the same length. */
  type Arrivals = seq<Option<Bytes>>

  /** The bytes that reach the receiver. */
  function Carried(ys: Arrivals): Bytes {
    if ys == [] then [] else (if ys[0].Some? then Prefixed(ys[0].value) else []) + Carried(ys[1..])
  }

  datatype Fate = Vanished | Damaged | Intact

  /** Unchanged and decrypted under the chain it was encrypted under, or not. */
  function FateOf(c: Cipher, tx: Side, rxChain: Bytes, msg: Bytes, y: Option<Bytes>): Fate
    requires Sound(c) && |tx.chain| == BLOCK
  {
    if y.None? then Vanished
    else if y.value == Sealed(c, tx, msg) && rxChain == tx.chain then Intact
    else Damaged
  }

  function RxChain(chain: Bytes, y: Option<Bytes>): (r: Bytes)
    requires |chain| == BLOCK
    ensures |r| == BLOCK
  {
    if y.Some? then Chain(chain, y.value) else chain
  }

  function Fates(c: Cipher, tx: Side, rxChain: Bytes, msgs: seq<Bytes>, ys: Arrivals): (fs: seq<Fate>)
    requires Sound(c) && |tx.chain| == BLOCK && |rxChain| == BLOCK && |ys| == |msgs|
    ensures |fs| == |msgs|
    decreases msgs
  {
    if msgs == [] then []
    else [FateOf(c, tx, rxChain, msgs[0], ys[0])] +
         Fates(c, AfterSealing(c, tx, msgs[0]), RxChain(rxChain, ys[0]), msgs[1..], ys[1..])
  }

  /** How far the sender's counter is ahead of the receiver's, record by record. */
  function LagAfter(lag: int, f: Fate): int {
    match f
    case Vanished => lag + 1
    case Damaged => lag
    case Intact => if -1 <= lag <= 5 then 0 else lag
  }

  function FinalLag(lag: int, fs: seq<Fate>): int
    decreases fs
  {
    if fs == [] then lag else FinalLag(LagAfter(lag, fs[0]), fs[1..])
  }

  predicate Delivers(lag: int, f: Fate) {
    f == Intact && -1 <= lag <= 5
  }

  /** The messages whose records arrive intact within the window. */
  function Predicted(lag: int, fs: seq<Fate>, msgs: seq<Bytes>): seq<Bytes>
    requires |fs| == |msgs|
    decreases fs
  {
    if fs == [] then []
    else (if Delivers(lag, fs[0]) then [msgs[0]] else []) + Predicted(LagAfter(lag, fs[0]), fs[1..], msgs[1..])
  }

  // ---- the receiver does what the fates predict ----

  function NextRx(c: Cipher, rx: Side, y: Option<Bytes>): (r: Side)
    requires Sound(c) && |rx.chain| == BLOCK
    ensures |r.chain| == BLOCK && r.chain == RxChain(rx.chain, y)
  {
    if y.None? then rx
    else Opened(c, rx, y.value).side
  }

  /** No counter of the window verifies the decrypted record. */
  ghost predicate TagFails(c: Cipher, rx: Side, y: Bytes)
    requires Sound(c) && |rx.chain| == BLOCK
  {
    && Blocks(y) && |y| > MAC_LEN
    && var p := CbcDecrypt(c, rx.chain, y);
       FindCounter(c, p[..|p| - MAC_LEN], p[|p| - MAC_LEN..], Low(rx.ctr), High(rx.ctr)).None?
  }

  /** Arriving records keep their length, and a damaged one fails its tag. */
  ghost predicate DamageShows(c: Cipher, tx: Side, rx: Side, msgs: seq<Bytes>, ys: Arrivals)
    requires Sound(c) && |tx.chain| == BLOCK && |rx.chain| == BLOCK && |ys| == |msgs|
    decreases msgs
  {
    msgs == [] ||
    (&& (ys[0].Some? ==> |ys[0].value| == |Sealed(c, tx, msgs[0])|)
     && (FateOf(c, tx, rx.chain, msgs[0], ys[0]) == Damaged ==> TagFails(c, rx, ys[0].value))
     && DamageShows(c, AfterSealing(c, tx, msgs[0]), NextRx(c, rx, ys[0]), msgs[1..], ys[1..]))
  }

  lemma SealedShape(c: Cipher, tx: Side, msg: Bytes)
    requires Sound(c) && |tx.chain| == BLOCK
    ensures Blocks(Sealed(c, tx, msg)) && |Sealed(c, tx, msg)| == 2 + |msg| + PadLen(|msg|) + MAC_LEN >= 32
  {
    FramedShape(c, tx.ctr, msg);
  }

  ghost predicate AllFit(msgs: seq<Bytes>) {
    forall i :: 0 <= i < |msgs| ==> Fits(msgs[i])
  }

  /** A record that fails its tag costs one counter step and no message. */
  lemma OpenedDamaged(c: Cipher, rx: Side, y: Bytes)
    requires Sound(c) && |rx.chain| == BLOCK && Blocks(y) && |y| > MAC_LEN && TagFails(c, rx, y)
    ensures Opened(c, rx, y) == Received(None, Side((rx.ctr + 1) % COUNTERS, Chain(rx.chain, y)))
  {
    hide Sound, CbcDecrypt, FindCounter, Chain, Low, High;
  }

  lemma RecordFront(y: Bytes, rest: Bytes)
    requires Blocks(y) && 0 < |y| < 0x1_0000
    ensures HasRecord(Prefixed(y) + rest) && RecordEnd(Prefixed(y) + rest) == 2 + |y|
    ensures (Prefixed(y) + rest)[2..2 + |y|] == y && (Prefixed(y) + rest)[2 + |y|..] == rest
  {
    Widths();
    FromBeToBe(|y|, 2);
    assert (Prefixed(y) + rest)[..2] == ToBe(|y|, 2);
  }

  lemma DrainOne(c: Cipher, rx: Side, y: Bytes, rest: Bytes)
    requires Sound(c) && |rx.chain| == BLOCK && Blocks(y) && 0 < |y| < 0x1_0000
    ensures var r := Opened(c, rx, y);
            var d := Drain(c, r.side, rest);
            Drain(c, rx, Prefixed(y) + rest) == Drained(d.side, Listed(r.msg) + d.msgs, d.rest)
  {
    hide Opened, Sound, HasRecord, RecordEnd, Prefixed;
    RecordFront(y, rest);
  }

  /** The windows of the next `n` records do not wrap around. */
  predicate Headroom(side: Side, n: nat) {
    side.ctr + n + COUNTER_WINDOW <= COUNTERS
  }

  /** What one record does to the receiver. */
  lemma OneRecord(c: Cipher, tx: Side, rx: Side, msg: Bytes, y: Option<Bytes>)
    requires Sound(c) && BindsCounter(c) && Fits(msg) && |tx.chain| == BLOCK && |rx.chain| == BLOCK
    requires y.Some? ==> |y.value| == |Sealed(c, tx, msg)|
    requires FateOf(c, tx, rx.chain, msg, y) == Damaged ==> TagFails(c, rx, y.value)
    requires tx.ctr - rx.ctr >= -1 && Headroom(tx, 1) && Headroom(rx, 1)
    ensures var f, lag := FateOf(c, tx, rx.chain, msg, y), tx.ctr - rx.ctr;
            var next := NextRx(c, rx, y);
            && tx.ctr + 1 - next.ctr == LagAfter(lag, f)
            && (y.Some? ==> Listed(Opened(c, rx, y.value).msg) == if Delivers(lag, f) then [msg] else [])
            && (!Delivers(lag, f) || y.Some?)
  {
    hide Sealed, Check, TagFails, BindsCounter, Sound, Chain;
    if y.Some? {
      if FateOf(c, tx, rx.chain, msg, y) == Intact {
        OpenedGenuine(c, tx, rx, msg);
      } else {
        SealedShape(c, tx, msg);
        OpenedDamaged(c, rx, y.value);
      }
    }
  }

  /**
   The receiver of a channel that loses and damages records delivers exactly the messages whose records
   arrive intact, under an intact chain, while the counter lag is within the window; and its counter trails
   the sender's by exactly the predicted lag.
   */
  lemma {:induction false} ChannelOutcome(c: Cipher, tx: Side, rx: Side, msgs: seq<Bytes>, ys: Arrivals)
    requires Sound(c) && BindsCounter(c) && AllFit(msgs) && |tx.chain| == BLOCK && |rx.chain| == BLOCK && |ys| == |msgs|
    requires DamageShows(c, tx, rx, msgs, ys)
    requires tx.ctr - rx.ctr >= -1 && Headroom(tx, |msgs|) && Headroom(rx, |msgs|)
    ensures var d := Drain(c, rx, Carried(ys));
            var fs := Fates(c, tx, rx.chain, msgs, ys);
            && d.msgs == Predicted(tx.ctr - rx.ctr, fs, msgs) && d.rest == []
            && tx.ctr + |msgs| - d.side.ctr == FinalLag(tx.ctr - rx.ctr, fs)
    decreases msgs
  {
    hide Sealed, Sound, BindsCounter, Drain, Opened, FateOf, TagFails, Fits, Delivers, LagAfter;
    if msgs == [] {
      DrainNothing(c, rx);
    } else {
      var tx', rx' := AfterSealing(c, tx, msgs[0]), NextRx(c, rx, ys[0]);
      OneRecord(c, tx, rx, msgs[0], ys[0]);
      assert tx'.ctr == tx.ctr + 1;
      LagFloor(tx.ctr - rx.ctr, FateOf(c, tx, rx.chain, msgs[0], ys[0]));
      ChannelOutcome(c, tx', rx', msgs[1..], ys[1..]);
      if ys[0].Some? {
        SealedShape(c, tx, msgs[0]);
        FitsShape(c, tx, msgs[0]);
        DrainOne(c, rx, ys[0].value, Carried(ys[1..]));
      } else {
        assert [] + Carried(ys[1..]) == Carried(ys[1..]);
      }
    }
  }

  lemma LagFloor(lag: int, f: Fate)
    requires lag >= -1
    ensures LagAfter(lag, f) >= -1 && (LagAfter(lag, f) == -1 ==> lag == -1)
  {
  }

  lemma FitsShape(c: Cipher, tx: Side, msg: Bytes)
    requires Sound(c) && |tx.chain| == BLOCK && Fits(msg)
    ensures |Sealed(c, tx, msg)| < 0x1_0000
  {
    SealedShape(c, tx, msg);
  }

  // ---- consequences ----

  ghost predicate NoneVanish(fs: seq<Fate>) {
    forall i :: 0 <= i < |fs| ==> fs[i] != Vanished
  }

  /** The messages whose records are intact. */
  function IntactOnes(fs: seq<Fate>, msgs: seq<Bytes>): seq<Bytes>
    requires |fs| == |msgs|
  {
    if fs == [] then [] else (if fs[0] == Intact then [msgs[0]] else []) + IntactOnes(fs[1..], msgs[1..])
  }

  lemma {:induction false} InStepStays(fs: seq<Fate>, msgs: seq<Bytes>)
    requires |fs| == |msgs| && NoneVanish(fs)
    ensures Predicted(0, fs, msgs) == IntactOnes(fs, msgs) && FinalLag(0, fs) == 0
  {
    if fs != [] {
      assert LagAfter(0, fs[0]) == 0;
      InStepStays(fs[1..], msgs[1..]);
    }
  }

  /** Damage without loss: every intact record under an intact chain is delivered, in order, counters in step. */
  lemma DamageCostsNoStep(c: Cipher, tx: Side, rx: Side, msgs: seq<Bytes>, ys: Arrivals)
    requires Sound(c) && BindsCounter(c) && AllFit(msgs) && |tx.chain| == BLOCK && |rx.chain| == BLOCK && |ys| == |msgs|
    requires DamageShows(c, tx, rx, msgs, ys)
    requires tx.ctr == rx.ctr && Headroom(tx, |msgs|)
    requires forall i :: 0 <= i < |ys| ==> ys[i].Some?
    ensures var d := Drain(c, rx, Carried(ys));
            && d.msgs == IntactOnes(Fates(c, tx, rx.chain, msgs, ys), msgs)
            && d.rest == [] && d.side.ctr == tx.ctr + |msgs|
  {
    hide Sound, BindsCounter, Drain, DamageShows, Predicted, FinalLag, IntactOnes;
    ChannelOutcome(c, tx, rx, msgs, ys);
    ArrivedNoneVanish(c, tx, rx.chain, msgs, ys);
    InStepStays(Fates(c, tx, rx.chain, msgs, ys), msgs);
  }

  lemma {:induction false} ArrivedNoneVanish(c: Cipher, tx: Side, rxChain: Bytes, msgs: seq<Bytes>, ys: Arrivals)
    requires Sound(c) && |tx.chain| == BLOCK && |rxChain| == BLOCK && |ys| == |msgs|
    requires forall i :: 0 <= i < |ys| ==> ys[i].Some?
    ensures NoneVanish(Fates(c, tx, rxChain, msgs, ys))
    decreases msgs
  {
    hide Sound, Sealed, AfterSealing;
    if msgs != [] {
      ArrivedNoneVanish(c, AfterSealing(c, tx, msgs[0]), RxChain(rxChain, ys[0]), msgs[1..], ys[1..]);
    }
  }

  function Whole(xs: seq<Bytes>): (ys: Arrivals)
    ensures |ys| == |xs|
  {
    seq(|xs|, i requires 0 <= i < |xs| => Some(xs[i]))
  }

  /** Records that all arrive unchanged, chains agreeing, are all intact. */
  lemma {:induction false} UntouchedIntact(c: Cipher, tx: Side, rx: Side, msgs: seq<Bytes>)
    requires Sound(c) && BindsCounter(c) && AllFit(msgs) && |tx.chain| == BLOCK && rx.chain == tx.chain
    ensures var ys := Whole(SealAll(c, tx, msgs));
            var fs := Fates(c, tx, rx.chain, msgs, ys);
            && (forall i :: 0 <= i < |fs| ==> fs[i] == Intact)
            && DamageShows(c, tx, rx, msgs, ys)
    decreases msgs
  {
    hide Sealed, Sound, BindsCounter, Opened, TagFails, Fits;
    if msgs != [] {
      var ys := Whole(SealAll(c, tx, msgs));
      var tx', rx' := AfterSealing(c, tx, msgs[0]), NextRx(c, rx, ys[0]);
      SealedShape(c, tx, msgs[0]);
      assert ys[0] == Some(Sealed(c, tx, msgs[0]));
      assert ys[1..] == Whole(SealAll(c, tx', msgs[1..]));
      ChainAgrees(tx.chain, rx.chain, Sealed(c, tx, msgs[0]));
      UntouchedIntact(c, tx', rx', msgs[1..]);
      assert FateOf(c, tx, rx.chain, msgs[0], ys[0]) == Intact;
      assert Fates(c, tx, rx.chain, msgs, ys) == [Intact] + Fates(c, tx', rx'.chain, msgs[1..], ys[1..]);
      assert DamageShows(c, tx, rx, msgs, ys);
    }
  }

  lemma ChainAgrees(a: Bytes, b: Bytes, x: Bytes)
    requires Blocks(x) && x != []
    ensures Chain(a, x) == Chain(b, x)
  {
  }

  lemma AllIntactDelivered(fs: seq<Fate>, msgs: seq<Bytes>)
    requires |fs| == |msgs| && forall i :: 0 <= i < |fs| ==> fs[i] == Intact
    ensures IntactOnes(fs, msgs) == msgs
  {
    if fs != [] {
      AllIntactDelivered(fs[1..], msgs[1..]);
      assert msgs == [msgs[0]] + msgs[1..];
    }
  }

  /** The sender's records as one byte stream. */
  function Stream(c: Cipher, side: Side, msgs: seq<Bytes>): Bytes
    requires Sound(c) && |side.chain| == BLOCK
  {
    Carried(Whole(SealAll(c, side, msgs)))
  }

  /** Decrypting the concatenation of the sender's records returns exactly the messages. */
  lemma StreamDelivered(c: Cipher, side: Side, msgs: seq<Bytes>)
    requires Sound(c) && BindsCounter(c) && AllFit(msgs) && |side.chain| == BLOCK
    requires Headroom(side, |msgs|)
    ensures var d := Drain(c, side, Stream(c, side, msgs));
            d.msgs == msgs && d.rest == [] && d.side.ctr == (side.ctr + |msgs|) % COUNTERS
  {
    hide Sound, BindsCounter, Drain, DamageShows, Fits, SealAll, Fates;
    var ys := Whole(SealAll(c, side, msgs));
    UntouchedIntact(c, side, side, msgs);
    DamageCostsNoStep(c, side, side, msgs, ys);
    AllIntactDelivered(Fates(c, side, side.chain, msgs, ys), msgs);
  }

  lemma StreamFirst(c: Cipher, tx: Side, rx: Side, msgs: seq<Bytes>)
    requires Sound(c) && AllFit(msgs) && |tx.chain| == BLOCK && |rx.chain| == BLOCK && msgs != []
    ensures var r := Opened(c, rx, Sealed(c, tx, msgs[0]));
            var d := Drain(c, r.side, Stream(c, AfterSealing(c, tx, msgs[0]), msgs[1..]));
            Drain(c, rx, Stream(c, tx, msgs)).msgs == Listed(r.msg) + d.msgs
  {
    hide Sound, Sealed, Opened, Drain, Fits;
    var xs := SealAll(c, tx, msgs);
    var ys := Whole(xs);
    assert ys[1..] == Whole(xs[1..]);
    assert Stream(c, tx, msgs) == Prefixed(xs[0]) + Stream(c, AfterSealing(c, tx, msgs[0]), msgs[1..]);
    SealedShape(c, tx, msgs[0]);
    FitsShape(c, tx, msgs[0]);
    DrainOne(c, rx, xs[0], Stream(c, AfterSealing(c, tx, msgs[0]), msgs[1..]));
  }

  /** No record yields more than one message. */
  lemma {:induction false} AtMostAll(c: Cipher, tx: Side, rx: Side, msgs: seq<Bytes>)
    requires Sound(c) && AllFit(msgs) && |tx.chain| == BLOCK && |rx.chain| == BLOCK
    ensures |Drain(c, rx, Stream(c, tx, msgs)).msgs| <= |msgs|
    decreases msgs
  {
    hide Sound, Sealed, Opened, Drain, Fits, Stream;
    if msgs == [] {
      StreamEmpty(c, tx);
      DrainNothing(c, rx);
    } else {
      StreamFirst(c, tx, rx, msgs);
      AtMostAll(c, AfterSealing(c, tx, msgs[0]), Opened(c, rx, Sealed(c, tx, msgs[0])).side, msgs[1..]);
    }
  }

  lemma StreamEmpty(c: Cipher, tx: Side)
    requires Sound(c) && |tx.chain| == BLOCK
    ensures Stream(c, tx, []) == []
  {
  }

  /** The record whose window wraps is lost, and nothing makes up for it. */
  lemma {:induction false} StreamShort(c: Cipher, side: Side, msgs: seq<Bytes>)
    requires Sound(c) && BindsCounter(c) && AllFit(msgs) && |side.chain| == BLOCK
    requires msgs != [] && !Headroom(side, |msgs|)
    ensures |Drain(c, side, Stream(c, side, msgs)).msgs| < |msgs|
    decreases msgs
  {
    hide Sound, BindsCounter, Sealed, Opened, Drain, Fits, Stream;
    var x := Sealed(c, side, msgs[0]);
    var next := AfterSealing(c, side, msgs[0]);
    var r := Opened(c, side, x);
    StreamFirst(c, side, side, msgs);
    AtMostAll(c, next, r.side, msgs[1..]);
    OpenedGenuine(c, side, side, msgs[0]);
    if InWindow(side.ctr, side.ctr) {
      assert r.side == next;
      assert side.ctr + COUNTER_WINDOW < COUNTERS by { DeliveredIffNoWrap(c, side, msgs[0]); }
      StreamShort(c, next, msgs[1..]);
    }
  }

  /** The round trip holds exactly while no counter window wraps around. */
  lemma StreamRoundTrip(c: Cipher, side: Side, msgs: seq<Bytes>)
    requires Sound(c) && BindsCounter(c) && AllFit(msgs) && |side.chain| == BLOCK
    ensures Drain(c, side, Stream(c, side, msgs)).msgs == msgs <==> msgs == [] || Headroom(side, |msgs|)
  {
    hide Sound, BindsCounter, Drain, Fits, Stream;
    if msgs == [] {
      StreamEmpty(c, side);
      DrainNothing(c, side);
    } else if Headroom(side, |msgs|) {
      StreamDelivered(c, side, msgs);
    } else {
      StreamShort(c, side, msgs);
    }
  }

  /** A lag of six or more is never made up: nothing is delivered again. */
  lemma {:induction false} LostForever(lag: int, fs: seq<Fate>, msgs: seq<Bytes>)
    requires |fs| == |msgs| && lag > 5
    ensures Predicted(lag, fs, msgs) == [] && FinalLag(lag, fs) > 5
    decreases fs
  {
    if fs != [] {
      LostForever(LagAfter(lag, fs[0]), fs[1..], msgs[1..]);
    }
  }

  lemma {:induction false} VanishRaisesLag(lag: int, gap: nat, fs: seq<Fate>, msgs: seq<Bytes>)
    requires |fs| == |msgs| && gap <= |fs| && forall i :: 0 <= i < gap ==> fs[i] == Vanished
    ensures Predicted(lag, fs, msgs) == Predicted(lag + gap, fs[gap..], msgs[gap..])
    ensures FinalLag(lag, fs) == FinalLag(lag + gap, fs[gap..])
    decreases gap
  {
    if gap == 0 {
      assert fs[0..] == fs && msgs[0..] == msgs;
    } else {
      VanishRaisesLag(lag + 1, gap - 1, fs[1..], msgs[1..]);
      assert fs[1..][gap - 1..] == fs[gap..] && msgs[1..][gap - 1..] == msgs[gap..];
      assert [] + Predicted(lag + 1, fs[1..], msgs[1..]) == Predicted(lag + 1, fs[1..], msgs[1..]);
    }
  }

  /**
   Resynchronisation. Receiver and sender in step, `gap` whole records vanish, the next record is undecodable
   because the chain is broken, and everything after it is intact. If `gap` is at most five, exactly that one
   further record is lost and the counters agree again at the end; if it is larger, nothing is ever delivered again.
   */
  lemma GapCosts(gap: nat, fs: seq<Fate>, msgs: seq<Bytes>)
    requires |fs| == |msgs| && gap < |fs| - 1
    requires forall i :: 0 <= i < gap ==> fs[i] == Vanished
    requires fs[gap] == Damaged && forall i :: gap < i < |fs| ==> fs[i] == Intact
    ensures gap <= 5 ==> Predicted(0, fs, msgs) == msgs[gap + 1..] && FinalLag(0, fs) == 0
    ensures gap > 5 ==> Predicted(0, fs, msgs) == [] && FinalLag(0, fs) > 5
  {
    VanishRaisesLag(0, gap, fs, msgs);
    var gs, ns := fs[gap..], msgs[gap..];
    if gap > 5 {
      LostForever(gap, gs, ns);
    } else {
      var hs, os := gs[1..], ns[1..];
      assert os == msgs[gap + 1..] && hs[0] == Intact;
      assert Predicted(gap, gs, ns) == [] + Predicted(gap, hs, os);
      assert Predicted(gap, hs, os) == [os[0]] + Predicted(0, hs[1..], os[1..]);
      InStepStays(hs[1..], os[1..]);
      AllIntactDelivered(hs[1..], os[1..]);
    }
  }

  function AfterAll(c: Cipher, tx: Side, msgs: seq<Bytes>): (r: Side)
    requires Sound(c) && |tx.chain| == BLOCK
    ensures |r.chain| == BLOCK
    decreases msgs
  {
    if msgs == [] then tx else AfterAll(c, AfterSealing(c, tx, msgs[0]), msgs[1..])
  }

  /** The records of `lost` vanish, those of `sent` arrive unchanged. */
  function WithGap(c: Cipher, tx: Side, lost: seq<Bytes>, sent: seq<Bytes>): (ys: Arrivals)
    requires Sound(c) && |tx.chain| == BLOCK
    ensures |ys| == |lost| + |sent|
    decreases lost
  {
    if lost == [] then Whole(SealAll(c, tx, sent))
    else [None] + WithGap(c, AfterSealing(c, tx, lost[0]), lost[1..], sent)
  }

  ghost predicate GapShape(fs: seq<Fate>, gap: nat) {
    && gap < |fs| && fs[gap] == Damaged
    && (forall i :: 0 <= i < gap ==> fs[i] == Vanished)
    && (forall i :: gap < i < |fs| ==> fs[i] == Intact)
  }

  /** After a gap the first record meets a foreign chain; it puts the chain right for the next. */
  lemma {:induction false} GapFates(c: Cipher, tx: Side, rxChain: Bytes, lost: seq<Bytes>, sent: seq<Bytes>)
    requires Sound(c) && BindsCounter(c) && AllFit(sent) && sent != [] && |tx.chain| == BLOCK && |rxChain| == BLOCK
    requires AfterAll(c, tx, lost).chain != rxChain
    ensures GapShape(Fates(c, tx, rxChain, lost + sent, WithGap(c, tx, lost, sent)), |lost|)
    decreases lost
  {
    hide Sealed, Sound, BindsCounter, Fits;
    if lost == [] {
      assert lost + sent == sent;
      BrokenChainFates(c, tx, rxChain, sent);
    } else {
      var ys, msgs := WithGap(c, tx, lost, sent), lost + sent;
      var tx' := AfterSealing(c, tx, lost[0]);
      assert msgs[0] == lost[0] && msgs[1..] == lost[1..] + sent && ys[1..] == WithGap(c, tx', lost[1..], sent);
      GapFates(c, tx', rxChain, lost[1..], sent);
      assert Fates(c, tx, rxChain, msgs, ys) == [Vanished] + Fates(c, tx', rxChain, msgs[1..], ys[1..]);
    }
  }

  lemma BrokenChainFates(c: Cipher, tx: Side, rxChain: Bytes, sent: seq<Bytes>)
    requires Sound(c) && BindsCounter(c) && AllFit(sent) && sent != [] && |tx.chain| == BLOCK && |rxChain| == BLOCK
    requires tx.chain != rxChain
    ensures GapShape(Fates(c, tx, rxChain, sent, Whole(SealAll(c, tx, sent))), 0)
  {
    hide Sealed, Sound, BindsCounter, Fits, DamageShows;
    var ys, tx' := Whole(SealAll(c, tx, sent)), AfterSealing(c, tx, sent[0]);
    SealedShape(c, tx, sent[0]);
    assert ys[0] == Some(Sealed(c, tx, sent[0])) && ys[1..] == Whole(SealAll(c, tx', sent[1..]));
    ChainAgrees(tx.chain, rxChain, Sealed(c, tx, sent[0]));
    UntouchedIntact(c, tx', tx', sent[1..]);
    assert Fates(c, tx, rxChain, sent, ys) == [Damaged] + Fates(c, tx', tx'.chain, sent[1..], ys[1..]);
  }

  lemma LatterFit(lost: seq<Bytes>, sent: seq<Bytes>)
    requires AllFit(lost + sent)
    ensures AllFit(sent)
  {
    hide Fits;
    forall i | 0 <= i < |sent| ensures Fits(sent[i]) {
      assert (lost + sent)[|lost| + i] == sent[i];
    }
  }

  /** The same on the wire: at most five vanished records cost one more; six or more end the session. */
  lemma GapOnTheWire(c: Cipher, tx: Side, rx: Side, lost: seq<Bytes>, sent: seq<Bytes>)
    requires Sound(c) && BindsCounter(c) && AllFit(lost + sent) && |sent| >= 2
    requires |tx.chain| == BLOCK && |rx.chain| == BLOCK
    requires tx.ctr == rx.ctr && Headroom(tx, |lost| + |sent|)
    requires AfterAll(c, tx, lost).chain != rx.chain
    requires DamageShows(c, tx, rx, lost + sent, WithGap(c, tx, lost, sent))
    ensures var d := Drain(c, rx, Carried(WithGap(c, tx, lost, sent)));
            && d.rest == []
            && (|lost| <= 5 ==> d.msgs == sent[1..] && d.side.ctr == tx.ctr + |lost| + |sent|)
            && (|lost| > 5 ==> d.msgs == [])
  {
    hide Sound, BindsCounter, Drain, DamageShows, AllFit, Fates, Predicted, FinalLag, WithGap, AfterAll, Carried;
    var msgs := lost + sent;
    ChannelOutcome(c, tx, rx, msgs, WithGap(c, tx, lost, sent));
    LatterFit(lost, sent);
    GapFates(c, tx, rx.chain, lost, sent);
    var fs := Fates(c, tx, rx.chain, msgs, WithGap(c, tx, lost, sent));
    GapCosts(|lost|, fs, msgs);
    assert msgs[|lost| + 1..] == sent[1..];
  }

  // ---- the objects ----

  class RecordCipher {
    const cipher: Cipher
    var encCtr: U32
    var decCtr: U32
    var encChain: Bytes
    var decChain: Bytes

    ghost predicate Valid() reads this {
      Sound(cipher) && |encChain| == BLOCK && |decChain| == BLOCK
    }

    ghost function Tx(): Side reads this { Side(encCtr, encChain) }
    ghost function Rx(): Side reads this { Side(decCtr, decChain) }

    constructor (cipher: Cipher, iv: Bytes)
      requires Sound(cipher) && |iv| == BLOCK
      ensures Valid() && this.cipher == cipher && Tx() == Side(0, iv) && Rx() == Side(0, iv)
    {
      this.cipher := cipher;
      encCtr, decCtr, encChain, decChain := 0, 0, iv, iv;
    }

    method EncryptMessage(msg: Bytes) returns (out: Bytes)
      requires Valid()
      modifies this
      ensures Valid() && Rx() == old(Rx())
      ensures out == old(Prefixed(Sealed(cipher, Tx(), msg))) && Tx() == old(AfterSealing(cipher, Tx(), msg))
    {
      hide Sound, ToBe, Zeros, PadLen, XorAll;
      var counter := encCtr;
      var pad := PadLen(|msg|);
      var body := ToBe(|msg|, 2) + msg + Zeros(pad);
      var framed := body + cipher.hash(ToBe(counter, 4) + body);
      FramedShape(cipher, counter, msg);
      var x := CbcEncrypt(cipher, encChain, framed);
      assert framed == Framed(cipher, counter, msg) && x == old(Sealed(cipher, Tx(), msg));
      out := ToBe(|framed|, 2) + x;
      encChain := Chain(encChain, x);
      encCtr := (counter as int + 1) % COUNTERS;
    }

    method DecryptMessage(x: Bytes) returns (msg: Option<Bytes>)
      requires Valid()
      modifies this
      ensures Valid() && Tx() == old(Tx())
      ensures Received(msg, Rx()) == old(Opened(cipher, Rx(), x))
    {
      hide Sound, CbcDecrypt, Check;
      if x == [] || !Blocks(x) {
        return None;
      }
      var p := CbcDecrypt(cipher, decChain, x);
      decChain := Chain(decChain, x);
      msg, decCtr := Verify(p, decCtr);
    }

    /** The decrypted record against the counter window: the message and the next counter. */
    method Verify(p: Bytes, start: U32) returns (msg: Option<Bytes>, next: U32)
      requires Blocks(p)
      ensures (msg, next) == Check(cipher, start, p)
    {
      hide FromBe, FindCounter, Low, High;
      next := (start as int + 1) % COUNTERS;
      if |p| <= MAC_LEN {
        return Some(p), next;
      }
      var n := |p| - MAC_LEN;
      var found := SearchCounter(p[..n], p[n..], Low(start), High(start));
      if found.None? {
        return None, next;
      }
      next := (found.value as int + 1) % COUNTERS;
      var inner := FromBe(p[..2]);
      if 2 + inner > n {
        return None, next;
      }
      return Some(p[2..2 + inner]), next;
    }

    /** The loop over the tolerant counter window. */
    method SearchCounter(body: Bytes, mac: Bytes, lo: nat, hi: nat) returns (r: Option<nat>)
      requires hi < COUNTERS
      ensures r == FindCounter(cipher, body, mac, lo, hi)
    {
      hide ToBe;
      var i := lo;
      while i < hi
        invariant lo <= i && FindCounter(cipher, body, mac, i, hi) == FindCounter(cipher, body, mac, lo, hi)
      {
        if Digest(cipher, i, body) == mac {
          return Some(i);
        }
        i := i + 1;
      }
      return None;
    }

    /** Decrypts as many complete records as `data` holds; returns the number of bytes consumed. */
    method DecryptStream(data: Bytes) returns (consumed: nat, out: seq<Bytes>)
      requires Valid()
      modifies this
      ensures Valid() && Tx() == old(Tx()) && consumed <= |data|
      ensures Drained(Rx(), out, data[consumed..]) == old(Drain(cipher, Rx(), data))
    {
      hide Sound, Opened, FromBe, Drain, HasRecord, RecordEnd;
      consumed, out := 0, [];
      ghost var all := Drain(cipher, Rx(), data);
      assert data[0..] == data && [] + all.msgs == all.msgs;
      while HasRecord(data[consumed..])
        invariant consumed <= |data| && Valid() && Tx() == old(Tx())
        invariant var d := Drain(cipher, Rx(), data[consumed..]); Drained(d.side, out + d.msgs, d.rest) == all
        decreases |data| - consumed
      {
        var n := RecordEnd(data[consumed..]);
        DrainStep(cipher, Rx(), data[consumed..]);
        assert data[consumed..][2..n] == data[consumed + 2..consumed + n];
        assert data[consumed..][n..] == data[consumed + n..];
        var msg := DecryptMessage(data[consumed + 2..consumed + n]);
        ghost var d := Drain(cipher, Rx(), data[consumed + n..]);
        consumed := consumed + n;
        assert out + (Listed(msg) + d.msgs) == (out + Listed(msg)) + d.msgs;
        out := out + Listed(msg);
      }
      DrainStop(cipher, Rx(), data[consumed..]);
    }
  }

  lemma DrainStep(c: Cipher, side: Side, data: Bytes)
    requires Sound(c) && |side.chain| == BLOCK && HasRecord(data)
    ensures var r := Opened(c, side, data[2..RecordEnd(data)]);
            var d := Drain(c, r.side, data[RecordEnd(data)..]);
            Drain(c, side, data) == Drained(d.side, Listed(r.msg) + d.msgs, d.rest)
  {
  }

  lemma DrainStop(c: Cipher, side: Side, data: Bytes)
    requires Sound(c) && |side.chain| == BLOCK && !HasRecord(data)
    ensures Drain(c, side, data) == Drained(side, [], data)
  {
  }

  /** The TCP thread's loop over received chunks. */
  method ReadAll(r: RecordCipher, chunks: seq<Bytes>) returns (buf: Bytes, msgs: seq<Bytes>)
    requires r.Valid()
    modifies r
    ensures r.Valid() && r.Tx() == old(r.Tx())
    ensures Drained(r.Rx(), msgs, buf) == old(Drain(r.cipher, r.Rx(), Concat(chunks)))
  {
    hide Drain;
    ghost var rx := r.Rx();
    buf, msgs := [], [];
    for i := 0 to |chunks|
      invariant r.Valid() && r.Tx() == old(r.Tx())
      invariant Drained(r.Rx(), msgs, buf) == ReadChunks(r.cipher, rx, chunks[..i])
    {
      assert chunks[..i + 1][..i] == chunks[..i];
      buf := buf + chunks[i];
      var consumed, out := r.DecryptStream(buf);
      msgs := msgs + out;
      buf := buf[consumed..];
    }
    assert chunks[..|chunks|] == chunks;
    ChunkingInvisible(r.cipher, rx, chunks);
  }
}
