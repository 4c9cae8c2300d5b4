/** The assumptions about ciphers, damage and gaps in the record layer can be met together. */
module RecordWitness {
  import opened Wire
  import opened Bytes
  import opened RecordLayer

  /** The identity as block cipher, and the first twenty bytes as digest: the counter and one block of the body. */
  const PLAIN := Cipher(Same, Same, FirstTwenty)

  function Same(b: Bytes): Bytes { b }

  function FirstTwenty(b: Bytes): (t: Bytes)
    ensures |t| == MAC_LEN
  {
    if |b| >= MAC_LEN then b[..MAC_LEN] else b + Zeros(MAC_LEN - |b|)
  }

  lemma CounterInFront(i: U32, body: Bytes)
    ensures Digest(PLAIN, i, body)[..4] == ToBe(i, 4)
    ensures |body| >= BLOCK ==> Digest(PLAIN, i, body) == ToBe(i, 4) + body[..BLOCK]
  {
    hide ToBe;
    assert (ToBe(i, 4) + body)[..4] == ToBe(i, 4);
  }

  lemma PlainMeets()
    ensures Sound(PLAIN) && BindsCounter(PLAIN)
  {
    forall body: Bytes, i: U32, j: U32 | Digest(PLAIN, i, body) == Digest(PLAIN, j, body) ensures i == j {
      CounterInFront(i, body);
      CounterInFront(j, body);
      Widths();
      ToBeInjective(i, j, 4);
    }
  }

  lemma {:induction false} XorBitsSwap(a: nat, b: nat, n: nat)
    ensures XorBits(a, b, n) == XorBits(b, a, n)
  {
    if n > 0 {
      XorBitsSwap(a / 2, b / 2, n - 1);
    }
  }

  /** Decrypting one block under two chains gives two plaintexts. */
  lemma ChainsShow(x: Bytes, k: Bytes, l: Bytes)
    requires |x| == |k| == |l| && XorAll(x, k) == XorAll(x, l)
    ensures k == l
  {
    forall i | 0 <= i < |x| ensures k[i] == l[i] {
      assert XorAll(x, k)[i] == XorAll(x, l)[i];
      XorBitsSwap(x[i], k[i], 8);
      XorBitsSwap(x[i], l[i], 8);
      XorTwice(k[i], x[i]);
      XorTwice(l[i], x[i]);
    }
  }

  /** A record of three blocks or more that meets a foreign chain fails its tag. */
  lemma ForeignChainFails(tx: Side, rx: Side, msg: Bytes)
    requires Sound(PLAIN) && |tx.chain| == |rx.chain| == BLOCK && tx.chain != rx.chain && |msg| >= 11
    ensures TagFails(PLAIN, rx, Sealed(PLAIN, tx, msg))
  {
    hide Sound, Digest, XorAll, FindCounter, CbcDecrypt, CbcEncrypt;
    var f, y := Framed(PLAIN, tx.ctr, msg), Sealed(PLAIN, tx, msg);
    FramedShape(PLAIN, tx.ctr, msg);
    CbcRoundTrip(PLAIN, tx.chain, f);
    var p := CbcDecrypt(PLAIN, rx.chain, y);
    FirstBlock(tx.chain, y);
    FirstBlock(rx.chain, y);
    if p[..BLOCK] == f[..BLOCK] {
      ChainsShow(y[..BLOCK], tx.chain, rx.chain);
    }
    var n := |p| - MAC_LEN;
    assert f[..n] == Body(msg) && f[n..] == Digest(PLAIN, tx.ctr, Body(msg));
    forall i: U32 ensures Digest(PLAIN, i, p[..n]) != p[n..] {
      TagDiffers(f, p, n, tx.ctr, i);
    }
  }

  /** The tag of a plaintext does not fit one that differs in the first block. */
  lemma TagDiffers(f: Bytes, p: Bytes, n: nat, ctr: U32, i: U32)
    requires |f| == |p| == n + MAC_LEN && n >= BLOCK && p[BLOCK..] == f[BLOCK..] && p[..BLOCK] != f[..BLOCK]
    requires f[n..] == Digest(PLAIN, ctr, f[..n])
    ensures Digest(PLAIN, i, p[..n]) != p[n..]
  {
    hide Digest, ToBe;
    CounterInFront(ctr, f[..n]);
    CounterInFront(i, p[..n]);
    assert p[n..] == p[BLOCK..][n - BLOCK..] == f[BLOCK..][n - BLOCK..] == f[n..];
    assert f[..n][..BLOCK] == f[..BLOCK] && p[..n][..BLOCK] == p[..BLOCK];
    assert (ToBe(i, 4) + p[..BLOCK])[4..] == p[..BLOCK];
    assert (ToBe(ctr, 4) + f[..BLOCK])[4..] == f[..BLOCK];
  }

  lemma FirstBlock(chain: Bytes, y: Bytes)
    requires Sound(PLAIN) && |chain| == BLOCK && Blocks(y) && y != []
    ensures |y| >= BLOCK
    ensures var p := CbcDecrypt(PLAIN, chain, y);
      p[..BLOCK] == XorAll(y[..BLOCK], chain) && p[BLOCK..] == CbcDecrypt(PLAIN, y[..BLOCK], y[BLOCK..])
  {
    hide Sound, XorAll;
  }

  /** Whatever is lost, the damage after a gap shows, as long as the chain has moved on. */
  lemma {:induction false} GapShows(tx: Side, rx: Side, lost: seq<Bytes>, sent: seq<Bytes>)
    requires Sound(PLAIN) && BindsCounter(PLAIN) && AllFit(sent) && sent != [] && |sent[0]| >= 11
    requires |tx.chain| == |rx.chain| == BLOCK && AfterAll(PLAIN, tx, lost).chain != rx.chain
    ensures DamageShows(PLAIN, tx, rx, lost + sent, WithGap(PLAIN, tx, lost, sent))
    decreases lost
  {
    hide Sound, BindsCounter, Sealed, TagFails, Fits, Opened;
    var ys := WithGap(PLAIN, tx, lost, sent);
    if lost == [] {
      assert lost + sent == sent;
      var y, tx' := Sealed(PLAIN, tx, sent[0]), AfterSealing(PLAIN, tx, sent[0]);
      ForeignChainFails(tx, rx, sent[0]);
      SealedShape(PLAIN, tx, sent[0]);
      assert ys[0] == Some(y) && ys[1..] == Whole(SealAll(PLAIN, tx', sent[1..]));
      ChainAgrees(tx.chain, rx.chain, y);
      UntouchedIntact(PLAIN, tx', NextRx(PLAIN, rx, Some(y)), sent[1..]);
    } else {
      var tx' := AfterSealing(PLAIN, tx, lost[0]);
      GapShows(tx', rx, lost[1..], sent);
      assert (lost + sent)[1..] == lost[1..] + sent && ys[1..] == WithGap(PLAIN, tx', lost[1..], sent);
    }
  }

  // ---- gaps in step ----

  lemma XorParity(a: U8, b: U8)
    ensures Xor(a, b) % 2 == (a as int + b as int) % 2
  {
  }

  lemma NextBlock(iv: Bytes, p: Bytes)
    requires Sound(PLAIN) && |iv| == BLOCK && Blocks(p) && p != []
    ensures |p| >= BLOCK
    ensures var x := XorAll(p[..BLOCK], iv);
      CbcEncrypt(PLAIN, iv, p) == x + CbcEncrypt(PLAIN, x, p[BLOCK..])
  {
    hide Sound, XorAll;
  }

  lemma ThreeBlocks(iv: Bytes, p: Bytes)
    requires Sound(PLAIN) && |iv| == BLOCK && |p| == 48
    ensures Chain(iv, CbcEncrypt(PLAIN, iv, p)) == XorAll(p[32..], XorAll(p[16..32], XorAll(p[..16], iv)))
  {
    hide Sound, XorAll, CbcEncrypt;
    var q, r := p[16..], p[32..];
    assert q[..16] == p[16..32] && q[16..] == r && r[..16] == r && r[16..] == [];
    var a := XorAll(p[..16], iv);
    var b := XorAll(q[..16], a);
    NextBlock(iv, p);
    NextBlock(a, q);
    NextBlock(b, r);
  }

  lemma LastByteParity(iv: Bytes, f: Bytes)
    requires |iv| == 16 && |f| == 48
    ensures XorAll(f[32..], XorAll(f[16..32], XorAll(f[..16], iv)))[15] % 2
         == (f[47] as int + f[31] as int + f[15] as int + iv[15] as int) % 2
  {
    hide Xor;
    XorParity(f[15], iv[15]);
    XorParity(f[31], Xor(f[15], iv[15]));
    XorParity(f[47], Xor(f[31], Xor(f[15], iv[15])));
  }

  lemma {:induction false} ZerosAt(n: nat, i: nat)
    requires i < n
    ensures Zeros(n)[i] == 0
  {
    if i < n - 1 {
      ZerosAt(n - 1, i);
    }
  }

  const MESSAGE: Bytes := Zeros(26)

  /** The last bytes of the three blocks of the framed message. */
  lemma FramedBytes(ctr: U32)
    requires Sound(PLAIN)
    ensures var f := Framed(PLAIN, ctr, MESSAGE); |f| == 48 && f[15] == 0 && f[31] == ctr % 256 && f[47] == 0
  {
    hide Sound, Digest, Zeros, ToBe;
    var body := Body(MESSAGE);
    assert PadLen(26) == 0 && |Zeros(0)| == 0;
    assert |body| == 28 && body[15] == MESSAGE[13];
    ZerosAt(26, 13);
    CounterInFront(ctr, body);
    LowByteLast(ctr);
  }

  lemma LowByteLast(v: nat)
    ensures ToBe(v, 4)[3] == v % 256
  {
  }

  lemma ByteParity(v: nat)
    ensures v % 256 % 2 == v % 2
  {
  }

  /** Sealing the message adds the counter to the parity of the chain's last byte. */
  lemma ChainParity(side: Side)
    requires Sound(PLAIN) && |side.chain| == BLOCK
    ensures AfterSealing(PLAIN, side, MESSAGE).chain[15] % 2 == (side.chain[15] as int + side.ctr as int) % 2
  {
    hide Sound, Framed, CbcEncrypt, XorAll;
    var f := Framed(PLAIN, side.ctr, MESSAGE);
    FramedBytes(side.ctr);
    ByteParity(side.ctr);
    ThreeBlocks(side.chain, f);
    LastByteParity(side.chain, f);
  }

  function Copies(n: nat): (r: seq<Bytes>)
    ensures |r| == n && forall i :: 0 <= i < n ==> r[i] == MESSAGE
  {
    seq(n, _ => MESSAGE)
  }

  function SumFrom(ctr: nat, n: nat): nat
    decreases n
  {
    if n == 0 then 0 else ctr + SumFrom(ctr + 1, n - 1)
  }

  lemma {:induction false} ManyParity(side: Side, n: nat)
    requires Sound(PLAIN) && |side.chain| == BLOCK && side.ctr + n < COUNTERS
    ensures AfterAll(PLAIN, side, Copies(n)).chain[15] % 2 == (side.chain[15] as int + SumFrom(side.ctr, n)) % 2
    decreases n
  {
    hide Sound, AfterSealing;
    if n > 0 {
      var next := AfterSealing(PLAIN, side, MESSAGE);
      ChainParity(side);
      NextCounter(side);
      ManyParity(next, n - 1);
      assert Copies(n)[1..] == Copies(n - 1);
    }
  }

  lemma NextCounter(side: Side)
    requires Sound(PLAIN) && |side.chain| == BLOCK && side.ctr + 1 < COUNTERS
    ensures AfterSealing(PLAIN, side, MESSAGE).ctr == side.ctr + 1
  {
  }

  lemma OddSums()
    ensures SumFrom(1, 5) == 15 && SumFrom(1, 6) == 21
  {
    assert SumFrom(4, 2) == 9 && SumFrom(4, 3) == 15;
    assert SumFrom(3, 3) == 12 && SumFrom(3, 4) == 18;
  }

  lemma MessageFits()
    ensures |MESSAGE| == 26 && Fits(MESSAGE)
  {
  }

  lemma ChainMoved(side: Side, n: nat)
    requires Sound(PLAIN) && side == Side(1, Zeros(BLOCK)) && (n == 5 || n == 6)
    ensures AfterAll(PLAIN, side, Copies(n)).chain != side.chain
  {
    hide Sound, AfterAll, SumFrom, Zeros;
    ManyParity(side, n);
    OddSums();
    ZerosAt(BLOCK, 15);
  }

  lemma CopiesFit(msgs: seq<Bytes>)
    requires forall i :: 0 <= i < |msgs| ==> msgs[i] == MESSAGE
    ensures AllFit(msgs)
  {
    hide Fits;
    MessageFits();
  }

  /** Sender and receiver in step, five or six records lost and two sent: everything `GapOnTheWire` asks for. */
  lemma GapPremiseMet(n: nat) returns (side: Side, lost: seq<Bytes>, sent: seq<Bytes>)
    requires n == 5 || n == 6
    ensures Sound(PLAIN) && BindsCounter(PLAIN) && |lost| == n && |sent| == 2 && AllFit(lost + sent)
    ensures |side.chain| == BLOCK && Headroom(side, n + 2)
    ensures AfterAll(PLAIN, side, lost).chain != side.chain
    ensures DamageShows(PLAIN, side, side, lost + sent, WithGap(PLAIN, side, lost, sent))
  {
    PlainMeets();
    hide Sound, BindsCounter, AfterAll, DamageShows, WithGap, Zeros, AllFit, Copies;
    side, lost, sent := Side(1, Zeros(BLOCK)), Copies(n), Copies(2);
    ChainMoved(side, n);
    CopiesFit(lost + sent);
    CopiesFit(sent);
    MessageFits();
    GapShows(side, side, lost, sent);
  }
}
