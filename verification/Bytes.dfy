/** Byte strings: big-endian fields (src/common/bytes.h) and exclusive or. */
module Bytes {
  import opened Wire

  type Bytes = seq<U8>

  /** 256 to the power `n`. */
  function Pow256(n: nat): nat {
    if n == 0 then 1 else 256 * Pow256(n - 1)
  }

  /** Big-endian value of a byte string. */
  function FromBe(b: Bytes): nat {
    if b == [] then 0 else FromBe(b[..|b| - 1]) * 256 + b[|b| - 1]
  }

  /** The low `n` bytes of `v`, most significant first. */
  function ToBe(v: nat, n: nat): (b: Bytes)
    ensures |b| == n
  {
    if n == 0 then [] else ToBe(v / 256, n - 1) + [v % 256]
  }

  lemma {:induction false} FromBeToBe(v: nat, n: nat)
    requires v < Pow256(n)
    ensures FromBe(ToBe(v, n)) == v
  {
    if n > 0 {
      FromBeToBe(v / 256, n - 1);
      assert ToBe(v, n)[..n - 1] == ToBe(v / 256, n - 1);
    }
  }

  lemma {:induction false} FromBeBound(b: Bytes)
    ensures FromBe(b) < Pow256(|b|)
  {
    if b != [] {
      FromBeBound(b[..|b| - 1]);
    }
  }

  lemma {:induction false} ToBeFromBe(b: Bytes)
    ensures ToBe(FromBe(b), |b|) == b
  {
    if b != [] {
      var init := FromBe(b[..|b| - 1]);
      ToBeFromBe(b[..|b| - 1]);
      assert FromBe(b) / 256 == init && FromBe(b) % 256 == b[|b| - 1];
      assert b == b[..|b| - 1] + [b[|b| - 1]];
    }
  }

  lemma ToBeInjective(v: nat, w: nat, n: nat)
    requires v < Pow256(n) && w < Pow256(n) && ToBe(v, n) == ToBe(w, n)
    ensures v == w
  {
    FromBeToBe(v, n);
    FromBeToBe(w, n);
  }

  lemma Widths()
    ensures Pow256(1) == 0x100 && Pow256(2) == 0x1_0000 && Pow256(4) == 0x1_0000_0000
    ensures Pow256(6) == 0x1_0000_0000_0000 && Pow256(8) == 0x1_0000_0000_0000_0000
  {
    assert Pow256(3) == 0x100_0000 && Pow256(5) == 0x100_0000_0000 && Pow256(7) == 0x100_0000_0000_0000;
  }

  function Pow2(n: nat): (p: nat)
    ensures p > 0
  {
    if n == 0 then 1 else 2 * Pow2(n - 1)
  }

  /** Exclusive or of the low `n` bits, bit by bit. */
  function XorBits(a: nat, b: nat, n: nat): (x: nat)
    ensures x < Pow2(n)
  {
    if n == 0 then 0 else 2 * XorBits(a / 2, b / 2, n - 1) + (if a % 2 == b % 2 then 0 else 1)
  }

  function Xor(a: U8, b: U8): U8 {
    assert Pow2(8) == 0x100 by { assert Pow2(4) == 16; }
    XorBits(a, b, 8)
  }

  lemma {:induction false} XorBitsTwice(a: nat, k: nat, n: nat)
    requires a < Pow2(n)
    ensures XorBits(XorBits(a, k, n), k, n) == a
  {
    if n > 0 {
      XorBitsTwice(a / 2, k / 2, n - 1);
      HalfAndBit(XorBits(a / 2, k / 2, n - 1), if a % 2 == k % 2 then 0 else 1);
    }
  }

  lemma HalfAndBit(x: nat, y: nat)
    requires y < 2
    ensures (2 * x + y) / 2 == x && (2 * x + y) % 2 == y
  {
  }

  lemma XorTwice(a: U8, k: U8)
    ensures Xor(Xor(a, k), k) == a
  {
    assert Pow2(8) == 0x100 by { assert Pow2(4) == 16; }
    XorBitsTwice(a, k, 8);
  }

  function XorAll(a: Bytes, b: Bytes): (r: Bytes)
    requires |a| == |b|
    ensures |r| == |a|
  {
    seq(|a|, i requires 0 <= i < |a| => Xor(a[i], b[i]))
  }

  lemma XorAllTwice(a: Bytes, k: Bytes)
    requires |a| == |k|
    ensures XorAll(XorAll(a, k), k) == a
  {
    forall i | 0 <= i < |a| ensures Xor(Xor(a[i], k[i]), k[i]) == a[i] {
      XorTwice(a[i], k[i]);
    }
  }

  lemma MulMono(m: int, a: int, b: int)
    requires m > 0 && a <= b
    ensures m * a <= m * b
  {
  }

  /** Quotient and remainder are determined by their defining equation. */
  lemma DivModUnique(a: int, m: int, q: int, r: int)
    requires m > 0 && a == m * q + r && 0 <= r < m
    ensures a / m == q && a % m == r
  {
    var q' := a / m;
    assert a == m * q' + a % m;
    if q < q' {
      MulMono(m, q + 1, q');
    } else if q' < q {
      MulMono(m, q' + 1, q);
    }
  }
}
