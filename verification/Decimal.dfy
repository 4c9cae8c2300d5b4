/** Decimal numerals as the source writes (`std::to_string`) and reads (`std::stol`) them. */
module Decimal {
  import opened Wire
  import opened Bytes

  const ZERO: U8 := 48
  const MINUS: U8 := 45

  predicate IsDigit(b: U8) {
    ZERO <= b <= ZERO + 9
  }

  predicate AllDigits(s: Bytes) {
    forall i :: 0 <= i < |s| ==> IsDigit(s[i])
  }

  /** No superfluous leading zero. */
  predicate Canonical(s: Bytes) {
    s != [] && AllDigits(s) && (|s| > 1 ==> s[0] != ZERO)
  }

  function Numeral(n: nat): (s: Bytes)
    ensures s != []
  {
    if n < 10 then [ZERO + n] else Numeral(n / 10) + [ZERO + n % 10]
  }

  function ValueOf(s: Bytes): nat
    requires AllDigits(s)
  {
    if s == [] then 0 else ValueOf(s[..|s| - 1]) * 10 + (s[|s| - 1] - ZERO)
  }

  lemma {:induction false} NumeralCanonical(n: nat)
    ensures Canonical(Numeral(n)) && (n > 0 ==> Numeral(n)[0] != ZERO)
  {
    if n >= 10 {
      NumeralCanonical(n / 10);
    }
  }

  lemma {:induction false} ValueOfNumeral(n: nat)
    ensures AllDigits(Numeral(n)) && ValueOf(Numeral(n)) == n
  {
    NumeralCanonical(n);
    if n >= 10 {
      ValueOfNumeral(n / 10);
      assert Numeral(n)[..|Numeral(n)| - 1] == Numeral(n / 10);
    } else {
      assert [ZERO + n][..0] == [];
    }
  }

  lemma {:induction false} ValuePositive(s: Bytes)
    requires AllDigits(s) && s != [] && s[0] != ZERO
    ensures ValueOf(s) > 0
  {
    if |s| > 1 {
      ValuePositive(s[..|s| - 1]);
    }
  }

  /** A canonical numeral is the numeral of its value. */
  lemma {:induction false} NumeralOfValue(s: Bytes)
    requires Canonical(s)
    ensures Numeral(ValueOf(s)) == s
  {
    var n := |s| - 1;
    assert s == s[..n] + [s[n]];
    if n == 0 {
      assert ValueOf(s[..0]) == 0;
    } else {
      ValuePositive(s[..n]);
      NumeralOfValue(s[..n]);
      var v, d := ValueOf(s[..n]), s[n] - ZERO;
      assert (v * 10 + d) / 10 == v && (v * 10 + d) % 10 == d;
    }
  }

  lemma NumeralInjective(a: nat, b: nat)
    requires Numeral(a) == Numeral(b)
    ensures a == b
  {
    ValueOfNumeral(a);
    ValueOfNumeral(b);
  }

  function Signed(i: int): (s: Bytes)
    ensures s != []
  {
    if i < 0 then [MINUS] + Numeral(-i) else Numeral(i)
  }

  lemma SignedInjective(a: int, b: int)
    requires Signed(a) == Signed(b)
    ensures a == b
  {
    NumeralCanonical(if a < 0 then -a else a);
    NumeralCanonical(if b < 0 then -b else b);
    assert Signed(a)[0] == MINUS <==> a < 0;
    assert Signed(b)[0] == MINUS <==> b < 0;
    if a < 0 {
      assert Numeral(-a) == Signed(a)[1..] && Numeral(-b) == Signed(b)[1..];
      NumeralInjective(-a, -b);
    } else {
      NumeralInjective(a, b);
    }
  }

  function Pow10(k: nat): nat {
    if k == 0 then 1 else 10 * Pow10(k - 1)
  }

  lemma {:induction false} NumeralLength(n: nat, k: nat)
    requires k > 0 && n < Pow10(k)
    ensures |Numeral(n)| <= k
  {
    if n >= 10 {
      NumeralLength(n / 10, k - 1);
    }
  }
}
