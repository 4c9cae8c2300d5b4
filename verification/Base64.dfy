/** Strict base64 of src/tunnel/pairing.cpp:13-70; sections 3.5 and 5 of RFC 4648. */
module Base64 {
  import opened Wire
  import opened Bytes

  datatype Alphabet = Url | Std

  const PAD: U8 := 61  // '='

  type Sextet = x: int | 0 <= x < 64

  /** `alphabet[v]`. */
  function Symbol(a: Alphabet, v: Sextet): U8 {
    if v < 26 then 65 + v
    else if v < 52 then 71 + v
    else if v < 62 then v - 4
    else if v == 62 then (if a.Url? then 45 else 43)
    else if a.Url? then 95 else 47
  }

  /** `alphabet_index`: the value of a symbol, if it is one. */
  function Lookup(a: Alphabet, c: U8): Option<Sextet> {
    if 65 <= c <= 90 then Some(c - 65)
    else if 97 <= c <= 122 then Some(c - 71)
    else if 48 <= c <= 57 then Some(c + 4)
    else if c == Symbol(a, 62) then Some(62)
    else if c == Symbol(a, 63) then Some(63)
    else None
  }

  lemma LookupSymbol(a: Alphabet, v: Sextet)
    ensures Lookup(a, Symbol(a, v)) == Some(v)
  {
  }

  lemma SymbolLookup(a: Alphabet, c: U8)
    requires Lookup(a, c).Some?
    ensures Symbol(a, Lookup(a, c).value) == c && c != PAD && c > 32
  {
  }

  /** Three bytes as four symbols. */
  function Quad(a: Alphabet, x: U8, y: U8, z: U8): Bytes {
    [Symbol(a, x / 4), Symbol(a, x % 4 * 16 + y / 16), Symbol(a, y % 16 * 4 + z / 64), Symbol(a, z % 64)]
  }

  /** `b64_encode` without padding. */
  function Encode(a: Alphabet, raw: Bytes): Bytes {
    if raw == [] then []
    else if |raw| == 1 then [Symbol(a, raw[0] / 4), Symbol(a, raw[0] % 4 * 16)]
    else if |raw| == 2 then
      [Symbol(a, raw[0] / 4), Symbol(a, raw[0] % 4 * 16 + raw[1] / 16), Symbol(a, raw[1] % 16 * 4)]
    else Quad(a, raw[0], raw[1], raw[2]) + Encode(a, raw[3..])
  }

  function Padding(n: nat): Bytes {
    if n % 3 == 1 then [PAD, PAD] else if n % 3 == 2 then [PAD] else []
  }

  /** Two to the power of an even number of bits below eight. */
  function Scale(bits: nat): (p: nat)
    ensures p > 0
  {
    if bits == 0 then 1 else if bits == 2 then 4 else if bits == 4 then 16 else 64
  }

  /** `bits` bits of value `pend` have been read and not written yet. */
  predicate Pending(pend: nat, bits: nat) {
    (bits == 0 || bits == 2 || bits == 4 || bits == 6) && pend < Scale(bits)
  }

  /** The decoding loop from the middle. At the end fewer than six bits may be left over, all zero. */
  function DecodeFrom(a: Alphabet, s: Bytes, pend: nat, bits: nat): Option<Bytes>
    requires Pending(pend, bits)
  {
    if s == [] then (if bits < 6 && pend == 0 then Some([]) else None)
    else
      var v := Lookup(a, s[0]);
      if v.None? then None
      else if bits == 0 then DecodeFrom(a, s[1..], v.value, 6)
      else
        var acc, p := pend * 64 + v.value, Scale(bits - 2);
        var r := DecodeFrom(a, s[1..], acc % p, bits - 2);
        if r.None? then None else Some([acc / p] + r.value)
  }

  /** `b64_decode` of an unpadded text. */
  function Decode(a: Alphabet, s: Bytes): Option<Bytes> {
    if PAD in s || |s| % 4 == 1 then None else DecodeFrom(a, s, 0, 0)
  }

  // ---- the two are inverse ----

  /** One round of the loop off a byte boundary. */
  lemma Round(a: Alphabet, s: Bytes, pend: nat, bits: nat, v: Sextet)
    requires Pending(pend, bits) && bits > 0 && s != [] && Lookup(a, s[0]) == Some(v)
    ensures var acc, p := pend * 64 + v, Scale(bits - 2);
            var r := DecodeFrom(a, s[1..], acc % p, bits - 2);
            && acc / p < 0x100
            && DecodeFrom(a, s, pend, bits) == if r.None? then None else Some([acc / p] + r.value)
  {
  }

  lemma RoundEnd(a: Alphabet, s: Bytes, pend: nat, bits: nat, v: Sextet)
    requires Pending(pend, bits) && bits > 0 && |s| == 1 && Lookup(a, s[0]) == Some(v)
    ensures var acc, p := pend * 64 + v, Scale(bits - 2);
            && acc / p < 0x100
            && DecodeFrom(a, s, pend, bits) == if acc % p == 0 then Some([acc / p]) else None
  {
    Round(a, s, pend, bits, v);
    assert s[1..] == [];
    assert DecodeFrom(a, [], (pend * 64 + v) % Scale(bits - 2), bits - 2) ==
           if (pend * 64 + v) % Scale(bits - 2) == 0 then Some([]) else None;
    assert [(pend * 64 + v) / Scale(bits - 2)] + [] == [(pend * 64 + v) / Scale(bits - 2)];
  }

  /** The three bytes that four sextets stand for. */
  function Bytes3(v: Sextet, w: Sextet, x: Sextet, y: Sextet): Bytes {
    [v * 4 + w / 16, w % 16 * 16 + x / 4, x % 4 * 64 + y]
  }

  ghost predicate Symbols(a: Alphabet, s: Bytes) {
    forall i :: 0 <= i < |s| ==> Lookup(a, s[i]).Some?
  }

  lemma {:induction false} DecodedSymbols(a: Alphabet, s: Bytes, pend: nat, bits: nat)
    requires Pending(pend, bits) && DecodeFrom(a, s, pend, bits).Some?
    ensures Symbols(a, s)
  {
    hide Lookup;
    if s != [] {
      var v := Lookup(a, s[0]).value;
      if bits == 0 {
        DecodedSymbols(a, s[1..], v, 6);
      } else {
        DecodedSymbols(a, s[1..], (pend * 64 + v) % Scale(bits - 2), bits - 2);
      }
    }
  }

  lemma FirstRound(a: Alphabet, s: Bytes, v: Sextet)
    requires s != [] && Lookup(a, s[0]) == Some(v)
    ensures DecodeFrom(a, s, 0, 0) == DecodeFrom(a, s[1..], v, 6)
  {
  }

  /** Four symbols at a byte boundary give three bytes. */
  lemma QuadDecodes(a: Alphabet, s: Bytes, v: Sextet, w: Sextet, x: Sextet, y: Sextet)
    requires |s| >= 4 && Lookup(a, s[0]) == Some(v) && Lookup(a, s[1]) == Some(w)
    requires Lookup(a, s[2]) == Some(x) && Lookup(a, s[3]) == Some(y)
    ensures var rest := DecodeFrom(a, s[4..], 0, 0);
            DecodeFrom(a, s, 0, 0) == if rest.None? then None else Some(Bytes3(v, w, x, y) + rest.value)
  {
    hide Lookup, DecodeFrom;
    var s1, s2, s3 := s[1..], s[2..], s[3..];
    assert s1[1..] == s2 && s2[1..] == s3 && s3[1..] == s[4..];
    Split16(v, w);
    Split4(w % 16, x);
    Round(a, s1, v, 6, w);
    Round(a, s2, w % 16, 4, x);
    Round(a, s3, x % 4, 2, y);
    var rest := DecodeFrom(a, s[4..], 0, 0);
    FirstRound(a, s, v);
    if rest.Some? {
      assert [v * 4 + w / 16] + ([w % 16 * 16 + x / 4] + ([x % 4 * 64 + y] + rest.value))
          == Bytes3(v, w, x, y) + rest.value;
    }
  }

  lemma Split16(v: Sextet, w: Sextet)
    ensures (v * 64 + w) / 16 == v * 4 + w / 16 && (v * 64 + w) % 16 == w % 16
  {
  }

  lemma Split4(v: nat, w: Sextet)
    ensures (v * 64 + w) / 4 == v * 16 + w / 4 && (v * 64 + w) % 4 == w % 4
  {
  }

  lemma QuadRoundTrip(x: U8, y: U8, z: U8)
    ensures Bytes3(x / 4, x % 4 * 16 + y / 16, y % 16 * 4 + z / 64, z % 64) == [x, y, z]
  {
    var p, q, r := x % 4, y / 16, y % 16;
    DivModUnique(p * 16 + q, 16, p, q);
    DivModUnique(r * 4 + z / 64, 4, r, z / 64);
  }

  lemma SextetRoundTrip(v: Sextet, w: Sextet, x: Sextet, y: Sextet)
    ensures var b := Bytes3(v, w, x, y);
            b[0] / 4 == v && b[0] % 4 * 16 + b[1] / 16 == w && b[1] % 16 * 4 + b[2] / 64 == x && b[2] % 64 == y
  {
    var p, q, r := w / 16, w % 16, x / 4;
    assert (v * 4 + p) / 4 == v && (v * 4 + p) % 4 == p;
    assert (q * 16 + r) / 16 == q && (q * 16 + r) % 16 == r;
    assert (x % 4 * 64 + y) / 64 == x % 4 && (x % 4 * 64 + y) % 64 == y;
  }

  /** Decoding undoes encoding. */
  lemma {:induction false} DecodeEncode(a: Alphabet, raw: Bytes)
    ensures DecodeFrom(a, Encode(a, raw), 0, 0) == Some(raw)
  {
    hide Lookup, Symbol, DecodeFrom;
    if raw == [] {
      EncodeNone(a);
    } else if |raw| == 1 {
      EncodeOne(a, raw[0]);
      assert raw == [raw[0]];
    } else if |raw| == 2 {
      EncodeTwo(a, raw[0], raw[1]);
      assert raw == [raw[0], raw[1]];
    } else {
      EncodeThree(a, raw[0], raw[1], raw[2], Encode(a, raw[3..]));
      DecodeEncode(a, raw[3..]);
      assert raw == [raw[0], raw[1], raw[2]] + raw[3..];
    }
  }

  lemma EncodeNone(a: Alphabet)
    ensures DecodeFrom(a, [], 0, 0) == Some([])
  {
  }

  lemma EncodeOne(a: Alphabet, x: U8)
    ensures DecodeFrom(a, [Symbol(a, x / 4), Symbol(a, x % 4 * 16)], 0, 0) == Some([x])
  {
    hide Lookup, Symbol;
    var v, w := x / 4, x % 4 * 16;
    var s := [Symbol(a, v), Symbol(a, w)];
    LookupSymbol(a, v);
    LookupSymbol(a, w);
    Split16(v, w);
    assert s[1..] == [Symbol(a, w)];
    RoundEnd(a, s[1..], v, 6, w);
  }

  lemma EncodeThree(a: Alphabet, x: U8, y: U8, z: U8, rest: Bytes)
    ensures var r := DecodeFrom(a, rest, 0, 0);
            DecodeFrom(a, Quad(a, x, y, z) + rest, 0, 0) == if r.None? then None else Some([x, y, z] + r.value)
  {
    hide Lookup, Symbol, DecodeFrom;
    var s := Quad(a, x, y, z) + rest;
    LookupSymbol(a, x / 4);
    LookupSymbol(a, x % 4 * 16 + y / 16);
    LookupSymbol(a, y % 16 * 4 + z / 64);
    LookupSymbol(a, z % 64);
    QuadDecodes(a, s, x / 4, x % 4 * 16 + y / 16, y % 16 * 4 + z / 64, z % 64);
    QuadRoundTrip(x, y, z);
    assert s[4..] == rest;
  }

  lemma EncodeTwo(a: Alphabet, x: U8, y: U8)
    ensures DecodeFrom(a, [Symbol(a, x / 4), Symbol(a, x % 4 * 16 + y / 16), Symbol(a, y % 16 * 4)], 0, 0)
         == Some([x, y])
  {
    hide Lookup, Symbol;
    var v, w, u := x / 4, x % 4 * 16 + y / 16, y % 16 * 4;
    var s := [Symbol(a, v), Symbol(a, w), Symbol(a, u)];
    LookupSymbol(a, v);
    LookupSymbol(a, w);
    LookupSymbol(a, u);
    assert s[1..][1..] == [Symbol(a, u)];
    Split16(v, w);
    Split4(w % 16, u);
    Round(a, s[1..], v, 6, w);
    RoundEnd(a, s[1..][1..], w % 16, 4, u);
    assert w % 16 == y / 16 && w / 16 == x % 4 && u / 4 == y % 16 && u % 4 == 0;
    assert [x] + [y] == [x, y];
  }

  /** A text that decodes is the encoding of what it decodes to: every value has one spelling. */
  lemma {:induction false} EncodeDecode(a: Alphabet, s: Bytes, raw: Bytes)
    requires DecodeFrom(a, s, 0, 0) == Some(raw)
    ensures Encode(a, raw) == s
    decreases |s|
  {
    hide Lookup, Symbol, DecodeFrom;
    DecodedSymbols(a, s, 0, 0);
    if |s| >= 4 {
      var v, w, x, y := Lookup(a, s[0]).value, Lookup(a, s[1]).value, Lookup(a, s[2]).value, Lookup(a, s[3]).value;
      QuadDecodes(a, s, v, w, x, y);
      QuadSpelling(a, s, v, w, x, y);
      EncodeDecode(a, s[4..], raw[3..]);
      assert s == [s[0], s[1], s[2], s[3]] + s[4..];
    } else if |s| == 3 {
      SpellThree(a, s, raw);
    } else if |s| == 2 {
      SpellTwo(a, s, raw);
    } else {
      SpellNone(a, s, raw);
    }
  }

  lemma QuadSpelling(a: Alphabet, s: Bytes, v: Sextet, w: Sextet, x: Sextet, y: Sextet)
    requires |s| >= 4 && Lookup(a, s[0]) == Some(v) && Lookup(a, s[1]) == Some(w)
    requires Lookup(a, s[2]) == Some(x) && Lookup(a, s[3]) == Some(y)
    ensures var b := Bytes3(v, w, x, y); Quad(a, b[0], b[1], b[2]) == [s[0], s[1], s[2], s[3]]
  {
    hide Lookup, Symbol;
    SextetRoundTrip(v, w, x, y);
    SymbolLookup(a, s[0]);
    SymbolLookup(a, s[1]);
    SymbolLookup(a, s[2]);
    SymbolLookup(a, s[3]);
  }

  lemma SpellNone(a: Alphabet, s: Bytes, raw: Bytes)
    requires |s| < 2 && DecodeFrom(a, s, 0, 0) == Some(raw)
    ensures Encode(a, raw) == s
  {
  }

  lemma SpellTwo(a: Alphabet, s: Bytes, raw: Bytes)
    requires |s| == 2 && DecodeFrom(a, s, 0, 0) == Some(raw)
    ensures Encode(a, raw) == s
  {
    hide Lookup, Symbol;
    DecodedSymbols(a, s, 0, 0);
    var v, w := Lookup(a, s[0]).value, Lookup(a, s[1]).value;
    SymbolLookup(a, s[0]);
    SymbolLookup(a, s[1]);
    Split16(v, w);
    RoundEnd(a, s[1..], v, 6, w);
    SextetRoundTrip(v, w, 0, 0);
    assert raw[0] == Bytes3(v, w, 0, 0)[0] && w % 16 == 0;
    assert s == [s[0], s[1]];
  }

  lemma ThreeDecodes(a: Alphabet, s: Bytes, v: Sextet, w: Sextet, x: Sextet)
    requires |s| == 3 && Lookup(a, s[0]) == Some(v) && Lookup(a, s[1]) == Some(w) && Lookup(a, s[2]) == Some(x)
    ensures DecodeFrom(a, s, 0, 0) == if x % 4 == 0 then Some(Bytes3(v, w, x, 0)[..2]) else None
  {
    hide Lookup, DecodeFrom;
    Split16(v, w);
    Split4(w % 16, x);
    assert s[1..][1..] == s[2..];
    FirstRound(a, s, v);
    Round(a, s[1..], v, 6, w);
    RoundEnd(a, s[2..], w % 16, 4, x);
    assert Bytes3(v, w, x, 0)[..2] == [v * 4 + w / 16] + [w % 16 * 16 + x / 4];
  }

  lemma SpellThree(a: Alphabet, s: Bytes, raw: Bytes)
    requires |s| == 3 && DecodeFrom(a, s, 0, 0) == Some(raw)
    ensures Encode(a, raw) == s
  {
    hide Lookup, Symbol, DecodeFrom, Bytes3;
    DecodedSymbols(a, s, 0, 0);
    var v, w, x := Lookup(a, s[0]).value, Lookup(a, s[1]).value, Lookup(a, s[2]).value;
    SymbolLookup(a, s[0]);
    SymbolLookup(a, s[1]);
    SymbolLookup(a, s[2]);
    ThreeDecodes(a, s, v, w, x);
    SextetRoundTrip(v, w, x, 0);
    Bytes3Last(v, w, x);
    assert s == [s[0], s[1], s[2]];
  }

  lemma Bytes3Last(v: Sextet, w: Sextet, x: Sextet)
    requires x % 4 == 0
    ensures |Bytes3(v, w, x, 0)| == 3 && Bytes3(v, w, x, 0)[2] == 0
  {
  }

  lemma {:induction false} EncodeLength(a: Alphabet, raw: Bytes)
    ensures |Encode(a, raw)| <= 2 * |raw| && |Encode(a, raw)| % 4 != 1 && (raw != [] ==> Encode(a, raw) != [])
  {
    hide Symbol;
    if |raw| >= 3 {
      EncodeLength(a, raw[3..]);
    }
  }

  /** `base64url_decode(base64url_encode(raw))` and its converse. */
  lemma Base64Bijection(a: Alphabet, s: Bytes, raw: Bytes)
    ensures Decode(a, s) == Some(raw) <==> s == Encode(a, raw)
  {
    hide Lookup, DecodeFrom, Encode;
    DecodeEncode(a, raw);
    EncodeLength(a, raw);
    if s == Encode(a, raw) {
      DecodedSymbols(a, s, 0, 0);
      NoPad(a, s);
    } else if Decode(a, s) == Some(raw) {
      EncodeDecode(a, s, raw);
    }
  }

  lemma NoPad(a: Alphabet, s: Bytes)
    requires Symbols(a, s)
    ensures PAD !in s && forall i :: 0 <= i < |s| ==> s[i] > 32
  {
    forall i | 0 <= i < |s| ensures s[i] > 32 && s[i] != PAD {
      SymbolLookup(a, s[i]);
    }
  }

  // ---- padded texts ----

  function StripPad(s: Bytes): (r: Bytes)
    ensures r <= s
  {
    if s != [] && s[|s| - 1] == PAD then StripPad(s[..|s| - 1]) else s
  }

  /** `b64_decode`: padding is required or forbidden. */
  function DecodeStrict(a: Alphabet, s: Bytes, requirePad: bool): Option<Bytes> {
    if !requirePad then Decode(a, s)
    else if s == [] || |s| % 4 != 0 || |s| - |StripPad(s)| > 2 || |StripPad(s)| % 4 == 1 then None
    else DecodeFrom(a, StripPad(s), 0, 0)
  }

  // ---- the loops ----

  /** The 24-bit word of three bytes. */
  function Word(x: U8, y: U8, z: U8): nat {
    x * 0x1_0000 + y * 0x100 + z
  }

  lemma WordSymbols(x: U8, y: U8, z: U8)
    ensures var v := Word(x, y, z);
            && v / 0x4_0000 % 64 == x / 4 && v / 0x1000 % 64 == x % 4 * 16 + y / 16
            && v / 0x40 % 64 == y % 16 * 4 + z / 64 && v % 64 == z % 64
  {
    var v := Word(x, y, z);
    var a, b, c, d, e, f := x / 4, x % 4, y / 16, y % 16, z / 64, z % 64;
    DivModUnique(v, 0x4_0000, a, b * 0x1_0000 + y * 0x100 + z);
    DivModUnique(v, 0x1000, 64 * a + 16 * b + c, d * 0x100 + z);
    DivModUnique(64 * a + 16 * b + c, 64, a, 16 * b + c);
    DivModUnique(v, 0x40, 64 * (64 * a + 16 * b + c) + 4 * d + e, f);
    DivModUnique(64 * (64 * a + 16 * b + c) + 4 * d + e, 64, 64 * a + 16 * b + c, 4 * d + e);
  }

  /** The symbols of a 24-bit word. */
  function WordText(a: Alphabet, v: nat): (t: Bytes)
    ensures |t| == 4
  {
    [Symbol(a, v / 0x4_0000 % 64), Symbol(a, v / 0x1000 % 64), Symbol(a, v / 0x40 % 64), Symbol(a, v % 64)]
  }

  lemma WordTextIsQuad(a: Alphabet, x: U8, y: U8, z: U8)
    ensures WordText(a, Word(x, y, z)) == Quad(a, x, y, z)
  {
    hide Symbol, Word;
    WordSymbols(x, y, z);
  }

  lemma EncodeStep(a: Alphabet, out: Bytes, raw: Bytes, i: nat)
    requires i + 3 <= |raw|
    ensures out + Encode(a, raw[i..]) == (out + Quad(a, raw[i], raw[i + 1], raw[i + 2])) + Encode(a, raw[i + 3..])
  {
    hide Quad;
    assert raw[i..][3..] == raw[i + 3..];
  }

  /** The rest of one or two bytes is the start of the quad it makes with zeros. */
  lemma EncodeRest(a: Alphabet, raw: Bytes, i: nat)
    requires i < |raw| < i + 3
    ensures Encode(a, raw[i..]) == Quad(a, raw[i], if i + 1 < |raw| then raw[i + 1] else 0, 0)[..|raw| - i + 1]
  {
    hide Symbol;
  }

  method EncodeText(a: Alphabet, raw: Bytes, pad: bool) returns (out: Bytes)
    ensures out == Encode(a, raw) + if pad then Padding(|raw|) else []
  {
    hide Symbol, Word, Encode, Quad, WordText;
    out := [];
    var i := 0;
    assert raw[0..] == raw && [] + Encode(a, raw) == Encode(a, raw);
    while i + 3 <= |raw|
      invariant 0 <= i <= |raw| && i % 3 == 0
      invariant out + Encode(a, raw[i..]) == Encode(a, raw)
    {
      WordTextIsQuad(a, raw[i], raw[i + 1], raw[i + 2]);
      EncodeStep(a, out, raw, i);
      out := out + WordText(a, Word(raw[i], raw[i + 1], raw[i + 2]));
      i := i + 3;
    }
    if i < |raw| {
      var rem := |raw| - i;
      var second := if rem == 2 then raw[i + 1] else 0;
      WordTextIsQuad(a, raw[i], second, 0);
      EncodeRest(a, raw, i);
      out := out + WordText(a, Word(raw[i], second, 0))[..rem + 1];
      if pad {
        out := out + if rem == 1 then [PAD, PAD] else [PAD];
      }
    } else {
      assert raw[i..] == [];
      EncodeEmpty(a);
    }
  }

  lemma EncodeEmpty(a: Alphabet)
    ensures Encode(a, []) == []
  {
  }

  /** The accumulator keeps stale high bits; only its low bits matter. */
  lemma LowBits(acc: U32, bits: nat, v: Sextet)
    requires bits == 0 || bits == 2 || bits == 4 || bits == 6
    ensures var next, pend := (acc * 64 + v) % 0x1_0000_0000, acc % Scale(bits);
            && (bits == 0 ==> next % 64 == v)
            && (bits > 0 ==> var p := Scale(bits - 2);
                             next / p % 0x100 == (pend * 64 + v) / p && next % p == (pend * 64 + v) % p)
  {
    LowBits2(acc, v);
    LowBits4(acc, v);
    LowBits6(acc, v);
  }

  /** Shifting in a sextet loses the top six bits. */
  lemma ShiftedIn(acc: U32, v: Sextet) returns (l: nat, h: nat)
    ensures acc == 0x400_0000 * h + l && l < 0x400_0000 && (acc * 64 + v) % 0x1_0000_0000 == 64 * l + v
  {
    h, l := acc / 0x400_0000, acc % 0x400_0000;
    DivModUnique(acc * 64 + v, 0x1_0000_0000, h, 64 * l + v);
  }

  lemma LowBits2(acc: U32, v: Sextet)
    ensures var next := (acc * 64 + v) % 0x1_0000_0000;
            next % 64 == v && next % 0x100 == acc % 4 * 64 + v && next / 1 % 0x100 == acc % 4 * 64 + v
  {
    var l, h := ShiftedIn(acc, v);
    DivModUnique(acc, 4, 0x100_0000 * h + l / 4, l % 4);
    DivModUnique(64 * l + v, 0x100, l / 4, l % 4 * 64 + v);
  }

  lemma LowBits4(acc: U32, v: Sextet)
    ensures var next := (acc * 64 + v) % 0x1_0000_0000;
            next / 4 % 0x100 == (acc % 16 * 64 + v) / 4 && next % 4 == (acc % 16 * 64 + v) % 4
  {
    var l, h := ShiftedIn(acc, v);
    var m, p := l / 16, l % 16;
    DivModUnique(acc, 16, 0x40_0000 * h + m, p);
    DivModUnique(64 * l + v, 4, 0x100 * m + p * 16 + v / 4, v % 4);
    DivModUnique(p * 64 + v, 4, p * 16 + v / 4, v % 4);
    DivModUnique(0x100 * m + p * 16 + v / 4, 0x100, m, p * 16 + v / 4);
  }

  lemma LowBits6(acc: U32, v: Sextet)
    ensures var next := (acc * 64 + v) % 0x1_0000_0000;
            next / 16 % 0x100 == (acc % 64 * 64 + v) / 16 && next % 16 == (acc % 64 * 64 + v) % 16
  {
    var l, h := ShiftedIn(acc, v);
    var m, p := l / 64, l % 64;
    DivModUnique(acc, 64, 0x10_0000 * h + m, p);
    DivModUnique(64 * l + v, 16, 0x100 * m + p * 4 + v / 16, v % 16);
    DivModUnique(p * 64 + v, 16, p * 4 + v / 16, v % 16);
    DivModUnique(0x100 * m + p * 4 + v / 16, 0x100, m, p * 4 + v / 16);
  }

  function Prepend(out: Bytes, r: Option<Bytes>): Option<Bytes> {
    if r.None? then None else Some(out + r.value)
  }

  method DecodeSymbols(a: Alphabet, body: Bytes) returns (r: Option<Bytes>)
    ensures r == DecodeFrom(a, body, 0, 0)
  {
    hide Lookup, Scale;
    var out: Bytes, acc: U32, bits: nat := [], 0, 0;
    ghost var all := DecodeFrom(a, body, 0, 0);
    Start(acc);
    assert body[0..] == body;
    assert all.Some? ==> [] + all.value == all.value;
    for i := 0 to |body|
      invariant Pending(acc % Scale(bits), bits)
      invariant Prepend(out, DecodeFrom(a, body[i..], acc % Scale(bits), bits)) == all
    {
      var v := Lookup(a, body[i]);
      if v.None? {
        return None;
      }
      assert body[i..][1..] == body[i + 1..];
      LowBits(acc, bits, v.value);
      ghost var pend := acc % Scale(bits);
      acc := (acc as int * 64 + v.value) % 0x1_0000_0000;
      if bits == 0 {
        bits := 6;
        Six(acc);
      } else {
        Round(a, body[i..], pend, bits, v.value);
        bits := bits - 2;
        Reassociate(out, acc / Scale(bits) % 0x100, DecodeFrom(a, body[i + 1..], acc % Scale(bits), bits));
        out := out + [acc / Scale(bits) % 0x100];
      }
    }
    assert body[|body|..] == [];
    if bits >= 6 || acc % Scale(bits) != 0 {
      return None;
    }
    assert out + [] == out;
    return Some(out);
  }

  lemma Start(acc: U32)
    requires acc == 0
    ensures acc % Scale(0) == 0 && Pending(0, 0)
  {
  }

  lemma Six(acc: U32)
    ensures acc % Scale(6) == acc % 64 && Pending(acc % 64, 6)
  {
  }

  lemma Reassociate(out: Bytes, b: U8, r: Option<Bytes>)
    ensures Prepend(out, Prepend([b], r)) == Prepend(out + [b], r)
  {
    if r.Some? {
      assert out + ([b] + r.value) == (out + [b]) + r.value;
    }
  }
}
